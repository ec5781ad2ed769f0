/** The handful of JavaScript string operations the core relies on, with
    JavaScript's own semantics: `length` counts UTF-16 code units, `trim`
    strips the ECMAScript WhiteSpace and LineTerminator characters, `split`
    with a one-character separator keeps empty pieces, and `slice` clamps
    its bounds. Dafny strings are sequences of Unicode scalar values. */
module JsString {
  import opened Wrappers

  /** JavaScript truthiness of a value that is a string or absent
      (`undefined`/`null`): absent and "" are both falsy. */
  predicate Truthy(v: Option<string>) {
    v.Some? && v.value != ""
  }

  /** Number of UTF-16 code units that encode `c`. */
  function Units(c: char): nat {
    if c as int >= 0x1_0000 then 2 else 1
  }

  /** `s.length` in JavaScript. */
  function JsLength(s: string): (n: nat)
    ensures n >= |s|
    ensures n <= 2 * |s|
  {
    if s == [] then 0 else Units(s[0]) + JsLength(s[1..])
  }

  lemma {:induction false} JsLengthAppend(a: string, b: string)
    ensures JsLength(a + b) == JsLength(a) + JsLength(b)
  {
    if a != [] {
      assert (a + b)[1..] == a[1..] + b;
      JsLengthAppend(a[1..], b);
    } else {
      assert a + b == b;
    }
  }

  /** A string of Basic Multilingual Plane characters has one code unit per
      character. */
  lemma {:induction false} JsLengthOfNarrow(s: string)
    requires forall i :: 0 <= i < |s| ==> s[i] as int < 0x1_0000
    ensures JsLength(s) == |s|
  {
    if s != [] {
      assert forall i :: 0 <= i < |s[1..]| ==> s[1..][i] == s[i + 1];
      JsLengthOfNarrow(s[1..]);
    }
  }

  /** ECMAScript WhiteSpace and LineTerminator code points, the set that
      `String.prototype.trim` removes. */
  predicate IsJsWhitespace(c: char) {
    || c == '\t' || c == '\n' || c == '\U{000B}' || c == '\U{000C}' || c == '\r'
    || c == ' ' || c == '\U{00A0}' || c == '\U{1680}'
    || ('\U{2000}' <= c <= '\U{200A}')
    || c == '\U{2028}' || c == '\U{2029}' || c == '\U{202F}' || c == '\U{205F}'
    || c == '\U{3000}' || c == '\U{FEFF}'
  }

  /** The number of whitespace characters `s` starts with. */
  function LeadingWhitespace(s: string): (k: nat)
    ensures k <= |s| && (k < |s| ==> !IsJsWhitespace(s[k]))
    ensures forall i :: 0 <= i < k ==> IsJsWhitespace(s[i])
  {
    if s != [] && IsJsWhitespace(s[0]) then 1 + LeadingWhitespace(s[1..]) else 0
  }

  /** The count is determined by where the first non-whitespace character
      stands. */
  lemma LeadingWhitespaceAt(s: string, k: nat)
    requires k <= |s| && (k < |s| ==> !IsJsWhitespace(s[k]))
    requires forall i :: 0 <= i < k ==> IsJsWhitespace(s[i])
    ensures LeadingWhitespace(s) == k
  {
  }

  /** `s.trimStart()`: drops leading whitespace. */
  function TrimStart(s: string): (r: string)
    ensures |r| <= |s| && r == s[|s| - |r|..]
    ensures r != [] ==> !IsJsWhitespace(r[0])
    ensures forall i :: 0 <= i < |s| - |r| ==> IsJsWhitespace(s[i])
  {
    s[LeadingWhitespace(s)..]
  }

  /** Drops trailing whitespace; the result is a prefix of `s` that does not
      end with whitespace. */
  function TrimEnd(s: string): (r: string)
    ensures |r| <= |s| && r == s[..|r|]
    ensures r != [] ==> !IsJsWhitespace(r[|r| - 1])
    ensures forall i :: |r| <= i < |s| ==> IsJsWhitespace(s[i])
  {
    if s != [] && IsJsWhitespace(s[|s| - 1]) then TrimEnd(s[..|s| - 1]) else s
  }

  /** `s.trim()`. */
  function Trim(s: string): (r: string)
    ensures |r| <= |s|
    ensures LeadingWhitespace(s) + |r| <= |s| && r == s[LeadingWhitespace(s)..LeadingWhitespace(s) + |r|]
    ensures r != [] ==> !IsJsWhitespace(r[0]) && !IsJsWhitespace(r[|r| - 1])
  {
    TrimEnd(TrimStart(s))
  }

  /** Leading whitespace is dropped the same way whatever follows. */
  lemma TrimStartAppend(s: string, tail: string)
    requires TrimStart(s) != []
    ensures TrimStart(s + tail) == TrimStart(s) + tail
  {
    var k := LeadingWhitespace(s);
    var u := s + tail;
    assert u[k] == s[k];
    assert forall i :: 0 <= i < k ==> u[i] == s[i];
    LeadingWhitespaceAt(u, k);
    assert u[k..] == s[k..] + tail;
  }

  /** A line break after a non-blank string is trimmed away. */
  lemma TrimDropsTrailingBreak(s: string)
    requires Trim(s) != ""
    ensures Trim(s + "\n") == Trim(s)
  {
    var t := TrimStart(s);
    TrimStartAppend(s, "\n");
    var u := t + "\n";
    assert u[..|u| - 1] == t;
  }

  /** A suffix or a prefix is never longer, in code units, than the whole. */
  lemma SuffixShorter(s: string, k: nat)
    requires k <= |s|
    ensures JsLength(s[k..]) <= JsLength(s)
  {
    assert s == s[..k] + s[k..];
    JsLengthAppend(s[..k], s[k..]);
  }

  lemma PrefixShorter(s: string, k: nat)
    requires k <= |s|
    ensures JsLength(s[..k]) <= JsLength(s)
  {
    assert s == s[..k] + s[k..];
    JsLengthAppend(s[..k], s[k..]);
  }

  /** Trimming never makes a string longer, in code units. */
  lemma TrimShortens(s: string)
    ensures JsLength(Trim(s)) <= JsLength(s)
  {
    var t := TrimStart(s);
    SuffixShorter(s, |s| - |t|);
    PrefixShorter(t, |TrimEnd(t)|);
  }

  /** A string that is blank in JavaScript's sense (`!s.trim()`) is made of
      whitespace only, and conversely. */
  lemma {:induction false} TrimEmptyIffBlank(s: string)
    ensures Trim(s) == [] <==> forall i :: 0 <= i < |s| ==> IsJsWhitespace(s[i])
  {
    var t := TrimStart(s);
    if t != [] {
      assert t[0] == s[|s| - |t|];
    }
  }

  /** `s.indexOf(c)`, with `|s|` standing for JavaScript's -1: the first
      position holding `c`. */
  function IndexOf(s: string, c: char): (i: nat)
    ensures i <= |s| && (i < |s| ==> s[i] == c)
    ensures forall j :: 0 <= j < i ==> s[j] != c
  {
    if s == [] || s[0] == c then 0 else 1 + IndexOf(s[1..], c)
  }

  /** The first position is determined by where `c` first occurs. */
  lemma IndexOfUnique(s: string, c: char, i: nat)
    requires i <= |s| && (i < |s| ==> s[i] == c)
    requires forall j :: 0 <= j < i ==> s[j] != c
    ensures IndexOf(s, c) == i
  {
  }

  /** `s.split(sep)` for a one-character separator: the text up to the first
      separator, then the split of the rest; at least one piece, and empty
      pieces are kept. */
  function Split(s: string, sep: char): (pieces: seq<string>)
    ensures |pieces| >= 1
    decreases |s|
  {
    var i := IndexOf(s, sep);
    if i == |s| then [s] else [s[..i]] + Split(s[i + 1..], sep)
  }

  /** One step of `split` at the first separator. */
  lemma SplitAt(s: string, sep: char)
    requires IndexOf(s, sep) < |s|
    ensures Split(s, sep) == [s[..IndexOf(s, sep)]] + Split(s[IndexOf(s, sep) + 1..], sep)
  {
  }

  /** `pieces.join(sep)`. */
  function Join(pieces: seq<string>, sep: char): string
    requires |pieces| >= 1
  {
    if |pieces| == 1 then pieces[0] else pieces[0] + [sep] + Join(pieces[1..], sep)
  }

  /** Splitting loses nothing: joining the pieces back gives the input. */
  lemma {:induction false} JoinSplit(s: string, sep: char)
    ensures Join(Split(s, sep), sep) == s
    decreases |s|
  {
    var i := IndexOf(s, sep);
    if i < |s| {
      var rest := Split(s[i + 1..], sep);
      JoinSplit(s[i + 1..], sep);
      SplitAt(s, sep);
      var ps := Split(s, sep);
      assert ps[0] == s[..i] && ps[1..] == rest;
      assert Join(ps, sep) == s[..i] + [sep] + Join(rest, sep);
      assert s == s[..i] + [sep] + s[i + 1..];
    }
  }

  /** No piece contains the separator. */
  lemma {:induction false} SplitPiecesFree(s: string, sep: char)
    ensures forall k :: 0 <= k < |Split(s, sep)| ==> sep !in Split(s, sep)[k]
    decreases |s|
  {
    var i := IndexOf(s, sep);
    if i < |s| {
      SplitPiecesFree(s[i + 1..], sep);
    }
  }

  /** A string without the separator comes back as a single piece. */
  lemma SplitNoSeparator(s: string, sep: char)
    requires sep !in s
    ensures Split(s, sep) == [s]
  {
    IndexOfUnique(s, sep, |s|);
  }

  /** Splitting at a separator splits the two sides independently. */
  lemma {:induction false} SplitConcat(a: string, b: string, sep: char)
    ensures Split(a + [sep] + b, sep) == Split(a, sep) + Split(b, sep)
    decreases |a|
  {
    var s := a + [sep] + b;
    var i := IndexOf(a, sep);
    IndexOfUnique(s, sep, i);
    SplitAt(s, sep);
    if i == |a| {
      assert s[..i] == a;
      assert s[i + 1..] == b;
    } else {
      var a' := a[i + 1..];
      assert s[..i] == a[..i];
      assert s[i + 1..] == a' + [sep] + b;
      SplitConcat(a', b, sep);
      SplitAt(a, sep);
      var p, x, y := [a[..i]], Split(a', sep), Split(b, sep);
      assert p + (x + y) == (p + x) + y;
    }
  }

  /** A piece free of the separator, followed by the separator, splits off
      as the first piece. */
  lemma SplitAfterPiece(piece: string, rest: string, sep: char)
    requires sep !in piece
    ensures Split(piece + [sep] + rest, sep) == [piece] + Split(rest, sep)
  {
    var s := piece + [sep] + rest;
    IndexOfUnique(s, sep, |piece|);
    assert s[..|piece|] == piece && s[|piece| + 1..] == rest;
  }

  /** The first piece of a split is the text up to the first separator. */
  lemma SplitFirstPiece(s: string, sep: char)
    ensures var piece := Split(s, sep)[0];
            StartsWith(s, piece) && sep !in piece && (|piece| == |s| || s[|piece|] == sep)
  {
  }

  /** `s.startsWith(prefix)`. */
  predicate StartsWith(s: string, prefix: string) {
    |prefix| <= |s| && s[..|prefix|] == prefix
  }

  function Min(a: nat, b: nat): nat {
    if a <= b then a else b
  }

  /** `s.slice(begin, end)` for non-negative bounds: both bounds are clamped
      to the length, and a reversed range is empty. */
  function Slice(s: string, begin: nat, end: nat): (r: string)
    ensures |r| <= |s| && (begin <= end ==> |r| <= end - begin)
    ensures begin + |r| <= |s| ==> r == s[begin..begin + |r|]
    ensures end <= |s| && begin <= end ==> r == s[begin..end]
  {
    var b, e := Min(begin, |s|), Min(end, |s|);
    if e <= b then "" else s[b..e]
  }
}
