/** The chat side of the backend (app/api/services/message.service.ts): the
    in-memory message log, the scan of an outgoing chat message for words
    that could be secrets, and the reply stream, which first checks those
    words against the vault's blind indexes and only then forwards the
    message to the language model and relays its streamed answer.

    The model's HTTP endpoint is a parameter: `Downstream` says how the
    request went (rejected, a non-ok status, no body, or a body delivering
    some decoded reads and then either finishing or failing), and `parse`
    stands for `JSON.parse(line).message?.content`. */
module Messages {
  import opened Wrappers
  import opened JsString
  import opened Decimal
  import opened Encryption
  import opened SecretService
  import opened Seqs

  /** The words of `chat.split(" ")` whose trimmed length exceeds 16 code
      units, in order and untrimmed. */
  function LongWords(words: seq<string>): (r: seq<string>)
    ensures |r| <= |words|
    ensures forall w :: w in r <==> w in words && JsLength(Trim(w)) > 16
  {
    if words == [] then []
    else (if JsLength(Trim(words[0])) > 16 then [words[0]] else []) + LongWords(words[1..])
  }

  /** `pepperHashPotentialSecrets(chat)`: the candidates a chat message
      offers to the breach check. */
  function PepperHashPotentialSecrets(chat: string): (candidates: seq<string>)
    ensures forall w :: w in candidates <==> w in Split(chat, ' ') && JsLength(Trim(w)) > 16
    ensures forall w :: w in candidates ==> ' ' !in w
  {
    SplitPiecesFree(chat, ' ');
    LongWords(Split(chat, ' '))
  }

  /** The filter keeps each word where it stands: the kept words of a
      concatenation are those of each part, in order. */
  lemma {:induction false} LongWordsAppend(a: seq<string>, b: seq<string>)
    ensures LongWords(a + b) == LongWords(a) + LongWords(b)
  {
    if a == [] {
      assert a + b == b;
    } else {
      assert (a + b)[1..] == a[1..] + b;
      LongWordsAppend(a[1..], b);
      var head := if JsLength(Trim(a[0])) > 16 then [a[0]] else [];
      AppendAssoc(head, LongWords(a[1..]), LongWords(b));
    }
  }

  /** A single word is kept, untrimmed, exactly when it is long. */
  lemma LongWordsOfOne(w: string)
    ensures LongWords([w]) == if JsLength(Trim(w)) > 16 then [w] else []
  {
    assert [w][1..] == [];
  }

  /** The candidates of two texts joined by a space are those of the first
      text followed by those of the second, so order and repetitions are
      kept: a token typed twice is offered twice. */
  lemma CandidatesOfJoin(a: string, b: string)
    ensures PepperHashPotentialSecrets(a + " " + b)
            == PepperHashPotentialSecrets(a) + PepperHashPotentialSecrets(b)
  {
    SplitConcat(a, b, ' ');
    LongWordsAppend(Split(a, ' '), Split(b, ' '));
  }

  /** A message that is one long word repeated is offered that word twice. */
  lemma RepeatedTokenOfferedTwice(w: string)
    requires ' ' !in w && JsLength(Trim(w)) > 16
    ensures PepperHashPotentialSecrets(w + " " + w) == [w, w]
  {
    CandidatesOfJoin(w, w);
    SplitNoSeparator(w, ' ');
    LongWordsOfOne(w);
  }

  /** A word of at most 16 code units is never a candidate, so a stored
      token of exactly 16 units (the shortest the vault accepts) can never be
      reported as breached. */
  lemma ShortWordNeverCandidate(chat: string, w: string)
    requires JsLength(w) <= 16
    ensures w !in PepperHashPotentialSecrets(chat)
  {
    TrimShortens(w);
  }

  /** A space-free word that stands between two spaces is a piece of the
      split. */
  lemma SpacedWordIsPiece(before: string, w: string, after: string)
    requires ' ' !in w
    ensures w in Split(before + " " + w + " " + after, ' ')[1..]
  {
    var s := before + " " + w + " " + after;
    assert s == before + [' '] + (w + [' '] + after);
    SplitConcat(before, w + [' '] + after, ' ');
    SplitAfterPiece(w, after, ' ');
    var front := Split(before, ' ');
    assert Split(s, ' ') == front + ([w] + Split(after, ' '));
    assert Split(s, ' ')[1..][|front| - 1] == w;
  }

  /** A long space-free word surrounded by spaces is a candidate. */
  lemma SpacedLongWordIsCandidate(before: string, w: string, after: string)
    requires ' ' !in w && JsLength(Trim(w)) > 16
    ensures w in PepperHashPotentialSecrets(before + " " + w + " " + after)
  {
    SpacedWordIsPiece(before, w, after);
  }

  /** The words are only split at spaces and are hashed untrimmed, so a
      token followed by a line break is offered with the line break
      attached, and never the token alone. */
  lemma LineBreakStaysAttached(w: string)
    requires ' ' !in w && '\n' !in w && JsLength(Trim(w)) > 16
    ensures PepperHashPotentialSecrets(w + "\n") == [w + "\n"]
    ensures w !in PepperHashPotentialSecrets(w + "\n")
  {
    assert ' ' !in w + "\n";
    SplitNoSeparator(w + "\n", ' ');
    TrimDropsTrailingBreak(w);
  }

  datatype Message = Message(id: string, content: string, role: string)

  /** The ids of a log that only `sendMessage` has written: "1", "2", ... */
  ghost predicate NumberedFromOne(messages: seq<Message>) {
    forall i :: 0 <= i < |messages| ==> messages[i].id == NatToString(i + 1)
  }

  /** Such a log never holds two messages with the same id. */
  lemma NumberedIdsDistinct(messages: seq<Message>)
    requires NumberedFromOne(messages)
    ensures forall i, j :: 0 <= i < j < |messages| ==> messages[i].id != messages[j].id
  {
    forall i, j | 0 <= i < j < |messages|
      ensures messages[i].id != messages[j].id
    {
      if messages[i].id == messages[j].id {
        NatToStringInjective(i + 1, j + 1);
      }
    }
  }

  /** One chunk of the reply stream; `breach` is false where the source
      leaves the field out. */
  datatype Chunk = Chunk(content: string, done: bool, breach: bool)

  /** What `JSON.parse(line)` makes of a line: an exception, or an object
      whose `message.content` is a string or absent. */
  datatype Parsed = Malformed | Json(content: Option<string>)

  /** How the request to the language model went. */
  datatype Downstream =
    | FetchFails
    | NotOk
    | NoBody
    | Body(received: seq<string>, failsAfter: bool)

  const FINAL := Chunk("", true, false)

  /** The text of the reply to a message that contained breached tokens. */
  function BreachNotice(n: nat): string {
    "\U{26A0}\U{FE0F} Breach detected: " + NatToString(n)
    + " secret(s) found in your message. Please remove sensitive tokens to continue."
  }

  /** Different counts give different notices, so the reply names how many
      tokens matched. */
  lemma BreachNoticeNamesCount(n: nat, m: nat)
    requires BreachNotice(n) == BreachNotice(m)
    ensures n == m
  {
    var head := "\U{26A0}\U{FE0F} Breach detected: ";
    var tail := " secret(s) found in your message. Please remove sensitive tokens to continue.";
    var a, b := NatToString(n), NatToString(m);
    assert |a| == |b|;
    assert a == BreachNotice(n)[|head|..|head| + |a|];
    assert b == BreachNotice(m)[|head|..|head| + |b|];
    NatToStringInjective(n, m);
  }

  /** `chunk.split("\n").filter(line => line.trim())`: the lines that are not
      blank, in order. */
  function NonBlank(lines: seq<string>): (r: seq<string>)
    ensures |r| <= |lines|
    ensures forall l :: l in r ==> l in lines && Trim(l) != ""
    ensures forall l :: l in lines && Trim(l) != "" ==> l in r
  {
    if lines == [] then []
    else (if Trim(lines[0]) != "" then [lines[0]] else []) + NonBlank(lines[1..])
  }

  lemma {:induction false} NonBlankConcat(a: seq<string>, b: seq<string>)
    ensures NonBlank(a + b) == NonBlank(a) + NonBlank(b)
  {
    if a != [] {
      assert (a + b)[1..] == a[1..] + b;
      NonBlankConcat(a[1..], b);
      var head := if Trim(a[0]) != "" then [a[0]] else [];
      AppendAssoc(head, NonBlank(a[1..]), NonBlank(b));
    } else {
      assert a + b == b;
    }
  }

  /** The chunks the lines yield: one per line whose parsed content is a
      non-empty string, carrying that content. */
  function LineChunks(parse: string -> Parsed, lines: seq<string>): (r: seq<Chunk>)
    ensures |r| <= |lines|
    ensures forall i :: 0 <= i < |r| ==> !r[i].done && !r[i].breach && r[i].content != ""
  {
    if lines == [] then [] else LineChunk(parse(lines[0])) + LineChunks(parse, lines[1..])
  }

  /** The chunk one parsed line yields, if any: `json.message?.content` must
      be truthy, that is, a non-empty string. */
  function LineChunk(parsed: Parsed): (r: seq<Chunk>)
    ensures |r| <= 1
    ensures |r| == 1 <==> parsed.Json? && Truthy(parsed.content)
    ensures |r| == 1 ==> r[0] == Chunk(parsed.content.value, false, false)
  {
    if parsed.Json? && Truthy(parsed.content) then [Chunk(parsed.content.value, false, false)] else []
  }

  lemma {:induction false} LineChunksConcat(parse: string -> Parsed, a: seq<string>, b: seq<string>)
    ensures LineChunks(parse, a + b) == LineChunks(parse, a) + LineChunks(parse, b)
  {
    if a != [] {
      assert (a + b)[1..] == a[1..] + b;
      LineChunksConcat(parse, a[1..], b);
      AppendAssoc(LineChunk(parse(a[0])), LineChunks(parse, a[1..]), LineChunks(parse, b));
    } else {
      assert a + b == b;
    }
  }

  /** The chunks one read of the body yields. */
  function ReadChunks(parse: string -> Parsed, text: string): (r: seq<Chunk>)
    ensures forall i :: 0 <= i < |r| ==> !r[i].done && !r[i].breach && r[i].content != ""
  {
    LineChunks(parse, NonBlank(Split(text, '\n')))
  }

  /** The chunks the reads of the body yield, read by read; each read is
      split into lines on its own. */
  function BodyChunks(parse: string -> Parsed, received: seq<string>): (r: seq<Chunk>)
    ensures forall i :: 0 <= i < |r| ==> !r[i].done && !r[i].breach && r[i].content != ""
  {
    if received == [] then []
    else BodyChunks(parse, received[..|received| - 1]) + ReadChunks(parse, received[|received| - 1])
  }

  /** The reply stream once no breach was found. Whatever goes wrong —
      the request, the status, a missing body, a failing read — the stream
      ends with the same final chunk, after whatever chunks came before. */
  function StreamChunks(parse: string -> Parsed, d: Downstream): (r: seq<Chunk>)
    ensures |r| >= 1 && r[|r| - 1] == FINAL
    ensures forall i :: 0 <= i < |r| - 1 ==> !r[i].done && !r[i].breach && r[i].content != ""
    ensures !d.Body? ==> r == [FINAL]
  {
    match d
    case Body(received, _) => BodyChunks(parse, received) + [FINAL]
    case _ => [FINAL]
  }

  /** A reader that fails after its reads and one that reports the end are
      indistinguishable to the subscriber. */
  lemma FailureAfterReadsIsSilent(parse: string -> Parsed, received: seq<string>)
    ensures StreamChunks(parse, Body(received, true)) == StreamChunks(parse, Body(received, false))
    ensures StreamChunks(parse, Body([], false)) == StreamChunks(parse, FetchFails)
  {
  }

  lemma BodyChunksOfOne(parse: string -> Parsed, text: string)
    ensures BodyChunks(parse, [text]) == ReadChunks(parse, text)
  {
    assert [text][..0] == [];
  }

  lemma BodyChunksOfTwo(parse: string -> Parsed, a: string, b: string)
    ensures BodyChunks(parse, [a, b]) == ReadChunks(parse, a) + ReadChunks(parse, b)
  {
    assert [a, b][..1] == [a];
    BodyChunksOfOne(parse, a);
  }

  /** A read without a line break is one line, and yields that line's
      chunk unless the line is blank. */
  lemma ReadOfOneLine(parse: string -> Parsed, line: string)
    requires '\n' !in line
    ensures ReadChunks(parse, line) == if Trim(line) != "" then LineChunk(parse(line)) else []
  {
    SplitNoSeparator(line, '\n');
    assert [line][1..] == [];
    if Trim(line) != "" {
      assert NonBlank([line]) == [line];
      assert LineChunks(parse, [line]) == LineChunk(parse(line)) + LineChunks(parse, []);
    } else {
      assert NonBlank([line]) == [];
    }
  }

  /** Where a read ends at a line break, splitting the body there yields the
      same chunks as one read of the whole. */
  lemma ReadBoundaryAtLineBreak(parse: string -> Parsed, a: string, b: string)
    ensures BodyChunks(parse, [a + "\n" + b]) == BodyChunks(parse, [a, b])
  {
    var la, lb := Split(a, '\n'), Split(b, '\n');
    SplitConcat(a, b, '\n');
    NonBlankConcat(la, lb);
    LineChunksConcat(parse, NonBlank(la), NonBlank(lb));
    assert ReadChunks(parse, a + "\n" + b) == ReadChunks(parse, a) + ReadChunks(parse, b);
    BodyChunksOfOne(parse, a + "\n" + b);
    BodyChunksOfTwo(parse, a, b);
  }

  /** A body that is a single non-blank line yields that line's chunk. */
  lemma OneLineBody(parse: string -> Parsed, line: string)
    requires '\n' !in line && Trim(line) != ""
    ensures BodyChunks(parse, [line]) == LineChunk(parse(line))
  {
    ReadOfOneLine(parse, line);
    BodyChunksOfOne(parse, line);
  }

  /** Where a read ends inside a line, the two halves are parsed on their
      own; when neither half is valid JSON the line yields nothing, even if
      the whole line, read at once, would have yielded a chunk. */
  lemma LineCutByReadIsLost(parse: string -> Parsed, a: string, b: string)
    requires '\n' !in a && '\n' !in b
    requires parse(a).Malformed? && parse(b).Malformed?
    ensures BodyChunks(parse, [a, b]) == []
    ensures parse(a + b).Json? && Truthy(parse(a + b).content) && Trim(a + b) != ""
            ==> BodyChunks(parse, [a + b]) == [Chunk(parse(a + b).content.value, false, false)]
  {
    ReadOfOneLine(parse, a);
    ReadOfOneLine(parse, b);
    BodyChunksOfTwo(parse, a, b);
    if parse(a + b).Json? && Truthy(parse(a + b).content) && Trim(a + b) != "" {
      assert '\n' !in a + b;
      OneLineBody(parse, a + b);
    }
  }

  lemma BodyChunksStep(parse: string -> Parsed, received: seq<string>, k: nat)
    requires k < |received|
    ensures BodyChunks(parse, received[..k + 1]) == BodyChunks(parse, received[..k]) + ReadChunks(parse, received[k])
  {
    var front := received[..k + 1];
    assert front[..|front| - 1] == received[..k] && front[|front| - 1] == received[k];
  }

  lemma LineChunksStep(parse: string -> Parsed, lines: seq<string>, j: nat)
    requires j < |lines|
    ensures LineChunks(parse, lines[..j + 1]) == LineChunks(parse, lines[..j]) + LineChunk(parse(lines[j]))
  {
    assert lines[..j + 1] == lines[..j] + [lines[j]];
    LineChunksConcat(parse, lines[..j], [lines[j]]);
    assert [lines[j]][1..] == [];
  }

  /** The `for (const line of lines)` loop over one read. */
  method RelayRead(parse: string -> Parsed, text: string) returns (chunks: seq<Chunk>)
    ensures chunks == ReadChunks(parse, text)
  {
    var lines := NonBlank(Split(text, '\n'));
    chunks := [];
    var j := 0;
    while j < |lines|
      invariant 0 <= j <= |lines|
      invariant chunks == LineChunks(parse, lines[..j])
    {
      LineChunksStep(parse, lines, j);
      var parsed := parse(lines[j]);
      if parsed.Json? && Truthy(parsed.content) {
        chunks := chunks + [Chunk(parsed.content.value, false, false)];
      }
      j := j + 1;
    }
    assert lines[..j] == lines;
  }

  /** The `while (true)` loop over the reads of the body, up to its end or
      its failure. */
  method RelayBody(parse: string -> Parsed, received: seq<string>) returns (chunks: seq<Chunk>)
    ensures chunks == BodyChunks(parse, received)
  {
    chunks := [];
    var k := 0;
    while k < |received|
      invariant 0 <= k <= |received|
      invariant chunks == BodyChunks(parse, received[..k])
    {
      var more := RelayRead(parse, received[k]);
      BodyChunksStep(parse, received, k);
      chunks := chunks + more;
      k := k + 1;
    }
    assert received[..k] == received;
  }

  /** The stream once the message is forwarded: the model's chunks, then
      the final chunk however the request or the body ends. */
  method RelayStream(parse: string -> Parsed, downstream: Downstream) returns (chunks: seq<Chunk>)
    ensures chunks == StreamChunks(parse, downstream)
  {
    if !downstream.Body? {
      return [FINAL];
    }
    var relayed := RelayBody(parse, downstream.received);
    chunks := relayed + [FINAL];
  }

  /** `MessageService` over the module-level message list. */
  class MessageService {
    var messages: seq<Message>

    ghost predicate Valid()
      reads this
    {
      NumberedFromOne(messages)
    }

    constructor ()
      ensures Valid() && messages == []
    {
      messages := [];
    }

    /** `getMessages()`. */
    function GetMessages(): seq<Message>
      reads this
    {
      messages
    }

    /** `sendMessage(content)`: appends a user message numbered one past the
        log's length and returns it. */
    method SendMessage(content: string) returns (m: Message)
      requires Valid()
      modifies this
      ensures Valid()
      ensures m == Message(NatToString(|old(messages)| + 1), content, "user")
      ensures messages == old(messages) + [m]
      ensures forall k :: 0 <= k < |old(messages)| ==> old(messages)[k].id != m.id
    {
      m := Message(NatToString(|messages| + 1), content, "user");
      messages := messages + [m];
      NumberedIdsDistinct(messages);
      forall k | 0 <= k < |old(messages)| ensures old(messages)[k].id != m.id {
        assert messages[k] == old(messages)[k] && messages[|messages| - 1] == m;
      }
    }

    /** `messageStream(content)`. The candidates of the message are checked
        against the vault first; an error of the check (a missing pepper)
        escapes the stream. When some stored token was among them the reply
        is a single breach notice and nothing is forwarded; otherwise the
        message is forwarded and the reply is the model's stream. The
        message log is not touched. */
    method MessageStream(vault: Vault, p: Primitives, env: Env, parse: string -> Parsed,
                         downstream: Downstream, content: string)
      returns (r: Result<seq<Chunk>, CryptoError>, forwarded: bool)
      requires vault.Valid()
      modifies vault
      ensures vault.Valid() && vault.secrets == old(vault.secrets)
      ensures var hashed := HashAll(p, env, PepperHashPotentialSecrets(content));
              && (r.Err? <==> hashed.Err?)
              && (r.Err? ==> vault.audits == old(vault.audits) && !forwarded)
              && (r.Ok? ==>
                    var matches := Matching(old(vault.secrets), hashed.value);
                    && vault.audits == old(vault.audits) + BreachAudits(matches)
                    && (forwarded <==> matches == [])
                    && (matches != [] ==> r.value == [Chunk(BreachNotice(|matches|), true, true)])
                    && (matches == [] ==> r.value == StreamChunks(parse, downstream)))
    {
      var candidates := PepperHashPotentialSecrets(content);
      var report := vault.CheckBreaches(p, env, candidates);
      if report.Err? {
        return Err(report.error), false;
      }
      ghost var matches := Matching(old(vault.secrets), HashAll(p, env, candidates).value);
      assert report.value.breachesFound == |matches|;
      if report.value.breachesFound > 0 {
        return Ok([Chunk(BreachNotice(report.value.breachesFound), true, true)]), false;
      }
      forwarded := true;
      var chunks := RelayStream(parse, downstream);
      r := Ok(chunks);
    }
  }
}
