/** Bytes and Node's "hex" encoding: `buf.toString("hex")` writes two
    lower-case digits per byte; `Buffer.from(s, "hex")` reads pairs of digits
    of either case and stops at the first pair that is not two hex digits (a
    dangling last character is dropped). */
module Hex {
  import opened Seqs

  type byte = b: int | 0 <= b < 256

  function HexDigit(d: nat): (c: char)
    requires d < 16
  {
    if d < 10 then ('0' as int + d) as char else ('a' as int + d - 10) as char
  }

  /** The value of one hex digit of either case, or -1 for any other character. */
  function HexValue(c: char): (v: int)
    ensures -1 <= v < 16
    ensures v >= 0 <==> ('0' <= c <= '9' || 'a' <= c <= 'f' || 'A' <= c <= 'F')
  {
    if '0' <= c <= '9' then c as int - '0' as int
    else if 'a' <= c <= 'f' then c as int - 'a' as int + 10
    else if 'A' <= c <= 'F' then c as int - 'A' as int + 10
    else -1
  }

  /** Each digit `HexEncode` writes reads back as its value. */
  lemma HexValueOfDigit(d: nat)
    requires d < 16
    ensures HexValue(HexDigit(d)) == d
  {
  }

  /** Upper-case and lower-case digits read alike. */
  lemma HexValueIgnoresCase(d: nat)
    requires 10 <= d < 16
    ensures HexValue(('A' as int + d - 10) as char) == HexValue(HexDigit(d)) == d
  {
  }

  predicate IsLowerHex(s: string) {
    forall i :: 0 <= i < |s| ==> ('0' <= s[i] <= '9' || 'a' <= s[i] <= 'f')
  }

  /** `buf.toString("hex")`. */
  function HexEncode(bs: seq<byte>): (s: string)
    ensures |s| == 2 * |bs|
    ensures IsLowerHex(s)
  {
    if bs == [] then "" else [HexDigit(bs[0] / 16), HexDigit(bs[0] % 16)] + HexEncode(bs[1..])
  }

  /** `Buffer.from(s, "hex")`. */
  function HexDecode(s: string): (bs: seq<byte>)
    ensures |bs| <= |s| / 2
  {
    if |s| < 2 then []
    else
      var hi, lo := HexValue(s[0]), HexValue(s[1]);
      if hi < 0 || lo < 0 then [] else [hi * 16 + lo] + HexDecode(s[2..])
  }

  lemma {:induction false} HexEncodeAppend(a: seq<byte>, b: seq<byte>)
    ensures HexEncode(a + b) == HexEncode(a) + HexEncode(b)
  {
    if a == [] {
      assert a + b == b;
    } else {
      assert (a + b)[1..] == a[1..] + b;
      HexEncodeAppend(a[1..], b);
    }
  }

  /** One encoded byte in front of any text decodes to that byte in front. */
  lemma HexDecodeStep(b: byte, tail: string)
    ensures HexDecode([HexDigit(b / 16), HexDigit(b % 16)] + tail) == [b] + HexDecode(tail)
  {
    var s := [HexDigit(b / 16), HexDigit(b % 16)] + tail;
    HexValueOfDigit(b / 16);
    HexValueOfDigit(b % 16);
    assert s[2..] == tail;
  }

  /** The encoding of a non-empty sequence starts with its first byte's two
      digits. */
  lemma HexEncodeFirst(bs: seq<byte>, rest: string)
    requires bs != []
    ensures HexEncode(bs) + rest == [HexDigit(bs[0] / 16), HexDigit(bs[0] % 16)] + (HexEncode(bs[1..]) + rest)
  {
  }

  /** Decoding reads exactly the bytes an encoding wrote, and then carries
      on with whatever follows it. */
  lemma {:induction false} HexDecodeEncodeThen(bs: seq<byte>, rest: string)
    ensures HexDecode(HexEncode(bs) + rest) == bs + HexDecode(rest)
  {
    if bs == [] {
      assert HexEncode(bs) + rest == rest;
    } else {
      var b := bs[0];
      var tail := HexEncode(bs[1..]) + rest;
      HexEncodeFirst(bs, rest);
      HexDecodeStep(b, tail);
      HexDecodeEncodeThen(bs[1..], rest);
      ConsAppend(bs, HexDecode(rest));
    }
  }

  /** The round trip `Buffer.from(buf.toString("hex"), "hex") == buf`. */
  lemma HexRoundTrip(bs: seq<byte>)
    ensures HexDecode(HexEncode(bs)) == bs
  {
    HexDecodeEncodeThen(bs, "");
    assert HexEncode(bs) + "" == HexEncode(bs);
  }
}
