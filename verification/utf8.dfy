/**
 * UTF-8, as Rust's `str::as_bytes` produces it and `String::from_utf8` checks it:
 * shortest form only, no surrogates, nothing above U+10FFFF.
 */
module Utf8 {
  import opened Wrappers
  import opened Bytes

  /** A continuation byte `10xxxxxx`. */
  predicate IsContinuation(b: byte) {
    0x80 <= b < 0xC0
  }

  /** The UTF-8 form of one scalar value. */
  function EncodeChar(c: char): (bs: seq<byte>)
    ensures 1 <= |bs| <= 4
    ensures (c as int < 0x80) <==> |bs| == 1
    ensures |bs| == 1 ==> bs[0] == c as int
  {
    var n := c as int;
    if n < 0x80 then [n]
    else if n < 0x800 then [0xC0 + n / 64, 0x80 + n % 64]
    else if n < 0x10000 then [0xE0 + n / 4096, 0x80 + (n / 64) % 64, 0x80 + n % 64]
    else [0xF0 + n / 262144, 0x80 + (n / 4096) % 64, 0x80 + (n / 64) % 64, 0x80 + n % 64]
  }

  /** The UTF-8 bytes of a string (`str::as_bytes`). */
  function Encode(s: string): (bs: seq<byte>)
    ensures |bs| >= |s|
  {
    if |s| == 0 then [] else EncodeChar(s[0]) + Encode(s[1..])
  }

  /** A string of ASCII characters only. */
  predicate IsAscii(s: string) {
    forall i :: 0 <= i < |s| ==> s[i] as int < 0x80
  }

  /** ASCII text encodes one byte per character, each byte being the character's code. */
  lemma {:induction false} AsciiEncoding(s: string)
    requires IsAscii(s)
    ensures |Encode(s)| == |s|
    ensures forall i :: 0 <= i < |s| ==> Encode(s)[i] == s[i] as int
  {
    if |s| > 0 {
      assert IsAscii(s[1..]) by {
        forall i | 0 <= i < |s[1..]| ensures s[1..][i] as int < 0x80 {
          assert s[1..][i] == s[i + 1];
        }
      }
      AsciiEncoding(s[1..]);
    }
  }

  /**
   * Decodes the scalar value starting at `bs[i]`, returning it with its byte count,
   * or `None` when the bytes there are not well-formed UTF-8.
   */
  function DecodeChar(bs: seq<byte>, i: nat): (r: Option<(char, nat)>)
    requires i < |bs|
    ensures r.Some? ==> 1 <= r.value.1 <= 4 && i + r.value.1 <= |bs|
  {
    var b0: int := bs[i];
    if b0 < 0x80 then Some((b0 as char, 1))
    else if 0xC2 <= b0 < 0xE0 then
      if i + 1 < |bs| && IsContinuation(bs[i + 1]) then
        var n := (b0 - 0xC0) * 64 + (bs[i + 1] as int - 0x80);
        Some((n as char, 2))
      else None
    else if 0xE0 <= b0 < 0xF0 then
      if i + 2 < |bs| && IsContinuation(bs[i + 1]) && IsContinuation(bs[i + 2]) then
        var n := (b0 - 0xE0) * 4096 + (bs[i + 1] as int - 0x80) * 64 + (bs[i + 2] as int - 0x80);
        if n < 0x800 || (0xD800 <= n < 0xE000) then None else Some((n as char, 3))
      else None
    else if 0xF0 <= b0 < 0xF5 then
      if i + 3 < |bs| && IsContinuation(bs[i + 1]) && IsContinuation(bs[i + 2]) && IsContinuation(bs[i + 3]) then
        var n := (b0 - 0xF0) * 262144 + (bs[i + 1] as int - 0x80) * 4096 + (bs[i + 2] as int - 0x80) * 64 + (bs[i + 3] as int - 0x80);
        if n < 0x10000 || n >= 0x110000 then None else Some((n as char, 4))
      else None
    else None
  }

  /** Decodes `bs[i..]`; `None` exactly when some part of it is not well-formed UTF-8. */
  function DecodeFrom(bs: seq<byte>, i: nat): Option<string>
    requires i <= |bs|
    decreases |bs| - i
  {
    if i == |bs| then Some("")
    else match DecodeChar(bs, i)
      case None => None
      case Some((c, k)) =>
        match DecodeFrom(bs, i + k)
        case None => None
        case Some(rest) => Some([c] + rest)
  }

  /** `String::from_utf8`: the text the bytes spell, or `None` for invalid UTF-8. */
  function Decode(bs: seq<byte>): Option<string> {
    DecodeFrom(bs, 0)
  }

  /** Splitting a number into its quotient and remainder by 64 and recombining gives it back. */
  lemma Split64(n: nat)
    ensures n == (n / 64) * 64 + n % 64 && 0 <= n % 64 < 64
  {
  }

  lemma DecodeEncodeTwo(c: char, bs: seq<byte>)
    requires 0x80 <= c as int < 0x800 && |bs| >= 2
    requires bs[..2] == EncodeChar(c)
    ensures DecodeChar(bs, 0) == Some((c, 2))
  {
    var n := c as int;
    assert bs[0] == bs[..2][0] && bs[1] == bs[..2][1];
    Split64(n);
  }

  lemma DecodeEncodeThree(c: char, bs: seq<byte>)
    requires 0x800 <= c as int < 0x10000 && |bs| >= 3
    requires bs[..3] == EncodeChar(c)
    ensures DecodeChar(bs, 0) == Some((c, 3))
  {
    var n := c as int;
    assert bs[0] == bs[..3][0] && bs[1] == bs[..3][1] && bs[2] == bs[..3][2];
    var q := n / 64;
    Split64(n);
    Split64(q);
    assert n / 4096 == q / 64;
    assert (n / 4096) * 4096 + (q % 64) * 64 + n % 64 == n;
  }

  lemma DecodeEncodeFour(c: char, bs: seq<byte>)
    requires 0x10000 <= c as int && |bs| >= 4
    requires bs[..4] == EncodeChar(c)
    ensures DecodeChar(bs, 0) == Some((c, 4))
  {
    var n := c as int;
    assert bs[0] == bs[..4][0] && bs[1] == bs[..4][1] && bs[2] == bs[..4][2] && bs[3] == bs[..4][3];
    var q := n / 64;
    var q2 := q / 64;
    Split64(n);
    Split64(q);
    Split64(q2);
    assert n / 4096 == q2;
    assert n / 262144 == q2 / 64;
    assert (n / 262144) * 262144 + (q2 % 64) * 4096 + (q % 64) * 64 + n % 64 == n;
  }

  /** The first character's encoding decodes back to that character, whatever follows it. */
  lemma DecodeEncodeChar(c: char, rest: seq<byte>)
    ensures DecodeChar(EncodeChar(c) + rest, 0) == Some((c, |EncodeChar(c)|))
  {
    var n := c as int;
    var e := EncodeChar(c);
    var bs := e + rest;
    assert bs[..|e|] == e;
    if n < 0x80 {
    } else if n < 0x800 {
      DecodeEncodeTwo(c, bs);
    } else if n < 0x10000 {
      DecodeEncodeThree(c, bs);
    } else {
      DecodeEncodeFour(c, bs);
    }
  }

  lemma {:induction false} DecodeFromEncode(s: string, prefix: seq<byte>)
    ensures DecodeFrom(prefix + Encode(s), |prefix|) == Some(s)
    decreases |s|
  {
    var bs := prefix + Encode(s);
    if |s| > 0 {
      var e := EncodeChar(s[0]);
      assert bs == prefix + e + Encode(s[1..]);
      DecodeEncodeChar(s[0], Encode(s[1..]));
      assert DecodeChar(bs, |prefix|) == Some((s[0], |e|)) by {
        DecodeCharShift(prefix, e + Encode(s[1..]));
      }
      DecodeFromEncode(s[1..], prefix + e);
      assert prefix + e + Encode(s[1..]) == bs;
      assert [s[0]] + s[1..] == s;
    }
  }

  /** Decoding is unaffected by bytes placed before the decoding position. */
  lemma DecodeCharShift(prefix: seq<byte>, bs: seq<byte>)
    requires |bs| > 0
    ensures DecodeChar(prefix + bs, |prefix|) == DecodeChar(bs, 0)
  {
    var all := prefix + bs;
    assert forall j :: 0 <= j < |bs| ==> all[|prefix| + j] == bs[j];
  }

  /** `String::from_utf8(s.as_bytes())` gives back `s`. */
  lemma DecodeEncode(s: string)
    ensures Decode(Encode(s)) == Some(s)
  {
    DecodeFromEncode(s, []);
    assert [] + Encode(s) == Encode(s);
  }
}
