/** UTF-8, the encoding `quote_plus` applies to a string before it
    percent-encodes the bytes, together with a strict decoder as its inverse. */
module Utf8 {
  import opened Wrappers

  type Byte = b: int | 0 <= b < 256

  /** Is `n` a Unicode scalar value (a code point that is not a surrogate)? */
  predicate IsScalar(n: int) {
    0 <= n < 0xD800 || 0xE000 <= n < 0x11_0000
  }

  /** A continuation byte 10xxxxxx. */
  predicate IsContinuation(b: Byte) {
    0x80 <= b < 0xC0
  }

  /** How many bytes the sequence starting with `lead` has; 0 for a byte no sequence starts with. */
  function SequenceLength(lead: Byte): (n: nat)
    ensures n <= 4
  {
    if lead < 0x80 then 1
    else if 0xC0 <= lead < 0xE0 then 2
    else if 0xE0 <= lead < 0xF0 then 3
    else if 0xF0 <= lead < 0xF8 then 4
    else 0
  }

  /** The shortest UTF-8 form of one character. */
  function EncodeChar(c: char): (r: seq<Byte>)
    ensures 1 <= |r| <= 4 && SequenceLength(r[0]) == |r|
  {
    var n := c as int;
    if n < 0x80 then [n]
    else if n < 0x800 then [0xC0 + n / 64, 0x80 + n % 64]
    else if n < 0x1_0000 then [0xE0 + n / 4096, 0x80 + (n / 64) % 64, 0x80 + n % 64]
    else [0xF0 + n / 0x4_0000, 0x80 + (n / 4096) % 64, 0x80 + (n / 64) % 64, 0x80 + n % 64]
  }

  /** The sequence a character is written as decodes back to that character. */
  lemma DecodeEncodeChar(c: char)
    ensures DecodeScalar(EncodeChar(c)) == Some(c)
  {
    var n := c as int;
    Split6(n);
    if n >= 0x800 {
      Split6(n / 64);
    }
    if n >= 0x1_0000 {
      Split6(n / 4096);
    }
  }

  /** Splitting off the low six bits, the payload of one continuation byte. */
  lemma Split6(n: nat)
    ensures n == (n / 64) * 64 + n % 64 && 0 <= n % 64 < 64
    ensures (n / 64) / 64 == n / 4096 && (n / 4096) / 64 == n / 0x4_0000
  {
  }

  /** The value carried by one sequence of 1 to 4 bytes, before any check. */
  function Payload(chunk: seq<Byte>): int
    requires 1 <= |chunk| <= 4
  {
    var b0: int := chunk[0];
    if |chunk| == 1 then b0
    else
      var b1: int := chunk[1];
      if |chunk| == 2 then (b0 - 0xC0) * 64 + (b1 - 0x80)
      else
        var b2: int := chunk[2];
        if |chunk| == 3 then (b0 - 0xE0) * 4096 + (b1 - 0x80) * 64 + (b2 - 0x80)
        else
          var b3: int := chunk[3];
          (b0 - 0xF0) * 0x4_0000 + (b1 - 0x80) * 4096 + (b2 - 0x80) * 64 + (b3 - 0x80)
  }

  /** The character one complete sequence stands for, refusing overlong forms,
      surrogates and values past U+10FFFF. */
  function DecodeScalar(chunk: seq<Byte>): (r: Option<char>)
    requires 1 <= |chunk| <= 4
  {
    if !forall i :: 1 <= i < |chunk| ==> IsContinuation(chunk[i]) then None
    else
      var n := Payload(chunk);
      var least := if |chunk| == 1 then 0 else if |chunk| == 2 then 0x80 else if |chunk| == 3 then 0x800 else 0x1_0000;
      if least <= n && IsScalar(n) then Some(n as char) else None
  }

  /** `s.encode('utf-8')`. */
  function Encode(s: string): (r: seq<Byte>)
    ensures |r| >= |s|
  {
    if s == [] then [] else EncodeChar(s[0]) + Encode(s[1..])
  }

  /** Strict UTF-8 decoding: `None` for any malformed input. */
  function Decode(bs: seq<Byte>): Option<string>
    decreases |bs|
  {
    if bs == [] then Some([])
    else
      var n := SequenceLength(bs[0]);
      if n == 0 || |bs| < n then None
      else match DecodeScalar(bs[..n])
        case None => None
        case Some(c) =>
          match Decode(bs[n..])
          case None => None
          case Some(rest) => Some([c] + rest)
  }

  /** Decoding undoes encoding. */
  lemma {:induction false} DecodeEncode(s: string)
    ensures Decode(Encode(s)) == Some(s)
  {
    if s != [] {
      var head, tail := EncodeChar(s[0]), Encode(s[1..]);
      var bs := head + tail;
      assert bs[..|head|] == head;
      assert bs[|head|..] == tail;
      DecodeEncodeChar(s[0]);
      DecodeEncode(s[1..]);
      assert s == [s[0]] + s[1..];
    }
  }

  /** Bytes below 0x80 come only from the ASCII character with that code. */
  lemma {:induction false} EncodeAscii(s: string)
    requires forall i :: 0 <= i < |s| ==> s[i] as int < 0x80
    ensures |Encode(s)| == |s|
    ensures forall i :: 0 <= i < |s| ==> Encode(s)[i] == s[i] as int
  {
    if s != [] {
      EncodeAscii(s[1..]);
    }
  }
}
