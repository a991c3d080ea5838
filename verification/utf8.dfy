/** UTF-8 as the chat uses it: `String::into_bytes` / `as_bytes` on the way
    out and `String::from_utf8_lossy` on the way in. Both belong to Rust's
    standard library; they are written out here so that the chat model can
    state what a peer reads back from the bytes another peer sends. */
module Utf8 {

  /** An octet of a packet. */
  type Byte = b: int | 0 <= b < 256

  /** U+FFFD, what the lossy decoder puts in place of an ill-formed sequence. */
  const Replacement: char := '\U{FFFD}'

  /** A continuation byte 10xxxxxx. */
  predicate IsContinuation(b: Byte) {
    0x80 <= b < 0xC0
  }

  /** The UTF-8 form of one Unicode scalar value, shortest form. */
  function EncodeChar(c: char): (bs: seq<Byte>)
    ensures 1 <= |bs| <= 4
    ensures (|bs| == 1) == (c as int < 0x80)
    ensures bs[0] < 0x80 || 0xC2 <= bs[0] <= 0xF4
    ensures forall k :: 1 <= k < |bs| ==> IsContinuation(bs[k])
  {
    var cp := c as int;
    if cp < 0x80 then [cp]
    else if cp < 0x800 then [0xC0 + cp / 64, 0x80 + cp % 64]
    else if cp < 0x1_0000 then [0xE0 + cp / 4096, 0x80 + (cp / 64) % 64, 0x80 + cp % 64]
    else [0xF0 + cp / 262144, 0x80 + (cp / 4096) % 64, 0x80 + (cp / 64) % 64, 0x80 + cp % 64]
  }

  /** `String::into_bytes`: the bytes of a string, character by character. */
  function Encode(s: string): (bs: seq<Byte>)
    ensures |s| <= |bs| <= 4 * |s|
  {
    if s == [] then [] else EncodeChar(s[0]) + Encode(s[1..])
  }

  /** The first decoded character of a non-empty byte string and the number
      of bytes it takes. A well-formed sequence gives its scalar value; an
      ill-formed one gives U+FFFD and takes its maximal well-formed prefix
      (at least one byte), which is how Rust's lossy decoder cuts the input:
      a lead byte C2..DF takes one continuation; E0 needs A0..BF next, ED
      needs 80..9F, other E_ leads 80..BF, then one more continuation; F0
      needs 90..BF next, F4 needs 80..8F, F1..F3 80..BF, then two more. */
  function DecodeFirst(bs: seq<Byte>): (r: (char, nat))
    requires bs != []
    ensures 1 <= r.1 <= |bs| && r.1 <= 4
  {
    var b0: int := bs[0];
    if b0 < 0x80 then (b0 as char, 1)
    else if 0xC2 <= b0 <= 0xDF then
      if |bs| < 2 || !IsContinuation(bs[1]) then (Replacement, 1)
      else (((b0 - 0xC0) * 64 + (bs[1] as int - 0x80)) as char, 2)
    else if 0xE0 <= b0 <= 0xEF then
      var lo := if b0 == 0xE0 then 0xA0 else 0x80;
      var hi := if b0 == 0xED then 0x9F else 0xBF;
      if |bs| < 2 || !(lo <= bs[1] <= hi) then (Replacement, 1)
      else if |bs| < 3 || !IsContinuation(bs[2]) then (Replacement, 2)
      else (((b0 - 0xE0) * 4096 + (bs[1] as int - 0x80) * 64 + (bs[2] as int - 0x80)) as char, 3)
    else if 0xF0 <= b0 <= 0xF4 then
      var lo := if b0 == 0xF0 then 0x90 else 0x80;
      var hi := if b0 == 0xF4 then 0x8F else 0xBF;
      if |bs| < 2 || !(lo <= bs[1] <= hi) then (Replacement, 1)
      else if |bs| < 3 || !IsContinuation(bs[2]) then (Replacement, 2)
      else if |bs| < 4 || !IsContinuation(bs[3]) then (Replacement, 3)
      else (((b0 - 0xF0) * 262144 + (bs[1] as int - 0x80) * 4096 + (bs[2] as int - 0x80) * 64 + (bs[3] as int - 0x80)) as char, 4)
    else (Replacement, 1)
  }

  /** `String::from_utf8_lossy`: never fails, one character per well-formed
      sequence and one U+FFFD per ill-formed chunk. */
  function DecodeLossy(bs: seq<Byte>): (s: string)
    ensures |s| <= |bs|
    ensures bs != [] ==> s != []
    decreases |bs|
  {
    if bs == [] then ""
    else
      var (c, n) := DecodeFirst(bs);
      [c] + DecodeLossy(bs[n..])
  }

  /** Decoding the encoding of one character, followed by anything, gives
      that character back and consumes exactly its bytes. */
  lemma DecodeFirstOfEncodeChar(c: char, rest: seq<Byte>)
    ensures DecodeFirst(EncodeChar(c) + rest) == (c, |EncodeChar(c)|)
  {
    var cp := c as int;
    if cp < 0x80 {
    } else if cp < 0x800 {
      DecodeTwo(c, rest);
    } else if cp < 0x1_0000 {
      DecodeThree(c, rest);
    } else {
      DecodeFour(c, rest);
    }
  }

  lemma DecodeTwo(c: char, rest: seq<Byte>)
    requires 0x80 <= c as int < 0x800
    ensures DecodeFirst(EncodeChar(c) + rest) == (c, 2)
  {
    var cp := c as int;
    var q, r := cp / 64, cp % 64;
    assert cp == q * 64 + r;
    var bs := EncodeChar(c) + rest;
    assert bs[0] == 0xC0 + q && bs[1] == 0x80 + r;
  }

  lemma DecodeThree(c: char, rest: seq<Byte>)
    requires 0x800 <= c as int < 0x1_0000
    ensures DecodeFirst(EncodeChar(c) + rest) == (c, 3)
  {
    var cp := c as int;
    var hi, mid, lo := cp / 4096, (cp / 64) % 64, cp % 64;
    assert cp / 64 == hi * 64 + mid;
    assert cp == hi * 4096 + mid * 64 + lo;
    assert cp < 0xD800 || 0xE000 <= cp;
    var bs := EncodeChar(c) + rest;
    assert bs[0] == 0xE0 + hi && bs[1] == 0x80 + mid && bs[2] == 0x80 + lo;
    assert hi == 0 ==> mid >= 0x20;
    assert hi == 0xD ==> mid < 0x20;
  }

  lemma DecodeFour(c: char, rest: seq<Byte>)
    requires 0x1_0000 <= c as int
    ensures DecodeFirst(EncodeChar(c) + rest) == (c, 4)
  {
    var cp := c as int;
    assert cp <= 0x10_FFFF;
    var top, hi, mid, lo := cp / 262144, (cp / 4096) % 64, (cp / 64) % 64, cp % 64;
    assert cp / 4096 == top * 64 + hi;
    assert cp / 64 == (cp / 4096) * 64 + mid;
    assert cp == top * 262144 + hi * 4096 + mid * 64 + lo;
    var bs := EncodeChar(c) + rest;
    assert bs[0] == 0xF0 + top && bs[1] == 0x80 + hi && bs[2] == 0x80 + mid && bs[3] == 0x80 + lo;
    assert top == 0 ==> hi >= 0x10;
    assert top == 4 ==> hi < 0x10;
  }

  /** The lossy decoder is a left inverse of the encoder: a string sent as
      bytes is read back unchanged by the receiving peer. */
  lemma {:induction false} DecodeEncode(s: string)
    ensures DecodeLossy(Encode(s)) == s
  {
    if s != [] {
      var head := EncodeChar(s[0]);
      var tail := Encode(s[1..]);
      DecodeFirstOfEncodeChar(s[0], tail);
      assert (head + tail)[|head|..] == tail;
      DecodeEncode(s[1..]);
    }
  }

  /** A byte that cannot start any UTF-8 sequence (a stray continuation,
      C0, C1 or F5..FF) is read as one U+FFFD, and decoding resumes at the
      next byte. */
  lemma DecodeStrayByte(b: Byte, rest: seq<Byte>)
    requires 0x80 <= b < 0xC2 || 0xF5 <= b
    ensures DecodeLossy([b] + rest) == [Replacement] + DecodeLossy(rest)
  {
    assert ([b] + rest)[1..] == rest;
  }

  /** Hence two strings with the same bytes are the same string. */
  lemma EncodeInjective(s: string, t: string)
    ensures Encode(s) == Encode(t) <==> s == t
  {
    if Encode(s) == Encode(t) {
      DecodeEncode(s);
      DecodeEncode(t);
    }
  }

  /** Text made of ASCII characters is encoded one byte per character. */
  lemma {:induction false} EncodeAscii(s: string)
    requires forall k :: 0 <= k < |s| ==> s[k] as int < 0x80
    ensures |Encode(s)| == |s|
    ensures forall k :: 0 <= k < |s| ==> Encode(s)[k] == s[k] as int
  {
    if s != [] {
      EncodeAscii(s[1..]);
    }
  }
}
