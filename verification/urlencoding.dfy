/** Percent-encoding of a room name, as the `urlencoding` crate's `encode`
    does it: the UTF-8 bytes of the name, each unreserved byte (ASCII
    letters, digits and `-._~`) kept as it is, every other byte written as
    `%` and two upper-case hexadecimal digits. */
module UrlEncoding {
  import Utf8

  const HexDigits: string := "0123456789ABCDEF"

  /** Bytes that stand for themselves in an encoded name. */
  predicate Unreserved(b: Utf8.Byte) {
    || 'A' as int <= b <= 'Z' as int
    || 'a' as int <= b <= 'z' as int
    || '0' as int <= b <= '9' as int
    || b == '-' as int || b == '.' as int || b == '_' as int || b == '~' as int
  }

  /** Characters that can occur in an encoded name. */
  predicate Safe(c: char) {
    c == '%' || (c as int < 256 && Unreserved(c as int))
  }

  function EscapeByte(b: Utf8.Byte): (t: string)
    ensures |t| == 1 || |t| == 3
    ensures forall k :: 0 <= k < |t| ==> Safe(t[k])
  {
    if Unreserved(b) then [b as char]
    else ['%', HexDigits[b / 16], HexDigits[b % 16]]
  }

  function EscapeBytes(bs: seq<Utf8.Byte>): (t: string)
    ensures forall k :: 0 <= k < |t| ==> Safe(t[k])
  {
    if bs == [] then "" else EscapeByte(bs[0]) + EscapeBytes(bs[1..])
  }

  /** `urlencoding::encode`. */
  function Encode(s: string): (t: string)
    ensures forall k :: 0 <= k < |t| ==> Safe(t[k])
    ensures |s| <= |t|
  {
    EscapeBytesLength(Utf8.Encode(s));
    EscapeBytes(Utf8.Encode(s))
  }

  lemma {:induction false} EscapeBytesLength(bs: seq<Utf8.Byte>)
    ensures |bs| <= |EscapeBytes(bs)|
  {
    if bs != [] {
      EscapeBytesLength(bs[1..]);
    }
  }

  /** The value of a hexadecimal digit character (0 for anything else). */
  function HexValue(c: char): (v: nat)
    ensures v < 16
    ensures forall k :: 0 <= k < 16 && HexDigits[k] == c ==> v == k
  {
    if '0' <= c <= '9' then c as int - '0' as int
    else if 'A' <= c <= 'F' then c as int - 'A' as int + 10
    else 0
  }

  /** Reading an encoded name back into bytes: `%XY` is one byte, any other
      character is its own byte. Only used to show that `Encode` loses
      nothing. */
  function Unescape(t: string): (bs: seq<Utf8.Byte>)
    decreases |t|
  {
    if t == [] then []
    else if t[0] == '%' && |t| >= 3 then [HexValue(t[1]) * 16 + HexValue(t[2])] + Unescape(t[3..])
    else [t[0] as int % 256] + Unescape(t[1..])
  }

  lemma UnescapeEscapeByte(b: Utf8.Byte, rest: string)
    ensures Unescape(EscapeByte(b) + rest) == [b] + Unescape(rest)
  {
    var t := EscapeByte(b) + rest;
    if Unreserved(b) {
      assert t[0] == b as char && t[1..] == rest;
    } else {
      assert t[0] == '%' && t[1] == HexDigits[b / 16] && t[2] == HexDigits[b % 16];
      assert t[3..] == rest;
    }
  }

  /** Unescaping undoes escaping. */
  lemma {:induction false} UnescapeEscape(bs: seq<Utf8.Byte>)
    ensures Unescape(EscapeBytes(bs)) == bs
  {
    if bs != [] {
      UnescapeEscapeByte(bs[0], EscapeBytes(bs[1..]));
      UnescapeEscape(bs[1..]);
    }
  }

  /** Two room names share an encoding only when they are the same name. */
  lemma EncodeInjective(s: string, t: string)
    ensures Encode(s) == Encode(t) <==> s == t
  {
    if Encode(s) == Encode(t) {
      UnescapeEscape(Utf8.Encode(s));
      UnescapeEscape(Utf8.Encode(t));
      Utf8.EncodeInjective(s, t);
    }
  }

  /** A name made only of unreserved ASCII characters is its own encoding. */
  lemma {:induction false} EncodePlainName(s: string)
    requires forall k :: 0 <= k < |s| ==> s[k] as int < 0x80 && Unreserved(s[k] as int)
    ensures Encode(s) == s
  {
    if s != [] {
      EncodePlainName(s[1..]);
      assert Utf8.Encode(s) == [s[0] as int] + Utf8.Encode(s[1..]);
    }
  }
}
