/**
 * Percent-encoding as `encodeURIComponent` and `decodeURIComponent` perform it:
 * section 2.1 of RFC 3986 over UTF-8 (section 3 of RFC 3629).
 */
module Percent {
  import opened Wrappers
  import opened Text

  predicate IsUnreserved(c: char) {
    'A' <= c <= 'Z' || 'a' <= c <= 'z' || '0' <= c <= '9' || c in "-_.!~*'()"
  }

  function HexDigit(n: nat): char
    requires n < 16
  {
    if n < 10 then ('0' as int + n) as char else ('A' as int + (n - 10)) as char
  }

  function HexValue(c: char): Option<nat> {
    if '0' <= c <= '9' then Some(c as int - '0' as int)
    else if 'A' <= c <= 'F' then Some(c as int - 'A' as int + 10)
    else if 'a' <= c <= 'f' then Some(c as int - 'a' as int + 10)
    else None
  }

  function EncodeByte(b: Byte): (s: string)
    ensures |s| == 3
  {
    ['%', HexDigit(b / 16), HexDigit(b % 16)]
  }

  // The UTF-8 bytes of a code point, each percent-encoded.
  function EncodeCode(n: nat): string
    requires n < 0x110000
  {
    if n < 0x80 then EncodeByte(n)
    else if n < 0x800 then EncodeByte(0xC0 + n / 64) + EncodeByte(0x80 + n % 64)
    else if n < 0x10000 then
      EncodeByte(0xE0 + n / 4096) + EncodeByte(0x80 + n / 64 % 64) + EncodeByte(0x80 + n % 64)
    else
      EncodeByte(0xF0 + n / 262144) + EncodeByte(0x80 + n / 4096 % 64) + EncodeByte(0x80 + n / 64 % 64) + EncodeByte(0x80 + n % 64)
  }

  function EncodeChar(c: char): string {
    if IsUnreserved(c) then [c] else EncodeCode(c as int)
  }

  /** `encodeURIComponent`. */
  function Encode(s: string): string {
    if s == "" then "" else EncodeChar(s[0]) + Encode(s[1..])
  }

  // One `%XX` at the front.
  function ReadByte(s: string): Option<Byte> {
    if |s| < 3 || s[0] != '%' then None
    else
      match HexValue(s[1])
      case None => None
      case Some(hi) =>
        match HexValue(s[2])
        case None => None
        case Some(lo) => if hi < 16 && lo < 16 then Some(hi * 16 + lo) else None
  }

  // A continuation byte `10xxxxxx`: its six bits.
  function ReadContinuation(s: string): Option<nat> {
    match ReadByte(s)
    case Some(b) => if 0x80 <= b < 0xC0 then Some(b - 0x80) else None
    case None => None
  }

  // A code point, unless it is a surrogate, out of range, or written with more bytes than it needs.
  function Point(n: nat, least: nat, size: nat): Option<(char, nat)> {
    if n < least || 0xD800 <= n < 0xE000 || n >= 0x110000 then None else Some((n as char, size))
  }

  // The escaped character at the front, and how many characters of text wrote it.
  function ReadEscape(s: string): Option<(char, nat)> {
    match ReadByte(s)
    case None => None
    case Some(b) =>
      if b < 0x80 then Some((b as char, 3))
      else if b < 0xC0 || b >= 0xF8 then None
      else
        match ReadContinuation(s[3..])
        case None => None
        case Some(x) =>
          if b < 0xE0 then Point((b - 0xC0) * 64 + x, 0x80, 6)
          else
            match ReadContinuation(s[6..])
            case None => None
            case Some(y) =>
              if b < 0xF0 then Point((b - 0xE0) * 4096 + x * 64 + y, 0x800, 9)
              else
                match ReadContinuation(s[9..])
                case None => None
                case Some(w) => Point((b - 0xF0) * 262144 + x * 4096 + y * 64 + w, 0x10000, 12)
  }

  /** `decodeURIComponent`; None is the URIError. */
  function Decode(s: string): Option<string>
    decreases |s|
  {
    if s == "" then Some("")
    else if s[0] != '%' then
      match Decode(s[1..])
      case None => None
      case Some(t) => Some([s[0]] + t)
    else
      match ReadEscape(s)
      case None => None
      case Some((c, size)) =>
        if size > |s| || size == 0 then None
        else
          match Decode(s[size..])
          case None => None
          case Some(t) => Some([c] + t)
  }

  /* ------------------------------------------------------------ decoding undoes encoding */

  lemma ReadsByte(b: Byte, rest: string)
    ensures ReadByte(EncodeByte(b) + rest) == Some(b)
    ensures (EncodeByte(b) + rest)[3..] == rest
  {
    var s := EncodeByte(b) + rest;
    assert s[1] == HexDigit(b / 16) && s[2] == HexDigit(b % 16);
    assert HexValue(HexDigit(b / 16)) == Some(b / 16);
    assert HexValue(HexDigit(b % 16)) == Some(b % 16);
  }

  lemma ReadsContinuation(x: nat, rest: string)
    requires x < 64
    ensures ReadContinuation(EncodeByte(0x80 + x) + rest) == Some(x)
    ensures (EncodeByte(0x80 + x) + rest)[3..] == rest
  {
    ReadsByte(0x80 + x, rest);
  }

  // The six-bit digits of a code point add up to it.
  lemma Digits(n: nat)
    ensures n == n / 64 * 64 + n % 64
    ensures n == n / 4096 * 4096 + n / 64 % 64 * 64 + n % 64
    ensures n == n / 262144 * 262144 + n / 4096 % 64 * 4096 + n / 64 % 64 * 64 + n % 64
  {
    assert n / 64 / 64 == n / 4096;
    assert n / 4096 / 64 == n / 262144;
  }

  /** One escaped character is read back, whatever follows it. */
  lemma ReadsEscape(c: char, rest: string)
    ensures ReadEscape(EncodeCode(c as int) + rest) == Some((c, |EncodeCode(c as int)|))
  {
    hide EncodeByte, ReadByte, ReadContinuation;
    var n := c as int;
    Digits(n);
    if n < 0x80 {
      ReadsByte(n, rest);
    } else if n < 0x800 {
      var x := n % 64;
      var tail := EncodeByte(0x80 + x) + rest;
      assert EncodeCode(n) + rest == EncodeByte(0xC0 + n / 64) + tail;
      ReadsByte(0xC0 + n / 64, tail);
      ReadsContinuation(x, rest);
    } else if n < 0x10000 {
      var x, y := n / 64 % 64, n % 64;
      var tail2 := EncodeByte(0x80 + y) + rest;
      var tail1 := EncodeByte(0x80 + x) + tail2;
      var s := EncodeByte(0xE0 + n / 4096) + tail1;
      assert EncodeCode(n) + rest == s;
      ReadsByte(0xE0 + n / 4096, tail1);
      ReadsContinuation(x, tail2);
      ReadsContinuation(y, rest);
      assert s[6..] == s[3..][3..];
    } else {
      var x, y, w := n / 4096 % 64, n / 64 % 64, n % 64;
      var tail3 := EncodeByte(0x80 + w) + rest;
      var tail2 := EncodeByte(0x80 + y) + tail3;
      var tail1 := EncodeByte(0x80 + x) + tail2;
      var s := EncodeByte(0xF0 + n / 262144) + tail1;
      assert EncodeCode(n) + rest == s;
      ReadsByte(0xF0 + n / 262144, tail1);
      ReadsContinuation(x, tail2);
      ReadsContinuation(y, tail3);
      ReadsContinuation(w, rest);
      assert s[6..] == s[3..][3..] && s[9..] == s[6..][3..];
    }
  }

  lemma EscapeStarts(n: nat)
    requires n < 0x110000
    ensures |EncodeCode(n)| >= 3 && EncodeCode(n)[0] == '%'
  {
  }

  /** `decodeURIComponent` undoes `encodeURIComponent`, on every string. */
  lemma {:induction false} DecodeEncode(s: string)
    ensures Decode(Encode(s)) == Some(s)
  {
    if s != "" {
      hide ReadEscape, EncodeCode;
      var c, rest := s[0], Encode(s[1..]);
      DecodeEncode(s[1..]);
      assert s == [c] + s[1..];
      if IsUnreserved(c) {
        assert Encode(s)[0] == c && Encode(s)[1..] == rest;
      } else {
        var code := EncodeCode(c as int);
        EscapeStarts(c as int);
        ReadsEscape(c, rest);
        assert (code + rest)[|code|..] == rest;
        assert Encode(s)[0] == '%';
      }
    }
  }

  // What encoded text is made of.
  ghost predicate Plain(s: string) {
    forall c | c in s :: IsUnreserved(c) || c == '%'
  }

  /** Encoded text holds no separators, spaces or controls: only unreserved characters and `%`. */
  lemma {:induction false} EncodedIsPlain(s: string)
    ensures Plain(Encode(s))
  {
    if s != "" {
      EncodedIsPlain(s[1..]);
      if !IsUnreserved(s[0]) {
        EscapeIsPlain(s[0] as int);
      }
    }
  }

  lemma EscapeIsPlain(n: nat)
    requires n < 0x110000
    ensures Plain(EncodeCode(n))
  {
    hide EncodeByte;
    forall b: Byte
      ensures Plain(EncodeByte(b))
    {
      ByteIsPlain(b);
    }
  }

  lemma ByteIsPlain(b: Byte)
    ensures Plain(EncodeByte(b))
  {
  }
}
