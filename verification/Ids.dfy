/**
 * UUIDv7 identifiers (`packages/platform/src/ids.ts`; section 5.7 of RFC 9562):
 * 48 bits of time, then version, variant and random bits.
 */
module Ids {
  import opened Wrappers
  import opened Text

  // `Number((ms >> shift) & 0xff)` on a BigInt, with divisor 2^shift.
  function TimeByte(ms: int, divisor: nat): Byte
    requires divisor > 0
  {
    ms / divisor % 256
  }

  // Byte i of an identifier: time over the random bytes, then the fixed bits.
  function IdByte(ms: int, random: seq<Byte>, i: nat): Byte
    requires |random| == 16 && i < 16
  {
    if i == 0 then TimeByte(ms, 0x100_0000_0000)
    else if i == 1 then TimeByte(ms, 0x1_0000_0000)
    else if i == 2 then TimeByte(ms, 0x100_0000)
    else if i == 3 then TimeByte(ms, 0x1_0000)
    else if i == 4 then TimeByte(ms, 0x100)
    else if i == 5 then TimeByte(ms, 1)
    else if i == 6 then random[6] % 16 + 0x70
    else if i == 8 then random[8] % 64 + 0x80
    else random[i]
  }

  function IdBytes(ms: int, random: seq<Byte>): (bytes: seq<Byte>)
    requires |random| == 16
    ensures |bytes| == 16
  {
    seq(16, i requires 0 <= i < 16 => IdByte(ms, random, i))
  }

  function Hex(bytes: seq<Byte>): (s: string)
    ensures |s| == 2 * |bytes|
  {
    if bytes == [] then "" else Hex(bytes[..|bytes| - 1]) + [LowerHexDigit(bytes[|bytes| - 1] / 16), LowerHexDigit(bytes[|bytes| - 1] % 16)]
  }

  // `hex.slice(…)` five times, between dashes.
  function Dashed(hex: string): (id: string)
    requires |hex| == 32
    ensures |id| == 36
  {
    hex[..8] + "-" + hex[8..12] + "-" + hex[12..16] + "-" + hex[16..20] + "-" + hex[20..]
  }

  // The identifier for an instant and sixteen random bytes.
  function IdOf(ms: int, random: seq<Byte>): (id: string)
    requires |random| == 16
  {
    Dashed(Hex(IdBytes(ms, random)))
  }

  /** `newId`: the random buffer, overwritten in place. */
  method NewId(ms: int, random: seq<Byte>) returns (id: string)
    requires |random| == 16
    ensures id == IdOf(ms, random)
  {
    hide Hex, TimeByte, Dashed;
    var bytes := new Byte[16](i requires 0 <= i < 16 => random[i]);
    bytes[0] := TimeByte(ms, 0x100_0000_0000);
    bytes[1] := TimeByte(ms, 0x1_0000_0000);
    bytes[2] := TimeByte(ms, 0x100_0000);
    bytes[3] := TimeByte(ms, 0x1_0000);
    bytes[4] := TimeByte(ms, 0x100);
    bytes[5] := TimeByte(ms, 1);
    bytes[6] := bytes[6] % 16 + 0x70;
    bytes[8] := bytes[8] % 64 + 0x80;
    assert forall i | 0 <= i < 16 :: bytes[i] == IdByte(ms, random, i);
    assert bytes[..] == IdBytes(ms, random);
    var hex := Hex(bytes[..]);
    id := Dashed(hex);
  }

  /* ------------------------------------------------------------ reading */

  function HexDigitValue(c: char): Option<nat> {
    if '0' <= c <= '9' then Some(c as int - '0' as int)
    else if 'a' <= c <= 'f' then Some(c as int - 'a' as int + 10)
    else if 'A' <= c <= 'F' then Some(c as int - 'A' as int + 10)
    else None
  }

  // `Number.parseInt(s, 16)` on text that is all hex digits.
  function ParseHex(s: string): Option<nat> {
    if s == "" then Some(0)
    else
      match ParseHex(s[..|s| - 1])
      case None => None
      case Some(n) =>
        match HexDigitValue(s[|s| - 1])
        case None => None
        case Some(d) => Some(n * 16 + d)
  }

  function WithoutDashes(s: string): string {
    if s == "" then "" else (if s[0] == '-' then "" else [s[0]]) + WithoutDashes(s[1..])
  }

  /** `idTimestamp`. */
  function IdTimestamp(id: string): Option<nat> {
    var hex := WithoutDashes(id);
    if |hex| == 0 then None else ParseHex(if |hex| < 12 then hex else hex[..12])
  }

  /** `isUuid`. */
  predicate IsUuid(s: string) {
    && |s| == 36
    && s[8] == '-' && s[13] == '-' && s[18] == '-' && s[23] == '-'
    && '1' <= s[14] <= '8'
    && s[19] in "89abAB"
    && (forall i | 0 <= i < 36 && i !in {8, 13, 18, 23} :: HexDigitValue(s[i]).Some?)
  }

  /* ------------------------------------------------------------ the layout */

  lemma {:induction false} HexAt(bytes: seq<Byte>, i: nat)
    requires i < |bytes|
    ensures Hex(bytes)[2 * i] == LowerHexDigit(bytes[i] / 16) && Hex(bytes)[2 * i + 1] == LowerHexDigit(bytes[i] % 16)
  {
    var n := |bytes| - 1;
    if i < n {
      HexAt(bytes[..n], i);
    }
  }

  predicate IsLowerHex(c: char) {
    '0' <= c <= '9' || 'a' <= c <= 'f'
  }

  lemma {:induction false} HexIsHex(bytes: seq<Byte>)
    ensures forall c | c in Hex(bytes) :: IsLowerHex(c)
  {
    if bytes != [] {
      HexIsHex(bytes[..|bytes| - 1]);
    }
  }

  /** Every identifier has the shape of a UUID, whatever the random bytes. */
  lemma NewIdIsUuid(ms: int, random: seq<Byte>)
    requires |random| == 16
    ensures IsUuid(IdOf(ms, random))
  {
    hide Hex;
    var bytes := IdBytes(ms, random);
    var hex := Hex(bytes);
    var id := Dashed(hex);
    HexIsHex(bytes);
    HexAt(bytes, 6);
    HexAt(bytes, 8);
    assert bytes[6] / 16 == 7;
    assert 8 <= bytes[8] / 16 < 12;
    assert id[14] == hex[12] == '7';
    assert id[19] == hex[16] == LowerHexDigit(bytes[8] / 16);
    forall i | 0 <= i < 36 && i !in {8, 13, 18, 23}
      ensures HexDigitValue(id[i]).Some?
    {
      assert id[i] in hex;
    }
  }

  lemma {:induction false} WithoutDashesConcat(a: string, b: string)
    ensures WithoutDashes(a + b) == WithoutDashes(a) + WithoutDashes(b)
  {
    if a == "" {
      assert a + b == b;
    } else {
      WithoutDashesConcat(a[1..], b);
      assert (a + b)[1..] == a[1..] + b;
      var head := if a[0] == '-' then "" else [a[0]];
      assert WithoutDashes(a + b) == head + WithoutDashes(a[1..] + b);
      assert head + (WithoutDashes(a[1..]) + WithoutDashes(b)) == head + WithoutDashes(a[1..]) + WithoutDashes(b);
    }
  }

  lemma {:induction false} NoDashesToDrop(s: string)
    requires '-' !in s
    ensures WithoutDashes(s) == s
  {
    if s != "" {
      NoDashesToDrop(s[1..]);
    }
  }

  lemma DashesDrop(hex: string)
    requires |hex| == 32 && '-' !in hex
    ensures WithoutDashes(Dashed(hex)) == hex
  {
    hide WithoutDashes;
    var a, b, c, d, e := hex[..8], hex[8..12], hex[12..16], hex[16..20], hex[20..];
    NoDashesToDrop(a);
    NoDashesToDrop(b);
    NoDashesToDrop(c);
    NoDashesToDrop(d);
    NoDashesToDrop(e);
    DashThen(a, b);
    DashThen(a + "-" + b, c);
    DashThen(a + "-" + b + "-" + c, d);
    DashThen(a + "-" + b + "-" + c + "-" + d, e);
    assert a + b + c + d + e == hex;
  }

  lemma DashThen(a: string, b: string)
    ensures WithoutDashes(a + "-" + b) == WithoutDashes(a) + WithoutDashes(b)
  {
    WithoutDashesConcat(a, "-" + b);
    assert a + ("-" + b) == a + "-" + b;
    assert ("-" + b)[1..] == b;
  }

  // The number big-endian bytes write.
  function Number(bytes: seq<Byte>): nat {
    if bytes == [] then 0 else Number(bytes[..|bytes| - 1]) * 256 + bytes[|bytes| - 1]
  }

  lemma {:induction false} ParseHexReadsNumber(bytes: seq<Byte>)
    ensures ParseHex(Hex(bytes)) == Some(Number(bytes))
  {
    if bytes != [] {
      var n := |bytes| - 1;
      ParseHexReadsNumber(bytes[..n]);
      var s := Hex(bytes);
      assert s[..|s| - 1][..|s| - 2] == Hex(bytes[..n]);
      assert s[..|s| - 1][|s| - 2] == LowerHexDigit(bytes[n] / 16);
      assert HexDigitValue(LowerHexDigit(bytes[n] / 16)) == Some(bytes[n] / 16);
      assert HexDigitValue(LowerHexDigit(bytes[n] % 16)) == Some(bytes[n] % 16);
    }
  }

  lemma {:induction false} HexPrefix(bytes: seq<Byte>, n: nat)
    requires n <= |bytes|
    ensures Hex(bytes)[..2 * n] == Hex(bytes[..n])
  {
    if n < |bytes| {
      var m := |bytes| - 1;
      HexPrefix(bytes[..m], n);
      assert bytes[..m][..n] == bytes[..n];
    } else {
      assert bytes[..n] == bytes;
    }
  }

  // Six base-256 digits of an integer make up the integer modulo 2^48.
  lemma SixBytes(ms: int)
    ensures ((((TimeByte(ms, 0x100_0000_0000) * 256 + TimeByte(ms, 0x1_0000_0000)) * 256 + TimeByte(ms, 0x100_0000)) * 256
              + TimeByte(ms, 0x1_0000)) * 256 + TimeByte(ms, 0x100)) * 256 + TimeByte(ms, 1) == ms % 0x1_0000_0000_0000
  {
    var a, b, c, d, e := ms / 0x100, ms / 0x1_0000, ms / 0x100_0000, ms / 0x1_0000_0000, ms / 0x100_0000_0000;
    assert a / 256 == b && b / 256 == c && c / 256 == d && d / 256 == e && e / 256 == ms / 0x1_0000_0000_0000;
    assert ms / 1 == ms;
  }

  lemma TimeNumber(ms: int, random: seq<Byte>)
    requires |random| == 16
    ensures Number(IdBytes(ms, random)[..6]) == ms % 0x1_0000_0000_0000
  {
    var b := IdBytes(ms, random)[..6];
    SixBytes(ms);
    assert b[..5][..4] == b[..4] && b[..4][..3] == b[..3] && b[..3][..2] == b[..2] && b[..2][..1] == b[..1] && b[..1][..0] == [];
    assert Number(b[..1]) == b[0] as int;
    assert Number(b[..2]) == b[0] as int * 256 + b[1] as int;
    assert Number(b[..3]) == Number(b[..2]) * 256 + b[2] as int;
    assert Number(b[..4]) == Number(b[..3]) * 256 + b[3] as int;
    assert Number(b[..5]) == Number(b[..4]) * 256 + b[4] as int;
  }

  /** The time read back is the time written, modulo 2^48: exact for every instant a UUIDv7 can hold. */
  lemma TimestampReadsBack(ms: int, random: seq<Byte>)
    requires |random| == 16
    ensures IdTimestamp(IdOf(ms, random)) == Some(ms % 0x1_0000_0000_0000)
    ensures IdTimestamp(IdOf(ms, random)) == Some(ms) <==> 0 <= ms < 0x1_0000_0000_0000
  {
    hide Hex, Number, IdBytes, ParseHex, Dashed, WithoutDashes;
    var bytes := IdBytes(ms, random);
    HexIsHex(bytes);
    DashesDrop(Hex(bytes));
    HexPrefix(bytes, 6);
    ParseHexReadsNumber(bytes[..6]);
    TimeNumber(ms, random);
  }

  /* ------------------------------------------------------------ order */

  // The first hex digit in which a smaller number differs is smaller.
  lemma {:induction false} SmallerNumberSmallerDigit(a: seq<Byte>, b: seq<Byte>) returns (i: nat)
    requires |a| == |b| && Number(a) < Number(b)
    ensures i < 2 * |a| && Hex(a)[..i] == Hex(b)[..i] && UnitBelow(Hex(a)[i], Hex(b)[i])
  {
    var n := |a| - 1;
    var x, y := Hex(a), Hex(b);
    if Number(a[..n]) < Number(b[..n]) {
      i := SmallerNumberSmallerDigit(a[..n], b[..n]);
      assert x[..i] == Hex(a[..n])[..i] && y[..i] == Hex(b[..n])[..i];
    } else {
      SameNumberSameBytes(a[..n], b[..n]);
      i := if a[n] / 16 < b[n] / 16 then 2 * n else 2 * n + 1;
      assert x[..i] == y[..i];
    }
  }

  lemma {:induction false} SameNumberSameBytes(a: seq<Byte>, b: seq<Byte>)
    requires |a| == |b| && Number(a) == Number(b)
    ensures a == b
  {
    if a != [] {
      var n := |a| - 1;
      SameNumberSameBytes(a[..n], b[..n]);
      assert a == a[..n] + [a[n]] && b == b[..n] + [b[n]];
    }
  }

  lemma DashedKeepsOrder(x: string, y: string, i: nat)
    requires |x| == |y| == 32 && i < 12 && x[..i] == y[..i] && UnitBelow(x[i], y[i])
    ensures TextBelow(Dashed(x), Dashed(y))
  {
    var j := if i < 8 then i else i + 1;
    var a, b := Dashed(x), Dashed(y);
    forall k | 0 <= k < j
      ensures a[k] == b[k]
    {
      if k < 8 {
        assert a[k] == x[k] && b[k] == y[k] && x[..i][k] == y[..i][k];
      } else if k > 8 {
        assert a[k] == x[k - 1] && b[k] == y[k - 1] && x[..i][k - 1] == y[..i][k - 1];
      }
    }
    assert a[..j] == b[..j];
    assert a[j] == x[i] && b[j] == y[i];
    BelowAt(a, b, j);
  }

  /** A later instant gives a later string, whatever the random bytes: identifiers sort by time. */
  lemma LaterIdsSortLater(t1: nat, t2: nat, r1: seq<Byte>, r2: seq<Byte>)
    requires |r1| == |r2| == 16 && t1 < t2 < 0x1_0000_0000_0000
    ensures TextBelow(IdOf(t1, r1), IdOf(t2, r2))
  {
    hide Hex, Number, IdBytes, Dashed;
    var a, b := IdBytes(t1, r1), IdBytes(t2, r2);
    TimeNumber(t1, r1);
    TimeNumber(t2, r2);
    var i := SmallerNumberSmallerDigit(a[..6], b[..6]);
    HexPrefix(a, 6);
    HexPrefix(b, 6);
    var x, y := Hex(a), Hex(b);
    assert x[..i] == x[..12][..i] && y[..i] == y[..12][..i];
    assert x[i] == x[..12][i] && y[i] == y[..12][i];
    DashedKeepsOrder(x, y, i);
  }

  /* ------------------------------------------------------------ randomness and shape */

  lemma {:induction false} HexIsUnique(a: seq<Byte>, b: seq<Byte>)
    requires |a| == |b| && Hex(a) == Hex(b)
    ensures a == b
  {
    forall i | 0 <= i < |a|
      ensures a[i] == b[i]
    {
      HexAt(a, i);
      HexAt(b, i);
      DigitsTellBytes(a[i], b[i]);
    }
  }

  lemma DigitsTellBytes(x: Byte, y: Byte)
    requires LowerHexDigit(x / 16) == LowerHexDigit(y / 16) && LowerHexDigit(x % 16) == LowerHexDigit(y % 16)
    ensures x == y
  {
  }

  /** At one instant two identifiers are the same exactly where their 74 random bits are: none of them is dropped. */
  lemma RandomBitsTellApart(ms: int, r1: seq<Byte>, r2: seq<Byte>)
    requires |r1| == |r2| == 16
    ensures IdOf(ms, r1) == IdOf(ms, r2) <==>
            && r1[6] % 16 == r2[6] % 16 && r1[7] == r2[7] && r1[8] % 64 == r2[8] % 64
            && forall i | 9 <= i < 16 :: r1[i] == r2[i]
  {
    hide Hex, Dashed, TimeByte;
    var a, b := IdBytes(ms, r1), IdBytes(ms, r2);
    if IdOf(ms, r1) == IdOf(ms, r2) {
      DashedIsUnique(Hex(a), Hex(b));
      HexIsUnique(a, b);
      assert a[6] == b[6] && a[7] == b[7] && a[8] == b[8] && a[9] == b[9] && a[10] == b[10] && a[11] == b[11];
      assert a[12] == b[12] && a[13] == b[13] && a[14] == b[14] && a[15] == b[15];
    }
    if r1[6] % 16 == r2[6] % 16 && r1[7] == r2[7] && r1[8] % 64 == r2[8] % 64 && forall i | 9 <= i < 16 :: r1[i] == r2[i] {
      assert a == b;
    }
  }

  lemma DashedIsUnique(x: string, y: string)
    requires |x| == |y| == 32 && Dashed(x) == Dashed(y)
    ensures x == y
  {
    var a, b := Dashed(x), Dashed(y);
    forall k | 0 <= k < 32
      ensures x[k] == y[k]
    {
      var j := if k < 8 then k else if k < 12 then k + 1 else if k < 16 then k + 2 else if k < 20 then k + 3 else k + 4;
      assert a[j] == x[k] && b[j] == y[k];
    }
  }

  /** Hex digits are read in either case. */
  lemma HexDigitsRead(n: nat)
    requires n < 16
    ensures HexDigitValue("0123456789abcdef"[n]) == HexDigitValue("0123456789ABCDEF"[n]) == Some(n)
  {
  }

  predicate HexDigits(s: string) {
    forall i | 0 <= i < |s| :: '0' <= s[i] <= '9' || 'a' <= s[i] <= 'f' || 'A' <= s[i] <= 'F'
  }

  // Five groups of hex digits, the third beginning with a version and the fourth with the variant.
  predicate AreGroups(a: string, b: string, c: string, d: string, e: string) {
    && |a| == 8 && |b| == 4 && |c| == 4 && |d| == 4 && |e| == 12
    && HexDigits(a) && HexDigits(b) && HexDigits(c) && HexDigits(d) && HexDigits(e)
    && c[0] in "12345678" && d[0] in "89abAB"
  }

  function Grouped(a: string, b: string, c: string, d: string, e: string): string {
    a + "-" + b + "-" + c + "-" + d + "-" + e
  }

  lemma GroupsArePlaced(a: string, b: string, c: string, d: string, e: string)
    requires |a| == 8 && |b| == 4 && |c| == 4 && |d| == 4 && |e| == 12
    ensures var s := Grouped(a, b, c, d, e);
            && |s| == 36 && s[8] == s[13] == s[18] == s[23] == '-'
            && s[..8] == a && s[9..13] == b && s[14..18] == c && s[19..23] == d && s[24..] == e
  {
  }

  lemma GroupsMakeUuid(a: string, b: string, c: string, d: string, e: string)
    requires AreGroups(a, b, c, d, e)
    ensures IsUuid(Grouped(a, b, c, d, e))
  {
    var s := Grouped(a, b, c, d, e);
    hide Grouped;
    GroupsArePlaced(a, b, c, d, e);
    forall i | 0 <= i < 36 && i !in {8, 13, 18, 23}
      ensures HexDigitValue(s[i]).Some?
    {
      if i < 8 {
        assert s[i] == a[i];
      } else if i < 13 {
        assert s[i] == b[i - 9];
      } else if i < 18 {
        assert s[i] == c[i - 14];
      } else if i < 23 {
        assert s[i] == d[i - 19];
      } else {
        assert s[i] == e[i - 24];
      }
    }
    assert s[14] == c[0] && s[19] == d[0];
  }

  lemma UuidHasGroups(s: string) returns (a: string, b: string, c: string, d: string, e: string)
    requires IsUuid(s)
    ensures AreGroups(a, b, c, d, e) && s == Grouped(a, b, c, d, e)
  {
    a, b, c, d, e := s[..8], s[9..13], s[14..18], s[19..23], s[24..];
  }

  /** A text is a UUID exactly where it is five groups of hex digits, with a version from 1 to 8 and the variant of RFC 9562. */
  lemma IsUuidIff(s: string)
    ensures IsUuid(s) <==> exists a, b, c, d, e :: AreGroups(a, b, c, d, e) && s == Grouped(a, b, c, d, e)
  {
    hide IsUuid, AreGroups, Grouped;
    if IsUuid(s) {
      var a, b, c, d, e := UuidHasGroups(s);
      assert AreGroups(a, b, c, d, e) && s == Grouped(a, b, c, d, e);
    }
    if a, b, c, d, e :| AreGroups(a, b, c, d, e) && s == Grouped(a, b, c, d, e) {
      GroupsMakeUuid(a, b, c, d, e);
    }
  }
}
