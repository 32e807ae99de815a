/** Bytes, characters and the string operations the modelled code leans on: digits, `indexOf`, `split`, `join`, `trim` and `<`. */
module Text {
  type Byte = n: nat | n < 256

  predicate IsDigit(c: char) {
    '0' <= c <= '9'
  }

  function DecimalText(n: nat): string {
    if n < 10 then [('0' as int + n) as char] else DecimalText(n / 10) + [('0' as int + n % 10) as char]
  }

  predicate AllDigits(s: string) {
    forall c | c in s :: IsDigit(c)
  }

  function Decimal(s: string): (n: nat)
    requires AllDigits(s)
  {
    if s == "" then 0
    else
      var last := s[|s| - 1];
      assert last in s;
      10 * Decimal(s[..|s| - 1]) + (last - '0') as nat
  }

  lemma {:induction false} DecimalReadsBack(n: nat)
    ensures var t := DecimalText(n); t != "" && AllDigits(t) && Decimal(t) == n
  {
    var t := DecimalText(n);
    if n < 10 {
      assert t[..0] == "";
    } else {
      DecimalReadsBack(n / 10);
      assert t[..|t| - 1] == DecimalText(n / 10);
    }
  }

  function LowerHexDigit(n: nat): char
    requires n < 16
  {
    if n < 10 then ('0' as int + n) as char else ('a' as int + (n - 10)) as char
  }

  /** `indexOf`, or the length when there is none. */
  function IndexOf(s: string, c: char): (i: nat)
    ensures i <= |s| && (i < |s| ==> s[i] == c)
  {
    if s == "" || s[0] == c then 0 else 1 + IndexOf(s[1..], c)
  }

  lemma {:induction false} IndexOfFirst(a: string, c: char, b: string)
    requires c !in a
    ensures IndexOf(a + [c] + b, c) == |a|
  {
    if a != "" {
      IndexOfFirst(a[1..], c, b);
      assert (a + [c] + b)[1..] == a[1..] + [c] + b;
    }
  }

  lemma {:induction false} IndexOfNone(s: string, c: char)
    requires c !in s
    ensures IndexOf(s, c) == |s|
  {
    if s != "" {
      IndexOfNone(s[1..], c);
    }
  }

  // Everything before the first occurrence is free of it.
  lemma {:induction false} NotBefore(s: string, c: char)
    ensures c !in s[..IndexOf(s, c)]
  {
    if s != "" && s[0] != c {
      NotBefore(s[1..], c);
      assert s[..IndexOf(s, c)] == [s[0]] + s[1..][..IndexOf(s[1..], c)];
    }
  }

  function Split(s: string, c: char): (parts: seq<string>)
    ensures parts != []
    decreases |s|
  {
    var i := IndexOf(s, c);
    if i == |s| then [s] else [s[..i]] + Split(s[i + 1..], c)
  }

  function Join(parts: seq<string>, separator: string): string {
    if parts == [] then ""
    else if |parts| == 1 then parts[0]
    else parts[0] + separator + Join(parts[1..], separator)
  }

  /** Splitting undoes joining, for parts free of the separator. */
  lemma {:induction false} SplitJoin(parts: seq<string>, c: char)
    requires parts != [] && forall p | p in parts :: c !in p
    ensures Split(Join(parts, [c]), c) == parts
  {
    if |parts| == 1 {
      IndexOfNone(parts[0], c);
    } else {
      var rest := Join(parts[1..], [c]);
      IndexOfFirst(parts[0], c, rest);
      SplitJoin(parts[1..], c);
      var s := parts[0] + [c] + rest;
      assert s[..|parts[0]|] == parts[0] && s[|parts[0]| + 1..] == rest;
    }
  }

  lemma {:induction false} SplitPartsFree(s: string, c: char)
    ensures forall p | p in Split(s, c) :: c !in p
    decreases |s|
  {
    NotBefore(s, c);
    var i := IndexOf(s, c);
    if i == |s| {
      assert s[..i] == s;
    } else {
      SplitPartsFree(s[i + 1..], c);
    }
  }

  // What ECMAScript's `trim` removes.
  predicate IsSpace(c: char) {
    || c in "\t\n\r "
    || c == '\U{000b}' || c == '\U{000c}' || c == '\U{00a0}' || c == '\U{1680}'
    || '\U{2000}' <= c <= '\U{200a}'
    || c == '\U{2028}' || c == '\U{2029}' || c == '\U{202f}' || c == '\U{205f}' || c == '\U{3000}' || c == '\U{feff}'
  }

  function Trim(s: string): string {
    if s == "" then ""
    else if IsSpace(s[0]) then Trim(s[1..])
    else if IsSpace(s[|s| - 1]) then Trim(s[..|s| - 1])
    else s
  }

  /** These twenty-five characters, and no others. */
  lemma SpacesAre(c: char)
    ensures IsSpace(c) <==>
            c as int in {9, 10, 11, 12, 13, 32, 160, 5760, 8192, 8193, 8194, 8195, 8196, 8197, 8198, 8199, 8200, 8201, 8202,
                         8232, 8233, 8239, 8287, 12288, 65279}
  {
  }

  // Nothing to trim.
  predicate Trimmed(s: string) {
    s == "" || (!IsSpace(s[0]) && !IsSpace(s[|s| - 1]))
  }

  lemma {:induction false} TrimTrimmed(s: string)
    requires Trimmed(s)
    ensures Trim(s) == s && Trim(" " + s) == s
  {
    if s == "" {
      assert Trim(" " + s) == Trim((" " + s)[1..]);
    } else {
      assert (" " + s)[1..] == s;
      assert Trim(" " + s) == Trim(s);
    }
  }

  /** Trimming takes spaces from both ends, all of them, and nothing else. */
  lemma {:induction false} TrimTakesSpaces(s: string)
    ensures Trimmed(Trim(s))
    ensures exists front, back {:trigger front + Trim(s) + back} ::
              s == front + Trim(s) + back && (forall c | c in front + back :: IsSpace(c))
    decreases |s|
  {
    hide IsSpace;
    if s == "" || (!IsSpace(s[0]) && !IsSpace(s[|s| - 1])) {
      assert s == "" + Trim(s) + "";
    } else if IsSpace(s[0]) {
      TrimTakesSpaces(s[1..]);
      var front, back :| s[1..] == front + Trim(s) + back && (forall c | c in front + back :: IsSpace(c));
      assert s == ([s[0]] + front) + Trim(s) + back;
      assert ([s[0]] + front) + back == [s[0]] + (front + back);
    } else {
      TrimTakesSpaces(s[..|s| - 1]);
      var front, back :| s[..|s| - 1] == front + Trim(s) + back && (forall c | c in front + back :: IsSpace(c));
      assert s == front + Trim(s) + (back + [s[|s| - 1]]);
      assert front + (back + [s[|s| - 1]]) == (front + back) + [s[|s| - 1]];
    }
  }

  /* ------------------------------------------------------------ order */

  // Strings are ordered by UTF-16 code units: a character outside the basic
  // plane begins with a surrogate, and those come before U+E000.
  function UnitRank(c: char): nat {
    if '\U{E000}' <= c <= '\U{FFFF}' then c as nat + 0x11_0000 else c as nat
  }

  predicate UnitBelow(c: char, d: char) {
    UnitRank(c) < UnitRank(d)
  }

  // `a < b` on strings: by the first code unit they differ in, a prefix first.
  predicate TextBelow(a: string, b: string) {
    b != "" && (a == "" || UnitBelow(a[0], b[0]) || (a[0] == b[0] && TextBelow(a[1..], b[1..])))
  }

  // The UTF-16 code units of a character.
  function Units(c: char): seq<nat> {
    if c as nat < 0x1_0000 then [c as nat]
    else [0xD800 + (c as nat - 0x1_0000) / 0x400, 0xDC00 + (c as nat - 0x1_0000) % 0x400]
  }

  lemma UnitsAre()
    ensures Units('\U{20ac}') == [0x20AC] && Units('\U{1f600}') == [0xD83D, 0xDE00]
  {
  }

  function AllUnits(s: string): seq<nat> {
    if s == "" then [] else Units(s[0]) + AllUnits(s[1..])
  }

  // The first number two sequences differ in decides, and a prefix comes first.
  predicate UnitsBelow(a: seq<nat>, b: seq<nat>) {
    b != [] && (a == [] || a[0] < b[0] || (a[0] == b[0] && UnitsBelow(a[1..], b[1..])))
  }

  lemma CharUnits(c: char, d: char, x: seq<nat>, y: seq<nat>)
    ensures UnitsBelow(Units(c) + x, Units(d) + y) <==> UnitBelow(c, d) || (c == d && UnitsBelow(x, y))
  {
    var a, b := Units(c) + x, Units(d) + y;
    assert a[0] == Units(c)[0] && b[0] == Units(d)[0];
    if |Units(c)| == 1 && |Units(d)| == 1 {
      assert a[1..] == x && b[1..] == y;
    } else if |Units(c)| == 2 && |Units(d)| == 2 {
      assert a[1..][0] == Units(c)[1] && b[1..][0] == Units(d)[1];
      assert a[1..][1..] == x && b[1..][1..] == y;
    }
  }

  /** Texts are in the order of the code units they are made of. */
  lemma {:induction false} OrderedByUnits(a: string, b: string)
    ensures TextBelow(a, b) <==> UnitsBelow(AllUnits(a), AllUnits(b))
  {
    if a != "" && b != "" {
      CharUnits(a[0], b[0], AllUnits(a[1..]), AllUnits(b[1..]));
      OrderedByUnits(a[1..], b[1..]);
    }
  }

  lemma RanksDiffer(c: char, d: char)
    ensures UnitRank(c) == UnitRank(d) <==> c == d
  {
  }

  lemma {:induction false} TextTrichotomy(a: string, b: string)
    ensures !(TextBelow(a, b) && TextBelow(b, a))
    ensures a == b <==> !TextBelow(a, b) && !TextBelow(b, a)
  {
    if a != "" && b != "" {
      RanksDiffer(a[0], b[0]);
      TextTrichotomy(a[1..], b[1..]);
      assert a == [a[0]] + a[1..] && b == [b[0]] + b[1..];
    }
  }

  lemma {:induction false} TextTransitive(a: string, b: string, c: string)
    requires TextBelow(a, b) && TextBelow(b, c)
    ensures TextBelow(a, c)
  {
    if a != "" && a[0] == b[0] == c[0] {
      TextTransitive(a[1..], b[1..], c[1..]);
    }
  }

  // Strings that first differ at place n.
  lemma {:induction false} BelowAt(a: string, b: string, n: nat)
    requires n < |a| && n < |b| && a[..n] == b[..n] && UnitBelow(a[n], b[n])
    ensures TextBelow(a, b)
    decreases n, |a|
  {
    if n > 0 {
      assert a[0] == a[..n][0] == b[..n][0] == b[0];
      assert a[1..][..n - 1] == a[..n][1..] == b[..n][1..] == b[1..][..n - 1];
      BelowAt(a[1..], b[1..], n - 1);
    }
  }
}
