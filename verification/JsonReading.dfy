/**
 * A reader of JSON text, and that the canonical text is JSON for the value it was
 * made of (`packages/platform/src/audit.ts`, `canonical`; RFC 8259).
 */
module JsonReading {
  import opened Text
  import opened Canonical
  import opened CanonicalUnique

  /* ------------------------------------------------------------ the reader */

  // What was read, and the text after it.
  datatype Read<T> = NotJson | Read(value: T, rest: string)

  function HexDigitOf(c: char): (n: nat) {
    if '0' <= c <= '9' then c as int - '0' as int
    else if 'a' <= c <= 'f' then c as int - 'a' as int + 10
    else if 'A' <= c <= 'F' then c as int - 'A' as int + 10
    else 16
  }

  // Four hex digits, of no surrogate.
  function ReadCode(s: string): Read<char> {
    if |s| < 4 then NotJson
    else
      var a, b, c, d := HexDigitOf(s[0]), HexDigitOf(s[1]), HexDigitOf(s[2]), HexDigitOf(s[3]);
      var n := ((a * 16 + b) * 16 + c) * 16 + d;
      if a > 15 || b > 15 || c > 15 || d > 15 || 0xD800 <= n < 0xE000 then NotJson else Read(n as char, s[4..])
  }

  // What a backslash stands for, from the character after it (section 7 of RFC 8259).
  function ReadEscaped(s: string): (r: Read<char>)
    ensures r.Read? ==> |r.rest| < |s|
  {
    if s == "" then NotJson
    else if s[0] == 'u' then ReadCode(s[1..])
    else if s[0] == '"' || s[0] == '\\' || s[0] == '/' then Read(s[0], s[1..])
    else if s[0] == 'b' then Read('\U{0008}', s[1..])
    else if s[0] == 'f' then Read('\U{000c}', s[1..])
    else if s[0] == 'n' then Read('\n', s[1..])
    else if s[0] == 'r' then Read('\r', s[1..])
    else if s[0] == 't' then Read('\t', s[1..])
    else NotJson
  }

  // The characters of a string, up to its closing quote.
  function ReadChars(s: string): (r: Read<string>)
    ensures r.Read? ==> |r.rest| < |s|
    decreases |s|
  {
    if s == "" then NotJson
    else if s[0] == '"' then Read("", s[1..])
    else if s[0] == '\\' then
      match ReadEscaped(s[1..])
      case NotJson => NotJson
      case Read(c, rest) => (match ReadChars(rest)
                             case NotJson => NotJson
                             case Read(t, more) => Read([c] + t, more))
    else if s[0] < ' ' then NotJson
    else
      match ReadChars(s[1..])
      case NotJson => NotJson
      case Read(t, more) => Read([s[0]] + t, more)
  }

  function NumberLength(s: string): (n: nat)
    ensures n <= |s|
  {
    if s == "" || !IsNumberChar(s[0]) then 0 else 1 + NumberLength(s[1..])
  }

  function ReadValue(s: string): (r: Read<Value>)
    ensures r.Read? ==> |r.rest| < |s|
    decreases |s|, 0
  {
    if s == "" then NotJson
    else if s[0] == '"' then
      match ReadChars(s[1..])
      case NotJson => NotJson
      case Read(t, rest) => Read(VStr(t), rest)
    else if s[0] == '[' then
      if |s| > 1 && s[1] == ']' then Read(VArr([]), s[2..])
      else
        match ReadItems(s[1..])
        case NotJson => NotJson
        case Read(items, rest) => Read(VArr(items), rest)
    else if s[0] == '{' then
      if |s| > 1 && s[1] == '}' then Read(VObj(map[]), s[2..])
      else
        match ReadMembers(s[1..])
        case NotJson => NotJson
        case Read(members, rest) => Read(VObj(members), rest)
    else if "null" <= s then Read(VNull, s[4..])
    else if "true" <= s then Read(VBool(true), s[4..])
    else if "false" <= s then Read(VBool(false), s[5..])
    else if NumberLength(s) > 0 then Read(VNum(s[..NumberLength(s)]), s[NumberLength(s)..])
    else NotJson
  }

  // Values between commas, up to the bracket.
  function ReadItems(s: string): (r: Read<seq<Value>>)
    ensures r.Read? ==> |r.rest| < |s|
    decreases |s|, 1
  {
    match ReadValue(s)
    case NotJson => NotJson
    case Read(v, rest) =>
      if rest == "" then NotJson
      else if rest[0] == ']' then Read([v], rest[1..])
      else if rest[0] == ',' then
        match ReadItems(rest[1..])
        case NotJson => NotJson
        case Read(items, more) => Read([v] + items, more)
      else NotJson
  }

  // Members between commas, up to the brace; of two with one key the later counts.
  function ReadMembers(s: string): (r: Read<map<string, Value>>)
    ensures r.Read? ==> |r.rest| < |s|
    decreases |s|, 1
  {
    if s == "" || s[0] != '"' then NotJson
    else
      match ReadChars(s[1..])
      case NotJson => NotJson
      case Read(key, rest) =>
        if rest == "" || rest[0] != ':' then NotJson
        else
          match ReadValue(rest[1..])
          case NotJson => NotJson
          case Read(v, more) =>
            if more == "" then NotJson
            else if more[0] == '}' then Read(map[key := v], more[1..])
            else if more[0] == ',' then
              match ReadMembers(more[1..])
              case NotJson => NotJson
              case Read(members, end) => Read(if key in members then members else members[key := v], end)
            else NotJson
  }

  /* ------------------------------------------------------------ reading what was printed */

  lemma ReadsEscape(c: char, rest: string)
    ensures var s := Escape(c) + rest;
            if s[0] == '\\' then ReadEscaped(s[1..]) == Read(c, rest) else s[0] == c && c != '"' && c >= ' ' && s[1..] == rest
  {
    var e := Escape(c);
    var s := e + rest;
    assert s[0] == e[0] && s[|e|..] == rest;
    if e[0] == '\\' {
      assert s[1] == e[1] && s[1..][1..] == s[2..];
      if e[1] == 'u' {
        assert s[2..6] == e[2..6] && s[2..][4..] == rest;
        assert s[2..][0] == e[2] && s[2..][1] == e[3] && s[2..][2] == e[4] && s[2..][3] == e[5];
        HexPair(c as int);
      }
    }
  }

  lemma HexPair(n: nat)
    requires n < 32
    ensures HexDigitOf(LowerHexDigit(n / 16)) * 16 + HexDigitOf(LowerHexDigit(n % 16)) == n
    ensures HexDigitOf(LowerHexDigit(n / 16)) < 16 && HexDigitOf(LowerHexDigit(n % 16)) < 16 && HexDigitOf('0') == 0
  {
  }

  lemma {:induction false} ReadsChars(s: string, rest: string)
    ensures ReadChars(QuoteRest(s) + rest) == Read(s, rest)
  {
    hide Escape, ReadEscaped;
    var all := QuoteRest(s) + rest;
    if s == "" {
      assert all[1..] == rest;
    } else {
      var after := QuoteRest(s[1..]) + rest;
      assert all == Escape(s[0]) + after;
      ReadsEscape(s[0], after);
      ReadsChars(s[1..], rest);
      assert [s[0]] + s[1..] == s;
    }
  }

  lemma ReadsQuoted(s: string, rest: string)
    ensures var all := Quote(s) + rest; all[0] == '"' && ReadChars(all[1..]) == Read(s, rest)
  {
    hide QuoteRest;
    assert (Quote(s) + rest)[1..] == QuoteRest(s) + rest;
    ReadsChars(s, rest);
  }

  lemma {:induction false} NumberEnds(literal: string, rest: string)
    requires (forall c | c in literal :: IsNumberChar(c)) && Stops(rest)
    ensures NumberLength(literal + rest) == |literal|
  {
    if literal != "" {
      assert (literal + rest)[1..] == literal[1..] + rest;
      assert literal[0] in literal;
      NumberEnds(literal[1..], rest);
    }
  }

  lemma ReadsNumber(literal: string, rest: string)
    requires IsNumberLiteral(literal) && Stops(rest)
    ensures ReadValue(literal + rest) == Read(VNum(literal), rest)
  {
    hide ReadItems, ReadMembers, ReadChars;
    NumberEnds(literal, rest);
    var s := literal + rest;
    assert s[0] == literal[0] && s[..|literal|] == literal && s[|literal|..] == rest;
    assert literal[0] in literal && "null"[0] == 'n' && "true"[0] == 't' && "false"[0] == 'f';
  }

  lemma ReadsWord(v: Ordered, rest: string)
    requires v.ONull? || v.OBool?
    ensures ReadValue(Print(v) + rest) == Read(OrderedMeaning(v), rest)
  {
    hide ReadItems, ReadMembers, ReadChars, NumberLength;
    var word := Print(v);
    var s := word + rest;
    assert s[0] == word[0] && s[..|word|] == word && s[|word|..] == rest;
    assert word <= s && "null"[0] == 'n' && "true"[0] == 't' && "false"[0] == 'f';
  }

  lemma ReadsString(s: string, rest: string)
    ensures ReadValue(Print(OStr(s)) + rest) == Read(VStr(s), rest)
  {
    hide ReadItems, ReadMembers, ReadChars, NumberLength, QuoteRest;
    ReadsQuoted(s, rest);
    assert Print(OStr(s)) == Quote(s) && Quote(s) + rest != "";
  }

  /** A printed value is read back as what it means, whatever follows that stops it. */
  lemma {:induction false} ReadsPrinted(before: KeyOrder, v: Ordered, rest: string)
    requires StrictTotal(before) && InOrder(before, v) && Printable(v) && Stops(rest)
    ensures ReadValue(Print(v) + rest) == Read(OrderedMeaning(v), rest)
    decreases v
  {
    hide StrictTotal, Quote, ReadChars;
    match v {
      case ONull => ReadsWord(v, rest);
      case OBool(_) => ReadsWord(v, rest);
      case ONum(literal) => ReadsNumber(literal, rest);
      case OStr(s) => ReadsString(s, rest);
      case OArr(items) => ReadsArray(before, items, rest);
      case OObj(members) => ReadsObject(before, members, rest);
    }
  }

  lemma {:induction false} ReadsArray(before: KeyOrder, items: OrderedList, rest: string)
    requires StrictTotal(before) && ItemsInOrder(before, items) && ItemsPrintable(items) && Stops(rest)
    ensures ReadValue(Print(OArr(items)) + rest) == Read(VArr(OrderedItemMeanings(items)), rest)
    decreases items, 1
  {
    hide StrictTotal, Print, PrintTail, ReadItems, ReadMembers, ReadChars, NumberLength;
    PrintStarts(OArr(items));
    ArrayText(items, rest);
    if items.OCons? {
      PrintStarts(items.head);
    }
    ArrayReadBy(Print(OArr(items)) + rest, ArrayBody(items) + rest);
    match items {
      case ONil =>
      case OCons(head, tail) =>
        ReadsItems(before, head, tail, rest);
    }
  }

  // How an array is read, given the text after its bracket.
  lemma ArrayReadBy(s: string, body: string)
    requires s != "" && s[0] == '[' && s[1..] == body && body != ""
    ensures ReadValue(s) ==
            if body[0] == ']' then Read(VArr([]), body[1..])
            else match ReadItems(body) case NotJson => NotJson case Read(items, rest) => Read(VArr(items), rest)
  {
    hide ReadItems, ReadMembers, ReadChars, NumberLength;
    assert s[1] == body[0] && s[2..] == body[1..];
  }

  lemma ObjectReadBy(s: string, body: string)
    requires s != "" && s[0] == '{' && s[1..] == body && body != ""
    ensures ReadValue(s) ==
            if body[0] == '}' then Read(VObj(map[]), body[1..])
            else match ReadMembers(body) case NotJson => NotJson case Read(members, rest) => Read(VObj(members), rest)
  {
    hide ReadItems, ReadMembers, ReadChars, NumberLength;
    assert s[1] == body[0] && s[2..] == body[1..];
  }

  lemma {:induction false} ReadsItems(before: KeyOrder, head: Ordered, tail: OrderedList, rest: string)
    requires StrictTotal(before) && InOrder(before, head) && ItemsInOrder(before, tail)
    requires Printable(head) && ItemsPrintable(tail) && Stops(rest)
    ensures ReadItems(Print(head) + (PrintTail(tail) + rest)) == Read([OrderedMeaning(head)] + OrderedItemMeanings(tail), rest)
    decreases OCons(head, tail), 0
  {
    hide StrictTotal, Print, ReadValue, InOrder, OrderedMeaning;
    TailText(tail, rest);
    ReadsPrinted(before, head, PrintTail(tail) + rest);
    match tail {
      case ONil => assert [OrderedMeaning(head)] + [] == [OrderedMeaning(head)];
      case OCons(next, more) => ReadsItems(before, next, more, rest);
    }
  }

  lemma {:induction false} ReadsObject(before: KeyOrder, members: OrderedMembers, rest: string)
    requires StrictTotal(before) && MembersInOrder(before, members) && MembersPrintable(members) && Stops(rest)
    ensures ReadValue(Print(OObj(members)) + rest) == Read(VObj(OrderedMemberMeanings(members)), rest)
    decreases members, 1
  {
    hide StrictTotal, Print, ReadValue, ReadMembers, MemberText, PairsTail, PrintMembers;
    PrintStarts(OObj(members));
    ObjectText(members, rest);
    ObjectIsNotEmpty(members);
    ObjectReadBy(Print(OObj(members)) + rest, ObjectBody(members) + rest);
    match members {
      case OEmpty =>
      case OMember(key, value, more) => ReadsMembers(before, key, value, more, rest);
    }
  }

  lemma ObjectIsNotEmpty(members: OrderedMembers)
    ensures ObjectBody(members) != ""
  {
    match members {
      case OEmpty =>
      case OMember(key, value, rest) => MemberTextStarts(key, value);
    }
  }

  lemma MemberTextIs(key: string, value: Ordered, after: string)
    ensures MemberText(key, value) + after == Quote(key) + (":" + (Print(value) + after))
    ensures (":" + (Print(value) + after))[1..] == Print(value) + after
  {
    hide Quote, Print;
  }

  lemma {:induction false} ReadsMembers(before: KeyOrder, key: string, value: Ordered, more: OrderedMembers, rest: string)
    requires StrictTotal(before) && MembersInOrder(before, OMember(key, value, more))
    requires Printable(value) && MembersPrintable(more) && Stops(rest)
    ensures ReadMembers(MemberText(key, value) + (PairsTail(PrintMembers(more)) + rest)) ==
            Read(OrderedMemberMeanings(OMember(key, value, more)), rest)
    decreases OMember(key, value, more), 0
  {
    hide StrictTotal, Print, PairText, MemberText, Quote, ReadChars, ReadValue, InOrder, OrderedMeaning;
    var after := PairsTail(PrintMembers(more)) + rest;
    MembersTailText(more, rest);
    MemberTextIs(key, value, after);
    ReadsQuoted(key, ":" + (Print(value) + after));
    ReadsPrinted(before, value, after);
    match more {
      case OEmpty =>
      case OMember(k, v, end) =>
        ReadsMembers(before, k, v, end, rest);
        AfterIsAbsent(before, key, more, key);
    }
  }

  /** The number texts the laws are about: begun by a digit or a minus, of the characters numbers are printed with. */
  lemma NumberTextsAre(s: string)
    ensures IsNumberLiteral(s) <==> s != "" && s[0] in "-0123456789" && forall c | c in s :: c in "-+.e0123456789"
  {
  }

  /** The canonical text is JSON for the very value it was made of, and for no more than that. */
  lemma CanonicalTextIsJson(before: KeyOrder, v: Json)
    requires StrictTotal(before) && WellFormed(v)
    ensures ReadValue(CanonicalText(before, v)) == Read(Meaning(v), "")
  {
    hide StrictTotal, CanonicalText, Order, Print, Meaning, OrderedMeaning, ReadValue;
    CanonicalPrintsOrder(before, v);
    OrderKeepsMeaning(before, v);
    OrderIsPrintable(before, v);
    ReadsPrinted(before, Order(before, v), "");
    assert Print(Order(before, v)) + "" == Print(Order(before, v));
  }
}
