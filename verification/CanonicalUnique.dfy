/**
 * The canonical text says exactly what a value means: equal texts come from
 * equal values, up to key order and undefined members, and only from those.
 */
module CanonicalUnique {
  import opened Canonical

  // Nothing follows, or what ends a value inside an array or an object.
  predicate Stops(s: string) {
    s == "" || s[0] in ",]}"
  }

  /* ------------------------------------------------------------ strings */

  lemma EscapeUnique(c: char, d: char, x: string, y: string)
    requires Escape(c) + x == Escape(d) + y
    ensures c == d && x == y
  {
    var s, t := Escape(c), Escape(d);
    assert (s + x)[0] == s[0] && (t + y)[0] == t[0];
    if |s| > 1 && |t| > 1 {
      assert (s + x)[1] == s[1] && (t + y)[1] == t[1];
      if s[1] == 'u' {
        assert (s + x)[4] == s[4] && (s + x)[5] == s[5] && (t + y)[4] == t[4] && (t + y)[5] == t[5];
      }
    }
    assert |s| == |t|;
    assert x == (s + x)[|s|..] && y == (t + y)[|t|..];
  }

  lemma EscapeIsNoQuote(c: char)
    ensures Escape(c) != "" && Escape(c)[0] != '"'
  {
  }

  /** A quoted string ends where it ends: no quoted string begins another. */
  lemma {:induction false} QuoteRestUnique(s: string, t: string, x: string, y: string)
    requires QuoteRest(s) + x == QuoteRest(t) + y
    ensures s == t && x == y
  {
    hide Escape;
    if s != "" {
      EscapeIsNoQuote(s[0]);
    }
    if t != "" {
      EscapeIsNoQuote(t[0]);
    }
    var u, v := QuoteRest(s) + x, QuoteRest(t) + y;
    assert u[0] == QuoteRest(s)[0] && v[0] == QuoteRest(t)[0];
    if s == "" {
      assert x == u[1..] && y == v[1..];
    } else {
      assert u == Escape(s[0]) + (QuoteRest(s[1..]) + x);
      assert v == Escape(t[0]) + (QuoteRest(t[1..]) + y);
      EscapeUnique(s[0], t[0], QuoteRest(s[1..]) + x, QuoteRest(t[1..]) + y);
      QuoteRestUnique(s[1..], t[1..], x, y);
      assert s == [s[0]] + s[1..] && t == [t[0]] + t[1..];
    }
  }

  lemma QuoteUnique(s: string, t: string, x: string, y: string)
    requires Quote(s) + x == Quote(t) + y
    ensures s == t && x == y
  {
    hide QuoteRest;
    assert (Quote(s) + x)[1..] == QuoteRest(s) + x;
    assert (Quote(t) + y)[1..] == QuoteRest(t) + y;
    QuoteRestUnique(s, t, x, y);
  }

  /* ------------------------------------------------------------ numbers */

  // Where a longer literal runs on, the shorter one is not followed by a stop.
  lemma LongerLiteralRunsOn(a: string, b: string, x: string, y: string)
    requires IsNumberLiteral(b) && a + x == b + y && |a| < |b|
    ensures x != "" && IsNumberChar(x[0])
  {
    assert x[0] == (a + x)[|a|] == (b + y)[|a|] == b[|a|];
    assert b[|a|] in b;
  }

  lemma LiteralUnique(a: string, b: string, x: string, y: string)
    requires IsNumberLiteral(a) && IsNumberLiteral(b) && Stops(x) && Stops(y)
    requires a + x == b + y
    ensures a == b && x == y
  {
    if |a| < |b| {
      LongerLiteralRunsOn(a, b, x, y);
    } else if |b| < |a| {
      LongerLiteralRunsOn(b, a, y, x);
    }
    assert a == (a + x)[..|a|] && b == (b + y)[..|b|] && x == (a + x)[|a|..] && y == (b + y)[|b|..];
  }

  /* ------------------------------------------------------------ values */

  ghost predicate Printable(v: Ordered) {
    match v
    case ONum(literal) => IsNumberLiteral(literal)
    case OArr(items) => ItemsPrintable(items)
    case OObj(members) => MembersPrintable(members)
    case _ => true
  }

  ghost predicate ItemsPrintable(items: OrderedList) {
    match items
    case ONil => true
    case OCons(head, tail) => Printable(head) && ItemsPrintable(tail)
  }

  ghost predicate MembersPrintable(members: OrderedMembers) {
    match members
    case OEmpty => true
    case OMember(_, value, rest) => Printable(value) && MembersPrintable(rest)
  }

  // The first character tells the kinds apart.
  ghost function FirstChar(v: Ordered): char
    requires Printable(v)
  {
    match v
    case ONull => 'n'
    case OBool(b) => if b then 't' else 'f'
    case ONum(literal) => literal[0]
    case OStr(_) => '"'
    case OArr(_) => '['
    case OObj(_) => '{'
  }

  lemma PrintStarts(v: Ordered)
    requires Printable(v)
    ensures Print(v) != "" && Print(v)[0] == FirstChar(v)
  {
  }

  /** No printed value begins another that stops properly: the text can be read in one way only. */
  lemma {:induction false} PrintUnique(a: Ordered, b: Ordered, x: string, y: string)
    requires Printable(a) && Printable(b) && Stops(x) && Stops(y)
    requires Print(a) + x == Print(b) + y
    ensures a == b && x == y
    decreases a
  {
    hide Quote;
    var s, t := Print(a) + x, Print(b) + y;
    PrintStarts(a);
    PrintStarts(b);
    assert s[0] == FirstChar(a) && t[0] == FirstChar(b);
    match a {
      case ONull =>
        assert x == s[4..] && y == t[4..];
      case OBool(v) =>
        var n := if v then 4 else 5;
        assert x == s[n..] && y == t[n..];
      case ONum(literal) =>
        LiteralUnique(literal, b.literal, x, y);
      case OStr(v) =>
        QuoteUnique(v, b.s, x, y);
      case OArr(items) =>
        ArrayUnique(items, b.items, x, y);
      case OObj(members) =>
        ObjectUnique(members, b.members, x, y);
    }
  }

  ghost function ArrayBody(items: OrderedList): string {
    match items
    case ONil => "]"
    case OCons(head, tail) => Print(head) + PrintTail(tail)
  }

  // One character, then two texts and whatever follows.
  lemma Peel(c: char, head: string, tail: string, x: string)
    ensures ([c] + head + tail + x)[0] == c
    ensures ([c] + head + tail + x)[1..] == head + tail + x == head + (tail + x)
  {
  }

  // The text of an array after its bracket.
  lemma ArrayText(items: OrderedList, x: string)
    requires ItemsPrintable(items)
    ensures (Print(OArr(items)) + x)[1..] == ArrayBody(items) + x
    ensures items == ONil ==> (ArrayBody(items) + x)[0] == ']' && (ArrayBody(items) + x)[1..] == x
    ensures items.OCons? ==>
              (ArrayBody(items) + x)[0] != ']' && ArrayBody(items) + x == Print(items.head) + (PrintTail(items.tail) + x)
  {
    match items {
      case ONil =>
      case OCons(head, tail) =>
        PrintArray(head, tail);
        hide Print, PrintTail;
        Peel('[', Print(head), PrintTail(tail), x);
        PrintStarts(head);
    }
  }

  lemma PrintArray(head: Ordered, tail: OrderedList)
    ensures Print(OArr(OCons(head, tail))) == "[" + Print(head) + PrintTail(tail)
  {
  }

  lemma {:induction false} ArrayUnique(a: OrderedList, b: OrderedList, x: string, y: string)
    requires ItemsPrintable(a) && ItemsPrintable(b) && Stops(x) && Stops(y)
    requires Print(OArr(a)) + x == Print(OArr(b)) + y
    ensures a == b && x == y
    decreases a, 1
  {
    hide Print, PrintTail, ArrayBody;
    ArrayText(a, x);
    ArrayText(b, y);
    match a {
      case ONil =>
      case OCons(head, tail) =>
        TailText(tail, x);
        TailText(b.tail, y);
        PrintUnique(head, b.head, PrintTail(tail) + x, PrintTail(b.tail) + y);
        TailUnique(tail, b.tail, x, y);
    }
  }

  // The text after an array's first element: a comma and the next one, or the bracket.
  lemma TailText(items: OrderedList, x: string)
    ensures Stops(PrintTail(items) + x)
    ensures items == ONil ==> (PrintTail(items) + x)[0] == ']' && (PrintTail(items) + x)[1..] == x
    ensures items.OCons? ==>
              (PrintTail(items) + x)[0] == ',' && (PrintTail(items) + x)[1..] == Print(items.head) + (PrintTail(items.tail) + x)
  {
    hide Print;
    if items.OCons? {
      Peel(',', Print(items.head), PrintTail(items.tail), x);
    }
  }

  lemma {:induction false} TailUnique(a: OrderedList, b: OrderedList, x: string, y: string)
    requires ItemsPrintable(a) && ItemsPrintable(b) && Stops(x) && Stops(y)
    requires PrintTail(a) + x == PrintTail(b) + y
    ensures a == b && x == y
    decreases a, 0
  {
    hide Print, PrintTail;
    TailText(a, x);
    TailText(b, y);
    match a {
      case ONil =>
      case OCons(head, tail) =>
        TailText(tail, x);
        TailText(b.tail, y);
        PrintUnique(head, b.head, PrintTail(tail) + x, PrintTail(b.tail) + y);
        TailUnique(tail, b.tail, x, y);
    }
  }

  ghost function ObjectBody(members: OrderedMembers): string {
    match members
    case OEmpty => "}"
    case OMember(key, value, rest) => MemberText(key, value) + PairsTail(PrintMembers(rest))
  }

  ghost function MemberText(key: string, value: Ordered): string {
    PairText(key, Print(value))
  }

  // The text of an object after its brace.
  lemma ObjectText(members: OrderedMembers, x: string)
    ensures (Print(OObj(members)) + x)[1..] == ObjectBody(members) + x
    ensures members == OEmpty ==> (ObjectBody(members) + x)[0] == '}' && (ObjectBody(members) + x)[1..] == x
    ensures members.OMember? ==>
              && (ObjectBody(members) + x)[0] == '"'
              && ObjectBody(members) + x == MemberText(members.key, members.value) + (PairsTail(PrintMembers(members.rest)) + x)
  {
    match members {
      case OEmpty =>
      case OMember(key, value, rest) =>
        PrintObject(key, value, rest);
        MemberTextStarts(key, value);
        hide Print, PrintMembers, PairsTail, MemberText;
        Peel('{', MemberText(key, value), PairsTail(PrintMembers(rest)), x);
    }
  }

  lemma PrintObject(key: string, value: Ordered, rest: OrderedMembers)
    ensures Print(OObj(OMember(key, value, rest))) == "{" + MemberText(key, value) + PairsTail(PrintMembers(rest))
  {
  }

  lemma MemberTextStarts(key: string, value: Ordered)
    ensures MemberText(key, value) != "" && MemberText(key, value)[0] == '"'
  {
    hide QuoteRest;
  }

  lemma {:induction false} ObjectUnique(a: OrderedMembers, b: OrderedMembers, x: string, y: string)
    requires MembersPrintable(a) && MembersPrintable(b) && Stops(x) && Stops(y)
    requires Print(OObj(a)) + x == Print(OObj(b)) + y
    ensures a == b && x == y
    decreases a, 1
  {
    hide Print, ObjectBody, MemberText, PairsTail, PrintMembers;
    ObjectText(a, x);
    ObjectText(b, y);
    match a {
      case OEmpty =>
      case OMember(key, value, rest) => MemberUnique(key, value, rest, b, x, y);
    }
  }

  // The text after an object's first member: a comma and the next one, or the brace.
  lemma MembersTailText(members: OrderedMembers, x: string)
    ensures var tail := PairsTail(PrintMembers(members)) + x;
            && Stops(tail)
            && (members == OEmpty ==> tail[0] == '}' && tail[1..] == x)
            && (members.OMember? ==>
                  tail[0] == ',' && tail[1..] == MemberText(members.key, members.value) + (PairsTail(PrintMembers(members.rest)) + x))
  {
    if members.OMember? {
      var key, value, rest := members.key, members.value, members.rest;
      assert PairsTail(PrintMembers(members)) == "," + MemberText(key, value) + PairsTail(PrintMembers(rest));
      hide Print, PrintMembers, PairsTail, MemberText;
      Peel(',', MemberText(key, value), PairsTail(PrintMembers(rest)), x);
    }
  }

  // A key, a colon and a value, then the rest: each part is where it must be.
  lemma {:induction false} MemberUnique(key: string, value: Ordered, rest: OrderedMembers, b: OrderedMembers, x: string, y: string)
    requires b.OMember? && Printable(value) && MembersPrintable(rest) && MembersPrintable(b) && Stops(x) && Stops(y)
    requires MemberText(key, value) + (PairsTail(PrintMembers(rest)) + x) ==
             MemberText(b.key, b.value) + (PairsTail(PrintMembers(b.rest)) + y)
    ensures OMember(key, value, rest) == b && x == y
    decreases OMember(key, value, rest), 0
  {
    hide Quote, PairsTail, PrintMembers;
    var after, after' := PairsTail(PrintMembers(rest)) + x, PairsTail(PrintMembers(b.rest)) + y;
    var u, v := ":" + (Print(value) + after), ":" + (Print(b.value) + after');
    assert MemberText(key, value) + after == Quote(key) + u;
    assert MemberText(b.key, b.value) + after' == Quote(b.key) + v;
    QuoteUnique(key, b.key, u, v);
    assert u[1..] == Print(value) + after && v[1..] == Print(b.value) + after';
    MembersTailText(rest, x);
    MembersTailText(b.rest, y);
    PrintUnique(value, b.value, after, after');
    PairsTailUnique(rest, b.rest, x, y);
  }

  lemma {:induction false} PairsTailUnique(a: OrderedMembers, b: OrderedMembers, x: string, y: string)
    requires MembersPrintable(a) && MembersPrintable(b) && Stops(x) && Stops(y)
    requires PairsTail(PrintMembers(a)) + x == PairsTail(PrintMembers(b)) + y
    ensures a == b && x == y
    decreases a, 1
  {
    hide Print, MemberText, PairsTail, PrintMembers;
    MembersTailText(a, x);
    MembersTailText(b, y);
    match a {
      case OEmpty =>
      case OMember(key, value, rest) => MemberUnique(key, value, rest, b, x, y);
    }
  }

  /* ------------------------------------------------------------ the law */

  lemma {:induction false} OrderIsPrintable(before: KeyOrder, v: Json)
    requires WellFormed(v)
    ensures Printable(Order(before, v))
    decreases v
  {
    match v {
      case Arr(items) => ItemsArePrintable(before, items);
      case Obj(members) => MembersArePrintable(before, members);
      case _ =>
    }
  }

  lemma {:induction false} ItemsArePrintable(before: KeyOrder, items: JsonList)
    requires ItemsWellFormed(items)
    ensures ItemsPrintable(OrderItems(before, items))
    decreases items
  {
    match items {
      case Nil =>
      case Cons(head, tail) =>
        OrderIsPrintable(before, head);
        ItemsArePrintable(before, tail);
    }
  }

  lemma {:induction false} InsertIsPrintable(before: KeyOrder, key: string, value: Ordered, members: OrderedMembers)
    requires Printable(value) && MembersPrintable(members)
    ensures MembersPrintable(InsertOrdered(before, key, value, members))
  {
    match members {
      case OEmpty =>
      case OMember(_, _, rest) => InsertIsPrintable(before, key, value, rest);
    }
  }

  lemma {:induction false} MembersArePrintable(before: KeyOrder, members: Members)
    requires MembersWellFormed(members)
    ensures MembersPrintable(OrderMembers(before, members))
    decreases members
  {
    match members {
      case Empty =>
      case Member(key, value, rest) =>
        OrderIsPrintable(before, value);
        MembersArePrintable(before, rest);
        if value != Undefined {
          InsertIsPrintable(before, key, Order(before, value), OrderMembers(before, rest));
        }
    }
  }

  /**
   * Two values have the same canonical text exactly when they mean the same:
   * whatever order their keys were inserted in, with undefined members dropped.
   */
  lemma CanonicalTextIsMeaning(before: KeyOrder, u: Json, v: Json)
    requires StrictTotal(before) && WellFormed(u) && WellFormed(v)
    ensures CanonicalText(before, u) == CanonicalText(before, v) <==> Meaning(u) == Meaning(v)
  {
    hide StrictTotal, CanonicalText, Order, Print, Meaning, OrderedMeaning;
    var a, b := Order(before, u), Order(before, v);
    CanonicalPrintsOrder(before, u);
    CanonicalPrintsOrder(before, v);
    OrderKeepsMeaning(before, u);
    OrderKeepsMeaning(before, v);
    OrderIsPrintable(before, u);
    OrderIsPrintable(before, v);
    if Print(a) == Print(b) {
      assert Print(a) + "" == Print(b) + "";
      PrintUnique(a, b, "", "");
    }
    if Meaning(u) == Meaning(v) {
      OrderIsUnique(before, a, b);
    }
  }

  // An object with two members, both null.
  function TwoNulls(a: string, b: string): Json {
    Obj(Member(a, Null, Member(b, Null, Empty)))
  }

  lemma TwoNullsMeaning(a: string, b: string)
    requires a != b
    ensures Meaning(TwoNulls(a, b)) == VObj(map[a := VNull, b := VNull])
  {
    assert MemberMeanings(Member(b, Null, Empty)) == map[b := VNull];
    assert MemberMeanings(Member(a, Null, Member(b, Null, Empty))) == map[b := VNull][a := VNull];
  }

  // Where the order does not put b first, a stays first.
  lemma TiedText(before: KeyOrder, a: string, b: string)
    requires !before(b, a)
    ensures exists tail :: CanonicalText(before, TwoNulls(a, b)) == "{" + (Quote(a) + (":" + tail))
  {
    hide Quote, PairsTail, PairText;
    var rest := Pair(b, "null", NoPairs);
    var one := Member(b, Null, Empty);
    assert SortedPairs(before, one) == rest;
    assert SortedPairs(before, Member(a, Null, one)) == Pair(a, "null", rest) by {
      assert CanonicalText(before, Null) == "null";
    }
    FirstPairText(a, "null", rest);
    assert CanonicalText(before, TwoNulls(a, b)) == "{" + (Quote(a) + (":" + ("null" + PairsTail(rest))));
  }

  lemma FirstPairText(key: string, text: string, rest: Pairs)
    ensures PairsText(Pair(key, text, rest)) == "{" + (Quote(key) + (":" + (text + PairsTail(rest))))
  {
    hide Quote, PairsTail;
  }

  /**
   * The order must tell every two keys apart.  Where it ties two of them, the
   * text shows which was inserted first.
   */
  lemma TiedKeysShowInsertionOrder(before: KeyOrder, a: string, b: string)
    requires a != b && !before(a, b) && !before(b, a)
    ensures Meaning(TwoNulls(a, b)) == Meaning(TwoNulls(b, a))
    ensures CanonicalText(before, TwoNulls(a, b)) != CanonicalText(before, TwoNulls(b, a))
  {
    hide Meaning, CanonicalText, Quote, TwoNulls;
    TwoNullsMeaning(a, b);
    TwoNullsMeaning(b, a);
    assert map[a := VNull, b := VNull] == map[b := VNull, a := VNull];
    TiedText(before, a, b);
    TiedText(before, b, a);
    var x :| CanonicalText(before, TwoNulls(a, b)) == "{" + (Quote(a) + (":" + x));
    var y :| CanonicalText(before, TwoNulls(b, a)) == "{" + (Quote(b) + (":" + y));
    if "{" + (Quote(a) + (":" + x)) == "{" + (Quote(b) + (":" + y)) {
      QuotedKeysAgree(a, b, ":" + x, ":" + y);
    }
  }

  lemma QuotedKeysAgree(a: string, b: string, x: string, y: string)
    requires "{" + (Quote(a) + x) == "{" + (Quote(b) + y)
    ensures a == b
  {
    hide Quote;
    assert ("{" + (Quote(a) + x))[1..] == Quote(a) + x;
    assert ("{" + (Quote(b) + y))[1..] == Quote(b) + y;
    QuoteUnique(a, b, x, y);
  }
}
