/**
 * The canonical text of a JSON value, which the audit chain hashes
 * (`packages/platform/src/audit.ts`, `canonical`).
 */
module Canonical {
  import opened Text

  // A number is known by the literal it prints as, which is finite JSON.
  datatype Json =
    | Undefined
    | Null
    | Bool(b: bool)
    | Num(literal: string)
    | Str(s: string)
    | Arr(items: JsonList)
    | Obj(members: Members)

  datatype JsonList = Nil | Cons(head: Json, tail: JsonList)

  // An object's members in insertion order.
  datatype Members = Empty | Member(key: string, value: Json, rest: Members)

  // `localeCompare(a, b) < 0`.
  type KeyOrder = (string, string) -> bool

  ghost predicate StrictTotal(before: KeyOrder) {
    && (forall a :: !before(a, a))
    && (forall a, b :: a != b ==> before(a, b) || before(b, a))
    && (forall a, b, c :: before(a, b) && before(b, c) ==> before(a, c))
  }

  /* ------------------------------------------------------------ texts */

  // One character inside a JSON string, as `JSON.stringify` escapes it.
  function Escape(c: char): string {
    if c == '"' then "\\\""
    else if c == '\\' then "\\\\"
    else if c == '\U{0008}' then "\\b"
    else if c == '\U{000c}' then "\\f"
    else if c == '\n' then "\\n"
    else if c == '\r' then "\\r"
    else if c == '\t' then "\\t"
    else if c < ' ' then "\\u00" + [LowerHexDigit(c as int / 16), LowerHexDigit(c as int % 16)]
    else [c]
  }

  function QuoteRest(s: string): string {
    if s == "" then "\"" else Escape(s[0]) + QuoteRest(s[1..])
  }

  // `JSON.stringify` of a string.
  function Quote(s: string): string {
    "\"" + QuoteRest(s)
  }

  // The printed members of an object: `filter`, then `sort` by key, then print.
  datatype Pairs = NoPairs | Pair(key: string, text: string, rest: Pairs)

  function InsertPair(before: KeyOrder, key: string, text: string, pairs: Pairs): Pairs {
    match pairs
    case NoPairs => Pair(key, text, NoPairs)
    case Pair(k, t, rest) => if before(k, key) then Pair(k, t, InsertPair(before, key, text, rest)) else Pair(key, text, pairs)
  }

  function PairText(key: string, text: string): string {
    Quote(key) + ":" + text
  }

  // What follows the first member: the others after commas, and the brace.
  function PairsTail(pairs: Pairs): string {
    match pairs
    case NoPairs => "}"
    case Pair(k, t, rest) => "," + PairText(k, t) + PairsTail(rest)
  }

  function PairsText(pairs: Pairs): string {
    match pairs
    case NoPairs => "{}"
    case Pair(k, t, rest) => "{" + PairText(k, t) + PairsTail(rest)
  }

  /** `canonical`. */
  function CanonicalText(before: KeyOrder, v: Json): string {
    match v
    case Undefined => "null"
    case Null => "null"
    case Bool(b) => if b then "true" else "false"
    case Num(literal) => literal
    case Str(s) => Quote(s)
    case Arr(items) =>
      (match items
       case Nil => "[]"
       case Cons(head, tail) => "[" + CanonicalText(before, head) + ItemsTail(before, tail))
    case Obj(members) => PairsText(SortedPairs(before, members))
  }

  function ItemsTail(before: KeyOrder, items: JsonList): string {
    match items
    case Nil => "]"
    case Cons(head, tail) => "," + CanonicalText(before, head) + ItemsTail(before, tail)
  }

  function SortedPairs(before: KeyOrder, members: Members): Pairs {
    match members
    case Empty => NoPairs
    case Member(key, value, rest) =>
      if value == Undefined then SortedPairs(before, rest)
      else InsertPair(before, key, CanonicalText(before, value), SortedPairs(before, rest))
  }

  /* ------------------------------------------------------------ what a value means */

  // A JSON value without order: an object is a map, and an undefined member is none.
  datatype Value =
    | VNull
    | VBool(b: bool)
    | VNum(literal: string)
    | VStr(s: string)
    | VArr(items: seq<Value>)
    | VObj(members: map<string, Value>)

  ghost function Meaning(v: Json): Value {
    match v
    case Undefined => VNull
    case Null => VNull
    case Bool(b) => VBool(b)
    case Num(literal) => VNum(literal)
    case Str(s) => VStr(s)
    case Arr(items) => VArr(ItemMeanings(items))
    case Obj(members) => VObj(MemberMeanings(members))
  }

  ghost function ItemMeanings(items: JsonList): seq<Value> {
    match items
    case Nil => []
    case Cons(head, tail) => [Meaning(head)] + ItemMeanings(tail)
  }

  ghost function MemberMeanings(members: Members): map<string, Value> {
    match members
    case Empty => map[]
    case Member(key, value, rest) =>
      if value == Undefined then MemberMeanings(rest) else MemberMeanings(rest)[key := Meaning(value)]
  }

  predicate IsNumberChar(c: char) {
    '0' <= c <= '9' || c == '-' || c == '+' || c == '.' || c == 'e'
  }

  predicate IsNumberLiteral(s: string) {
    s != "" && ('0' <= s[0] <= '9' || s[0] == '-') && forall c | c in s :: IsNumberChar(c)
  }

  // Numbers print as JSON numbers, and an object has each key once.
  ghost predicate WellFormed(v: Json) {
    match v
    case Num(literal) => IsNumberLiteral(literal)
    case Arr(items) => ItemsWellFormed(items)
    case Obj(members) => MembersWellFormed(members)
    case _ => true
  }

  ghost predicate ItemsWellFormed(items: JsonList) {
    match items
    case Nil => true
    case Cons(head, tail) => WellFormed(head) && ItemsWellFormed(tail)
  }

  ghost predicate MembersWellFormed(members: Members) {
    match members
    case Empty => true
    case Member(key, value, rest) => WellFormed(value) && MembersWellFormed(rest) && !HasKey(rest, key)
  }

  predicate HasKey(members: Members, key: string) {
    match members
    case Empty => false
    case Member(k, _, rest) => k == key || HasKey(rest, key)
  }

  /* ------------------------------------------------------------ ordered values */

  // A value with its members in key order: what the text is a printout of.
  datatype Ordered =
    | ONull
    | OBool(b: bool)
    | ONum(literal: string)
    | OStr(s: string)
    | OArr(items: OrderedList)
    | OObj(members: OrderedMembers)

  datatype OrderedList = ONil | OCons(head: Ordered, tail: OrderedList)

  datatype OrderedMembers = OEmpty | OMember(key: string, value: Ordered, rest: OrderedMembers)

  ghost function InsertOrdered(before: KeyOrder, key: string, value: Ordered, members: OrderedMembers): OrderedMembers {
    match members
    case OEmpty => OMember(key, value, OEmpty)
    case OMember(k, v, rest) =>
      if before(k, key) then OMember(k, v, InsertOrdered(before, key, value, rest)) else OMember(key, value, members)
  }

  ghost function Order(before: KeyOrder, v: Json): Ordered {
    match v
    case Undefined => ONull
    case Null => ONull
    case Bool(b) => OBool(b)
    case Num(literal) => ONum(literal)
    case Str(s) => OStr(s)
    case Arr(items) => OArr(OrderItems(before, items))
    case Obj(members) => OObj(OrderMembers(before, members))
  }

  ghost function OrderItems(before: KeyOrder, items: JsonList): OrderedList {
    match items
    case Nil => ONil
    case Cons(head, tail) => OCons(Order(before, head), OrderItems(before, tail))
  }

  ghost function OrderMembers(before: KeyOrder, members: Members): OrderedMembers {
    match members
    case Empty => OEmpty
    case Member(key, value, rest) =>
      if value == Undefined then OrderMembers(before, rest)
      else InsertOrdered(before, key, Order(before, value), OrderMembers(before, rest))
  }

  ghost function Print(v: Ordered): string {
    match v
    case ONull => "null"
    case OBool(b) => if b then "true" else "false"
    case ONum(literal) => literal
    case OStr(s) => Quote(s)
    case OArr(items) =>
      (match items
       case ONil => "[]"
       case OCons(head, tail) => "[" + Print(head) + PrintTail(tail))
    case OObj(members) => PairsText(PrintMembers(members))
  }

  ghost function PrintTail(items: OrderedList): string {
    match items
    case ONil => "]"
    case OCons(head, tail) => "," + Print(head) + PrintTail(tail)
  }

  ghost function PrintMembers(members: OrderedMembers): Pairs {
    match members
    case OEmpty => NoPairs
    case OMember(key, value, rest) => Pair(key, Print(value), PrintMembers(rest))
  }

  lemma {:induction false} InsertThenPrint(before: KeyOrder, key: string, value: Ordered, members: OrderedMembers)
    ensures PrintMembers(InsertOrdered(before, key, value, members)) == InsertPair(before, key, Print(value), PrintMembers(members))
  {
    match members {
      case OEmpty =>
      case OMember(k, v, rest) => InsertThenPrint(before, key, value, rest);
    }
  }

  // Printing and then sorting the texts is sorting and then printing.
  lemma {:induction false} CanonicalPrintsOrder(before: KeyOrder, v: Json)
    ensures CanonicalText(before, v) == Print(Order(before, v))
    decreases v
  {
    match v {
      case Arr(items) =>
        match items {
          case Nil =>
          case Cons(head, tail) =>
            CanonicalPrintsOrder(before, head);
            TailPrintsOrder(before, tail);
        }
      case Obj(members) => PairsPrintOrder(before, members);
      case _ =>
    }
  }

  lemma {:induction false} TailPrintsOrder(before: KeyOrder, items: JsonList)
    ensures ItemsTail(before, items) == PrintTail(OrderItems(before, items))
    decreases items
  {
    match items {
      case Nil =>
      case Cons(head, tail) =>
        CanonicalPrintsOrder(before, head);
        TailPrintsOrder(before, tail);
    }
  }

  lemma {:induction false} PairsPrintOrder(before: KeyOrder, members: Members)
    ensures SortedPairs(before, members) == PrintMembers(OrderMembers(before, members))
    decreases members
  {
    match members {
      case Empty =>
      case Member(key, value, rest) =>
        PairsPrintOrder(before, rest);
        CanonicalPrintsOrder(before, value);
        InsertThenPrint(before, key, Order(before, value), OrderMembers(before, rest));
    }
  }

  /* ------------------------------------------------------------ one order for each meaning */

  ghost function OrderedMeaning(v: Ordered): Value {
    match v
    case ONull => VNull
    case OBool(b) => VBool(b)
    case ONum(literal) => VNum(literal)
    case OStr(s) => VStr(s)
    case OArr(items) => VArr(OrderedItemMeanings(items))
    case OObj(members) => VObj(OrderedMemberMeanings(members))
  }

  ghost function OrderedItemMeanings(items: OrderedList): seq<Value> {
    match items
    case ONil => []
    case OCons(head, tail) => [OrderedMeaning(head)] + OrderedItemMeanings(tail)
  }

  ghost function OrderedMemberMeanings(members: OrderedMembers): map<string, Value> {
    match members
    case OEmpty => map[]
    case OMember(key, value, rest) => OrderedMemberMeanings(rest)[key := OrderedMeaning(value)]
  }

  // Every key of the list comes after `key`.
  ghost predicate AllAfter(before: KeyOrder, key: string, members: OrderedMembers) {
    match members
    case OEmpty => true
    case OMember(k, _, rest) => before(key, k) && AllAfter(before, key, rest)
  }

  ghost predicate InOrder(before: KeyOrder, v: Ordered) {
    match v
    case OArr(items) => ItemsInOrder(before, items)
    case OObj(members) => MembersInOrder(before, members)
    case _ => true
  }

  ghost predicate ItemsInOrder(before: KeyOrder, items: OrderedList) {
    match items
    case ONil => true
    case OCons(head, tail) => InOrder(before, head) && ItemsInOrder(before, tail)
  }

  ghost predicate MembersInOrder(before: KeyOrder, members: OrderedMembers) {
    match members
    case OEmpty => true
    case OMember(key, value, rest) => InOrder(before, value) && MembersInOrder(before, rest) && AllAfter(before, key, rest)
  }

  lemma {:induction false} AfterIsAbsent(before: KeyOrder, key: string, members: OrderedMembers, k: string)
    requires StrictTotal(before) && AllAfter(before, key, members) && (k == key || before(k, key))
    ensures k !in OrderedMemberMeanings(members)
  {
    match members {
      case OEmpty =>
      case OMember(_, _, rest) => AfterIsAbsent(before, key, rest, k);
    }
  }

  /** Two ordered values that mean the same are the same: the order leaves no choice. */
  lemma {:induction false} OrderIsUnique(before: KeyOrder, a: Ordered, b: Ordered)
    requires StrictTotal(before) && InOrder(before, a) && InOrder(before, b)
    requires OrderedMeaning(a) == OrderedMeaning(b)
    ensures a == b
    decreases a
  {
    hide StrictTotal;
    match a {
      case OArr(items) => ItemsUnique(before, items, b.items);
      case OObj(members) => MembersUnique(before, members, b.members);
      case _ =>
    }
  }

  lemma {:induction false} ItemsUnique(before: KeyOrder, a: OrderedList, b: OrderedList)
    requires StrictTotal(before) && ItemsInOrder(before, a) && ItemsInOrder(before, b)
    requires OrderedItemMeanings(a) == OrderedItemMeanings(b)
    ensures a == b
    decreases a
  {
    hide StrictTotal;
    match a {
      case ONil =>
      case OCons(head, tail) =>
        var x, y := OrderedItemMeanings(a), OrderedItemMeanings(b);
        assert x[0] == OrderedMeaning(head) && x[1..] == OrderedItemMeanings(tail);
        assert y[0] == OrderedMeaning(b.head) && y[1..] == OrderedItemMeanings(b.tail);
        OrderIsUnique(before, head, b.head);
        ItemsUnique(before, tail, b.tail);
    }
  }

  lemma {:induction false} MembersUnique(before: KeyOrder, a: OrderedMembers, b: OrderedMembers)
    requires StrictTotal(before) && MembersInOrder(before, a) && MembersInOrder(before, b)
    requires OrderedMemberMeanings(a) == OrderedMemberMeanings(b)
    ensures a == b
    decreases a
  {
    hide StrictTotal;
    match a {
      case OEmpty =>
        SomeMemberMeansSomething(b);
      case OMember(key, value, rest) =>
        var m := OrderedMemberMeanings(b);
        assert key in m;
        FirstKeysAgree(before, a, b);
        AfterIsAbsent(before, key, rest, key);
        AfterIsAbsent(before, key, b.rest, key);
        assert m[key] == OrderedMeaning(value) == OrderedMeaning(b.value);
        assert OrderedMemberMeanings(rest) == m - {key} == OrderedMemberMeanings(b.rest);
        OrderIsUnique(before, value, b.value);
        MembersUnique(before, rest, b.rest);
    }
  }

  lemma SomeMemberMeansSomething(members: OrderedMembers)
    ensures OrderedMemberMeanings(members) == map[] <==> members == OEmpty
  {
    if members.OMember? {
      assert members.key in OrderedMemberMeanings(members);
    }
  }

  lemma FirstKeysAgree(before: KeyOrder, a: OrderedMembers, b: OrderedMembers)
    requires StrictTotal(before) && MembersInOrder(before, a) && MembersInOrder(before, b)
    requires OrderedMemberMeanings(a) == OrderedMemberMeanings(b) && a.OMember?
    ensures b.OMember? && a.key == b.key
  {
    assert a.key in OrderedMemberMeanings(b);
    assert b.key in OrderedMemberMeanings(a);
    if before(a.key, b.key) {
      AfterIsAbsent(before, b.key, b.rest, a.key);
    } else if before(b.key, a.key) {
      AfterIsAbsent(before, a.key, a.rest, b.key);
    }
  }

  lemma {:induction false} InsertStaysAfter(before: KeyOrder, key: string, value: Ordered, members: OrderedMembers, low: string)
    requires AllAfter(before, low, members) && before(low, key)
    ensures AllAfter(before, low, InsertOrdered(before, key, value, members))
  {
    match members {
      case OEmpty =>
      case OMember(_, _, rest) => InsertStaysAfter(before, key, value, rest, low);
    }
  }

  lemma EitherBefore(before: KeyOrder, a: string, b: string)
    requires StrictTotal(before) && a != b
    ensures before(a, b) || before(b, a)
  {
  }

  // Inserting a new key keeps the order and adds the member.
  lemma {:induction false} InsertKeepsOrder(before: KeyOrder, key: string, value: Ordered, members: OrderedMembers)
    requires StrictTotal(before) && MembersInOrder(before, members) && InOrder(before, value)
    requires key !in OrderedMemberMeanings(members)
    ensures MembersInOrder(before, InsertOrdered(before, key, value, members))
    ensures OrderedMemberMeanings(InsertOrdered(before, key, value, members)) == OrderedMemberMeanings(members)[key := OrderedMeaning(value)]
  {
    hide StrictTotal, InOrder, OrderedMeaning;
    match members {
      case OEmpty =>
      case OMember(k, v, rest) =>
        assert k in OrderedMemberMeanings(members);
        if before(k, key) {
          InsertKeepsOrder(before, key, value, rest);
          InsertStaysAfter(before, key, value, rest, k);
        } else {
          EitherBefore(before, k, key);
          AllAfterTransitive(before, key, k, rest);
        }
    }
  }

  lemma {:induction false} AllAfterTransitive(before: KeyOrder, a: string, b: string, members: OrderedMembers)
    requires StrictTotal(before) && before(a, b) && AllAfter(before, b, members)
    ensures AllAfter(before, a, members)
  {
    match members {
      case OEmpty =>
      case OMember(_, _, rest) => AllAfterTransitive(before, a, b, rest);
    }
  }

  lemma {:induction false} OrderKeepsMeaning(before: KeyOrder, v: Json)
    requires StrictTotal(before) && WellFormed(v)
    ensures InOrder(before, Order(before, v)) && OrderedMeaning(Order(before, v)) == Meaning(v)
    decreases v
  {
    hide StrictTotal;
    match v {
      case Arr(items) => ItemsKeepMeaning(before, items);
      case Obj(members) => MembersKeepMeaning(before, members);
      case _ =>
    }
  }

  lemma {:induction false} ItemsKeepMeaning(before: KeyOrder, items: JsonList)
    requires StrictTotal(before) && ItemsWellFormed(items)
    ensures ItemsInOrder(before, OrderItems(before, items)) && OrderedItemMeanings(OrderItems(before, items)) == ItemMeanings(items)
    decreases items
  {
    hide StrictTotal;
    match items {
      case Nil =>
      case Cons(head, tail) =>
        OrderKeepsMeaning(before, head);
        ItemsKeepMeaning(before, tail);
    }
  }

  lemma {:induction false} MeaningKeys(members: Members, key: string)
    ensures key in MemberMeanings(members) ==> HasKey(members, key)
  {
    match members {
      case Empty =>
      case Member(_, _, rest) => MeaningKeys(rest, key);
    }
  }

  lemma {:induction false} MembersKeepMeaning(before: KeyOrder, members: Members)
    requires StrictTotal(before) && MembersWellFormed(members)
    ensures MembersInOrder(before, OrderMembers(before, members))
    ensures OrderedMemberMeanings(OrderMembers(before, members)) == MemberMeanings(members)
    decreases members
  {
    hide StrictTotal;
    match members {
      case Empty =>
      case Member(key, value, rest) =>
        MembersKeepMeaning(before, rest);
        OrderKeepsMeaning(before, value);
        MeaningKeys(rest, key);
        if value != Undefined {
          InsertKeepsOrder(before, key, Order(before, value), OrderMembers(before, rest));
        }
    }
  }
}
