/**
 * Server and browser: the same expression over a context whose dates have been
 * through JSON (the promise made at `compare` in `packages/expr/src/index.ts`).
 */
module ExprAgreement {
  import opened Wrappers
  import Text
  import opened Values
  import opened Expr

  // The value as the browser has it: every Date is its ISO text.
  ghost function Shipped(h: Host, v: Value): Value {
    match v
    case Date(ms) => Str(h.isoText(ms))
    case Arr(items) => Arr(seq(|items|, i requires 0 <= i < |items| => Shipped(h, items[i])))
    case Obj(members) => Obj(map k | k in members :: Shipped(h, members[k]))
    case _ => v
  }

  // The text of an instant looks like a date and parses back to it.
  ghost predicate IsoReadsBack(h: Host, ms: int) {
    LooksIso(h.isoText(ms)) && h.parseDate(h.isoText(ms)) == Some(ms)
  }

  // Every date in the value is valid and its text reads back.
  ghost predicate Shippable(h: Host, v: Value) {
    match v
    case Date(ms) => IsoReadsBack(h, ms)
    case InvalidDate => false
    case Arr(items) => forall x | x in items :: Shippable(h, x)
    case Obj(members) => forall k | k in members :: Shippable(h, members[k])
    case _ => true
  }

  /* ------------------------------------------------------------ reading paths */

  lemma {:induction false} FollowShipped(h: Host, v: Value, segments: seq<string>)
    requires Shippable(h, v)
    ensures Shippable(h, Follow(v, segments))
    ensures Follow(Shipped(h, v), segments) == Shipped(h, Follow(v, segments))
    decreases |segments|
  {
    if segments != [] {
      PropertyShipped(h, v, segments[0]);
      match OwnProperty(v, segments[0]) {
        case None =>
        case Some(next) => FollowShipped(h, next, segments[1..]);
      }
    }
  }

  lemma PropertyShipped(h: Host, v: Value, segment: string)
    requires Shippable(h, v)
    ensures match OwnProperty(v, segment)
            case None => OwnProperty(Shipped(h, v), segment) == None
            case Some(next) => Shippable(h, next) && OwnProperty(Shipped(h, v), segment) == Some(Shipped(h, next))
  {
    hide IsIndexText, Text.Decimal, LooksIso;
  }

  // A literal as the schema has it: a scalar, or an array of scalars.
  predicate IsScalar(v: Value) {
    v.Null? || v.Num? || v.Str? || v.Bool?
  }

  predicate SchemaLiteral(operand: Operand) {
    operand.Literal? ==> IsScalar(operand.v) || (operand.v.Arr? && forall x | x in operand.v.items :: IsScalar(x))
  }

  lemma ResolveShipped(h: Host, operand: Operand, ctx: Value)
    requires Shippable(h, ctx) && SchemaLiteral(operand)
    ensures Resolve(operand, Shipped(h, ctx)) == Shipped(h, Resolve(operand, ctx))
    ensures Shippable(h, Resolve(operand, ctx))
  {
    match operand {
      case Var(path) => FollowShipped(h, ctx, Text.Split(path, '.'));
      case Literal(v) =>
        if v.Arr? {
          forall i | 0 <= i < |v.items|
            ensures Shipped(h, v.items[i]) == v.items[i]
          {
            assert v.items[i] in v.items;
          }
          assert Shipped(h, v).items == v.items;
        }
    }
  }

  /* ------------------------------------------------------------ the operators */

  // A date is ordered only against a date, an ISO text that parses, or nothing.
  predicate MeetsIso(h: Host, v: Value, other: Value) {
    v.Date? ==> other.Date? || Absent(other) || (other.Str? && Dated(h, other.s))
  }

  // Neither a date nor an array with one in it.
  predicate Undated(v: Value) {
    !v.Date? && (v.Arr? ==> forall x | x in v.items :: !x.Date?)
  }

  lemma ToTimeShipped(h: Host, v: Value)
    requires Shippable(h, v)
    ensures ToTime(h, Shipped(h, v)) == ToTime(h, v)
  {
    hide LooksIso;
  }

  lemma OrderedShipped(h: Host, a: Value, b: Value, ordering: Ordering)
    requires Shippable(h, a) && Shippable(h, b) && MeetsIso(h, a, b) && MeetsIso(h, b, a)
    ensures Ordered(h, Shipped(h, a), Shipped(h, b), ordering) == Ordered(h, a, b, ordering)
  {
    hide LooksIso, Text.TextBelow, Holds;
    if !a.Date? && !b.Date? {
      CompareShipped(h, a, b, ordering);
    }
  }

  lemma CompareShipped(h: Host, a: Value, b: Value, ordering: Ordering)
    requires !a.Date? && !b.Date?
    ensures Compare(h, Shipped(h, a), Shipped(h, b), ordering) == Compare(h, a, b, ordering)
  {
    assert KindOfValue(Shipped(h, a)) == KindOfValue(a) && KindOfValue(Shipped(h, b)) == KindOfValue(b);
    hide KindOfValue, CompareText, NamedKind;
  }

  lemma LooseEqualShipped(h: Host, a: Value, b: Value)
    requires !a.Date? && !b.Date?
    ensures LooseEqual(h, Shipped(h, a), Shipped(h, b)) == LooseEqual(h, a, b)
  {
    assert ToComparable(Shipped(h, a)) == ToComparable(a);
    assert ToComparable(Shipped(h, b)) == ToComparable(b);
  }

  lemma MemberShipped(h: Host, v: Value, items: seq<Value>)
    requires !v.Date? && forall x | x in items :: !x.Date?
    ensures Member(h, Shipped(h, v), Shipped(h, Arr(items)).items) == Member(h, v, items)
  {
    hide LooseEqual;
    var shipped := Shipped(h, Arr(items)).items;
    forall i | 0 <= i < |items|
      ensures LooseEqual(h, shipped[i], Shipped(h, v)) == LooseEqual(h, items[i], v)
    {
      assert items[i] in items;
      LooseEqualShipped(h, items[i], v);
    }
  }

  lemma AsArrayShipped(h: Host, v: Value)
    requires Undated(v)
    ensures AsArray(Shipped(h, v)) == Shipped(h, Arr(AsArray(v))).items
    ensures forall x | x in AsArray(v) :: !x.Date?
  {
  }

  // The condition on one operator, given what its operands are.
  predicate LeafMeetsIso(h: Host, e: Expr, ctx: Value) {
    match e
    case Compared(_, l, r) =>
      MeetsIso(h, Resolve(l, ctx), Resolve(r, ctx)) && MeetsIso(h, Resolve(r, ctx), Resolve(l, ctx))
    case Eq(l, r) => Undated(Resolve(l, ctx)) && Undated(Resolve(r, ctx))
    case Ne(l, r) => Undated(Resolve(l, ctx)) && Undated(Resolve(r, ctx))
    case In(l, r) => Undated(Resolve(l, ctx)) && Undated(Resolve(r, ctx))
    case Nin(l, r) => Undated(Resolve(l, ctx)) && Undated(Resolve(r, ctx))
    case Contains(l, r) => Undated(Resolve(l, ctx)) && Undated(Resolve(r, ctx))
    case StartsWith(l, r) => Undated(Resolve(l, ctx)) && Undated(Resolve(r, ctx))
    case EndsWith(l, r) => Undated(Resolve(l, ctx)) && Undated(Resolve(r, ctx))
    case Matches(o, _) => Undated(Resolve(o, ctx))
    case _ => true
  }

  predicate SchemaLeaf(e: Expr) {
    match e
    case Exists(o) => SchemaLiteral(o)
    case Empty(o) => SchemaLiteral(o)
    case Compared(_, l, r) => SchemaLiteral(l) && SchemaLiteral(r)
    case Eq(l, r) => SchemaLiteral(l) && SchemaLiteral(r)
    case Ne(l, r) => SchemaLiteral(l) && SchemaLiteral(r)
    case In(l, r) => SchemaLiteral(l) && SchemaLiteral(r)
    case Nin(l, r) => SchemaLiteral(l) && SchemaLiteral(r)
    case Contains(l, r) => SchemaLiteral(l) && SchemaLiteral(r)
    case StartsWith(l, r) => SchemaLiteral(l) && SchemaLiteral(r)
    case EndsWith(l, r) => SchemaLiteral(l) && SchemaLiteral(r)
    case Matches(o, _) => SchemaLiteral(o)
    case Before(l, r) => SchemaLiteral(l) && SchemaLiteral(r)
    case After(l, r) => SchemaLiteral(l) && SchemaLiteral(r)
    case WithinLast(o, _) => SchemaLiteral(o)
    case _ => true
  }

  // An expression that meets dates only where it may, and only against such texts.
  predicate MeetsDatesAsIso(h: Host, e: Expr, ctx: Value) {
    match e
    case And(all) => AllMeetDatesAsIso(h, all, ctx)
    case Or(some) => AllMeetDatesAsIso(h, some, ctx)
    case Not(sub) => MeetsDatesAsIso(h, sub, ctx)
    case _ => SchemaLeaf(e) && LeafMeetsIso(h, e, ctx)
  }

  predicate AllMeetDatesAsIso(h: Host, es: ExprList, ctx: Value) {
    match es
    case Nil => true
    case Cons(head, tail) => MeetsDatesAsIso(h, head, ctx) && AllMeetDatesAsIso(h, tail, ctx)
  }

  // Operators on two values.
  lemma PairAgrees(h: Host, e: Expr, ctx: Value, l: Operand, r: Operand)
    requires Shippable(h, ctx) && SchemaLiteral(l) && SchemaLiteral(r)
    requires Undated(Resolve(l, ctx)) && Undated(Resolve(r, ctx))
    requires e in {Eq(l, r), Ne(l, r), In(l, r), Nin(l, r), Contains(l, r), StartsWith(l, r), EndsWith(l, r)}
    ensures EvalLeaf(h, e, Shipped(h, ctx)) == EvalLeaf(h, e, ctx)
  {
    var a, b := Resolve(l, ctx), Resolve(r, ctx);
    ResolveShipped(h, l, ctx);
    ResolveShipped(h, r, ctx);
    LooseEqualShipped(h, a, b);
    AsArrayShipped(h, b);
    MemberShipped(h, a, AsArray(b));
    if a.Arr? {
      MemberShipped(h, b, a.items);
    }
    KindsShipped(h, a);
    KindsShipped(h, b);
    ContainsTextShipped(h, a, b);
    hide Resolve, Member, LooseEqual, ContainsText, HasPrefix, HasSuffix, Shipped, AsArray, Shippable, Undated, SchemaLiteral;
  }

  // Values that are no dates keep their kind, and scalars are unchanged.
  lemma KindsShipped(h: Host, v: Value)
    requires !v.Date?
    ensures Shipped(h, v).Arr? == v.Arr? && (v.Arr? ==> Shipped(h, v) == Shipped(h, Arr(v.items)))
    ensures Shipped(h, v).Str? == v.Str? && Shipped(h, v).Num? == v.Num?
    ensures !v.Arr? && !v.Obj? ==> Shipped(h, v) == v
  {
  }

  lemma ContainsTextShipped(h: Host, l: Value, r: Value)
    requires !l.Date? && !r.Date?
    ensures ContainsText(h, Shipped(h, l), Shipped(h, r)) == ContainsText(h, l, r)
  {
    hide Includes;
    KindsShipped(h, l);
    KindsShipped(h, r);
  }

  lemma IsEmptyShipped(h: Host, v: Value)
    requires Shippable(h, v)
    ensures IsEmpty(Shipped(h, v)) == IsEmpty(v) && Absent(Shipped(h, v)) == Absent(v)
  {
  }

  lemma PresentShipped(h: Host, ctx: Value)
    requires Shippable(h, ctx)
    ensures Present(h, Shipped(h, ctx)) == Present(h, ctx)
  {
    FollowShipped(h, ctx, Text.Split("now", '.'));
    ToTimeShipped(h, PathValue(ctx, "now"));
    hide ToTime, Follow, Text.Split, Shipped;
  }

  lemma LeafAgrees(h: Host, e: Expr, ctx: Value)
    requires Shippable(h, ctx) && !e.And? && !e.Or? && !e.Not?
    requires SchemaLeaf(e) && LeafMeetsIso(h, e, ctx)
    ensures EvalLeaf(h, e, Shipped(h, ctx)) == EvalLeaf(h, e, ctx)
  {
    if e.Exists? || e.Empty? {
      OneAgrees(h, e, ctx, e.operand);
    } else if e.Matches? {
      OneAgrees(h, e, ctx, e.subject);
    } else if e.WithinLast? {
      WithinAgrees(h, e, ctx);
    } else if e.Compared? || e.Before? || e.After? {
      TimesAgree(h, e, ctx, e.left, e.right);
    } else if e != Always {
      PairAgrees(h, e, ctx, e.left, e.right);
    }
  }

  lemma OneAgrees(h: Host, e: Expr, ctx: Value, o: Operand)
    requires Shippable(h, ctx) && SchemaLiteral(o) && LeafMeetsIso(h, e, ctx)
    requires e.Exists? || e.Empty? || e.Matches?
    requires o == if e.Matches? then e.subject else e.operand
    ensures EvalLeaf(h, e, Shipped(h, ctx)) == EvalLeaf(h, e, ctx)
  {
    var v := Resolve(o, ctx);
    ResolveShipped(h, o, ctx);
    IsEmptyShipped(h, v);
    if e.Matches? {
      KindsShipped(h, v);
    }
    hide Resolve, Shipped, IsEmpty, Absent, Shippable, SchemaLiteral, LeafMeetsIso;
  }

  lemma WithinAgrees(h: Host, e: Expr, ctx: Value)
    requires Shippable(h, ctx) && e.WithinLast? && SchemaLiteral(e.subject)
    ensures EvalLeaf(h, e, Shipped(h, ctx)) == EvalLeaf(h, e, ctx)
  {
    hide Resolve, Shipped, Present, ToTime, Shippable, SchemaLiteral;
    ResolveShipped(h, e.subject, ctx);
    ToTimeShipped(h, Resolve(e.subject, ctx));
    PresentShipped(h, ctx);
  }

  lemma TimesAgree(h: Host, e: Expr, ctx: Value, l: Operand, r: Operand)
    requires Shippable(h, ctx) && SchemaLiteral(l) && SchemaLiteral(r) && LeafMeetsIso(h, e, ctx)
    requires e in {Before(l, r), After(l, r)} || (e.Compared? && e.left == l && e.right == r)
    ensures EvalLeaf(h, e, Shipped(h, ctx)) == EvalLeaf(h, e, ctx)
  {
    var a, b := Resolve(l, ctx), Resolve(r, ctx);
    ResolveShipped(h, l, ctx);
    ResolveShipped(h, r, ctx);
    ToTimeShipped(h, a);
    ToTimeShipped(h, b);
    if e.Compared? {
      OrderedShipped(h, a, b, e.ordering);
    }
    hide Resolve, Shipped, Ordered, ToTime, Shippable;
  }

  /**
   * Server and browser agree, errors included, on every expression that meets
   * dates only under the orderings, `before`, `after`, `withinLast`, `exists` and
   * `empty`, and orders them only against ISO texts that parse.
   */
  lemma {:induction false} ServerAndBrowserAgree(h: Host, e: Expr, ctx: Value, depth: nat)
    requires Shippable(h, ctx) && MeetsDatesAsIso(h, e, ctx)
    ensures Evaluate(h, e, Shipped(h, ctx), depth) == Evaluate(h, e, ctx, depth)
    decreases e
  {
    hide Shipped, Shippable, EvalLeaf, SchemaLeaf, LeafMeetsIso;
    if e.And? {
      ListsAgree(h, e.all, ctx, depth + 1);
    } else if e.Or? {
      ListsAgree(h, e.some, ctx, depth + 1);
    } else if e.Not? {
      ServerAndBrowserAgree(h, e.sub, ctx, depth + 1);
    } else {
      LeafAgrees(h, e, ctx);
    }
  }

  lemma {:induction false} ListsAgree(h: Host, es: ExprList, ctx: Value, depth: nat)
    requires Shippable(h, ctx) && AllMeetDatesAsIso(h, es, ctx)
    ensures EvaluateAll(h, es, Shipped(h, ctx), depth) == EvaluateAll(h, es, ctx, depth)
    ensures EvaluateSome(h, es, Shipped(h, ctx), depth) == EvaluateSome(h, es, ctx, depth)
    decreases es
  {
    hide Shipped, Shippable, Evaluate;
    match es {
      case Nil =>
      case Cons(head, tail) =>
        ServerAndBrowserAgree(h, head, ctx, depth);
        ListsAgree(h, tail, ctx, depth);
    }
  }

  /* ------------------------------------------------------------ where they do not agree */

  /**
   * A date against any text: the two sides agree exactly where the text parses,
   * and looks like a date or happens to sort where its instant does.
   */
  lemma DateAgainstText(h: Host, ms: int, s: string, ordering: Ordering)
    requires IsoReadsBack(h, ms)
    ensures Ordered(h, Str(h.isoText(ms)), Str(s), ordering) == Ordered(h, Date(ms), Str(s), ordering) <==>
            && h.parseDate(s).Some?
            && (LooksIso(s) || Holds(ordering, CompareText(h, h.isoText(ms), s)) == Holds(ordering, Fin((ms - h.parseDate(s).value) as real)))
  {
    hide LooksIso, Text.TextBelow, Holds;
  }

  // What a date equals on the server: itself, its milliseconds, and their text.
  predicate ServerEquals(h: Host, ms: int, v: Value) {
    v == Date(ms) || v == Num(Fin(ms as real)) || v == Str(h.numText(Fin(ms as real)))
  }

  // What it equals in the browser: itself, its ISO text, and a number with that text.
  predicate BrowserEquals(h: Host, ms: int, v: Value) {
    v == Date(ms) || v == Str(h.isoText(ms)) || (v.Num? && h.numText(v.n) == h.isoText(ms))
  }

  /**
   * Equality is outside the claim: of a date and any value, shipped too where it
   * is a date, the sides agree exactly where both find them equal or neither does.
   */
  lemma DateEqualityAgreesIff(h: Host, ms: int, v: Value)
    requires IsoReadsBack(h, ms) && Shippable(h, v)
    ensures LooseEqual(h, Date(ms), v) == LooseEqual(h, v, Date(ms)) == ServerEquals(h, ms, v)
    ensures var iso := Shipped(h, Date(ms));
            LooseEqual(h, iso, Shipped(h, v)) == LooseEqual(h, Shipped(h, v), iso) == BrowserEquals(h, ms, v)
  {
    hide LooksIso;
  }

  /** A date sought in a list, of any length and with dates in it or not. */
  lemma DateInListAgreesIff(h: Host, ms: int, items: seq<Value>)
    requires IsoReadsBack(h, ms) && Shippable(h, Arr(items))
    ensures Member(h, Shipped(h, Date(ms)), Shipped(h, Arr(items)).items) == Member(h, Date(ms), items) <==>
            ((exists v :: v in items && ServerEquals(h, ms, v)) <==> (exists v :: v in items && BrowserEquals(h, ms, v)))
  {
    hide LooseEqual, ServerEquals, BrowserEquals, IsoReadsBack;
    var shipped := Shipped(h, Arr(items)).items;
    forall i | 0 <= i < |items|
      ensures LooseEqual(h, items[i], Date(ms)) == ServerEquals(h, ms, items[i])
      ensures LooseEqual(h, shipped[i], Shipped(h, Date(ms))) == BrowserEquals(h, ms, items[i])
    {
      assert items[i] in items;
      DateEqualityAgreesIff(h, ms, items[i]);
    }
  }

  /** Any other value sought in a list: only the dates in it can tell the sides apart. */
  lemma ListOfDatesAgreesIff(h: Host, v: Value, items: seq<Value>)
    requires Shippable(h, v) && !v.Date? && Shippable(h, Arr(items))
    ensures Member(h, Shipped(h, v), Shipped(h, Arr(items)).items) == Member(h, v, items) <==>
            || (exists x :: x in items && !x.Date? && LooseEqual(h, x, v))
            || ((exists x :: x in items && x.Date? && ServerEquals(h, x.ms, v)) <==>
                (exists x :: x in items && x.Date? && BrowserEquals(h, x.ms, v)))
  {
    hide LooseEqual, ServerEquals, BrowserEquals, IsoReadsBack;
    var shipped := Shipped(h, Arr(items)).items;
    forall i | 0 <= i < |items|
      ensures items[i].Date? ==> LooseEqual(h, items[i], v) == ServerEquals(h, items[i].ms, v)
      ensures items[i].Date? ==> LooseEqual(h, shipped[i], Shipped(h, v)) == BrowserEquals(h, items[i].ms, v)
      ensures !items[i].Date? ==> LooseEqual(h, shipped[i], Shipped(h, v)) == LooseEqual(h, items[i], v)
    {
      assert items[i] in items;
      if items[i].Date? {
        DateEqualityAgreesIff(h, items[i].ms, v);
      } else {
        LooseEqualShipped(h, items[i], v);
      }
    }
  }

  // A date is an operand of an operator on text.
  predicate DateUnderTextOperator(e: Expr, ctx: Value) {
    match e
    case Contains(l, r) => Resolve(l, ctx).Date? || (Resolve(r, ctx).Date? && !Resolve(l, ctx).Arr?)
    case StartsWith(l, r) => Resolve(l, ctx).Date? || Resolve(r, ctx).Date?
    case EndsWith(l, r) => Resolve(l, ctx).Date? || Resolve(r, ctx).Date?
    case Matches(o, _) => Resolve(o, ctx).Date?
    case _ => false
  }

  // What the browser has for a text or a date.
  function TextInBrowser(h: Host, v: Value): Option<string> {
    match v
    case Date(ms) => Some(h.isoText(ms))
    case Str(s) => Some(s)
    case _ => None
  }

  // What it looks for in a text: numbers are written out as well.
  function SoughtInBrowser(h: Host, v: Value): Option<string> {
    if v.Num? then Some(h.numText(v.n)) else TextInBrowser(h, v)
  }

  // The ISO text of the date fails the operator, without raising.
  predicate IsoTextFails(h: Host, e: Expr, ctx: Value)
    requires DateUnderTextOperator(e, ctx)
  {
    match e
    case Contains(l, r) =>
      var text, part := TextInBrowser(h, Resolve(l, ctx)), SoughtInBrowser(h, Resolve(r, ctx));
      !(text.Some? && part.Some? && Includes(h.lower(text.value), h.lower(part.value)))
    case StartsWith(l, r) =>
      var text, part := TextInBrowser(h, Resolve(l, ctx)), TextInBrowser(h, Resolve(r, ctx));
      !(text.Some? && part.Some? && HasPrefix(h.lower(text.value), h.lower(part.value)))
    case EndsWith(l, r) =>
      var text, part := TextInBrowser(h, Resolve(l, ctx)), TextInBrowser(h, Resolve(r, ctx));
      !(text.Some? && part.Some? && HasSuffix(h.lower(text.value), h.lower(part.value)))
    case Matches(o, pattern) =>
      |pattern| <= MAX_PATTERN && h.compiles(pattern) && !h.matches(pattern, h.isoText(Resolve(o, ctx).ms))
  }

  lemma TextInBrowserIsShipped(h: Host, v: Value)
    ensures TextInBrowser(h, v) == if Shipped(h, v).Str? then Some(Shipped(h, v).s) else None
    ensures SoughtInBrowser(h, v) == if Shipped(h, v).Str? || Shipped(h, v).Num? then Some(TextOf(h, Shipped(h, v))) else None
    ensures Shipped(h, v).Arr? == v.Arr?
  {
  }

  lemma ServerTextFails(h: Host, e: Expr, ctx: Value)
    requires DateUnderTextOperator(e, ctx)
    ensures EvalLeaf(h, e, ctx) == Success(false)
  {
    hide Resolve, HasPrefix, HasSuffix, Includes;
  }

  /**
   * An operator on text never holds of a date on the server, so the sides agree
   * exactly where the date's ISO text fails it: as the prefix, suffix or part
   * sought, or by the pattern, which must be short enough and compile.
   */
  lemma TextOperatorAgreesIff(h: Host, e: Expr, ctx: Value)
    requires Shippable(h, ctx) && SchemaLeaf(e) && DateUnderTextOperator(e, ctx)
    ensures EvalLeaf(h, e, Shipped(h, ctx)) == EvalLeaf(h, e, ctx) <==> IsoTextFails(h, e, ctx)
  {
    hide Resolve, Shipped, Shippable, SchemaLiteral, HasPrefix, HasSuffix, Includes, TextOf;
    ServerTextFails(h, e, ctx);
    if e.Matches? {
      ResolveShipped(h, e.subject, ctx);
      TextInBrowserIsShipped(h, Resolve(e.subject, ctx));
    } else {
      ResolveShipped(h, e.left, ctx);
      ResolveShipped(h, e.right, ctx);
      TextInBrowserIsShipped(h, Resolve(e.left, ctx));
      TextInBrowserIsShipped(h, Resolve(e.right, ctx));
    }
  }
}
