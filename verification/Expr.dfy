/**
 * The expression language: ordering, loose equality and evaluation
 * (`packages/expr/src/index.ts`).
 */
module Expr {
  import opened Wrappers
  import opened Text
  import opened Values

  /* ------------------------------------------------------------ expressions */

  datatype Operand = Var(path: string) | Literal(v: Value)

  datatype Ordering = Gt | Gte | Lt | Lte

  datatype Expr =
    | Always
    | And(all: ExprList)
    | Or(some: ExprList)
    | Not(sub: Expr)
    | Exists(operand: Operand)
    | Empty(operand: Operand)
    | Compared(ordering: Ordering, left: Operand, right: Operand)
    | Eq(left: Operand, right: Operand)
    | Ne(left: Operand, right: Operand)
    | In(left: Operand, right: Operand)
    | Nin(left: Operand, right: Operand)
    | Contains(left: Operand, right: Operand)
    | StartsWith(left: Operand, right: Operand)
    | EndsWith(left: Operand, right: Operand)
    | Matches(subject: Operand, pattern: string)
    | Before(left: Operand, right: Operand)
    | After(left: Operand, right: Operand)
    | WithinLast(subject: Operand, duration: string)

  datatype ExprList = Nil | Cons(head: Expr, tail: ExprList)

  // What the language takes from its host: `Date.parse`, `toISOString`,
  // `toLowerCase`, `String(number)`, the regex engine, `parseDuration` and the clock.
  datatype Host = Host(
    parseDate: string -> Option<int>,
    isoText: int -> string,
    lower: string -> string,
    numText: Number -> string,
    compiles: string -> bool,
    matches: (string, string) -> bool,
    duration: string -> Option<Number>,
    clock: int)

  datatype Kind = NumberKind | StringKind | BooleanKind | DateKind

  datatype Error =
    | TooDeep
    | TypeError(left: Kind, right: Kind, ordering: Ordering)
    | PatternTooLong
    | InvalidPattern(pattern: string)
    | InvalidDuration(text: string)

  const MAX_DEPTH: nat := 20
  const MAX_PATTERN: nat := 500

  function Resolve(operand: Operand, ctx: Value): Value {
    match operand
    case Var(path) => PathValue(ctx, path)
    case Literal(v) => v
  }

  /* ------------------------------------------------------------ ordering */

  datatype KindOf = NoKind | Unorderable | Kinded(kind: Kind)

  function KindOfValue(v: Value): KindOf {
    match v
    case Undefined => NoKind
    case Null => NoKind
    case Date(_) => Kinded(DateKind)
    case Num(n) => if n == NaN then Unorderable else Kinded(NumberKind)
    case Bool(_) => Kinded(BooleanKind)
    case Str(_) => Kinded(StringKind)
    case InvalidDate => Unorderable
    case Arr(_) => Unorderable
    case Obj(_) => Unorderable
  }

  // What an error calls the kind: anything that cannot be ordered is a string.
  function NamedKind(k: KindOf): Kind {
    if k.Kinded? then k.kind else StringKind
  }

  predicate LooksIso(s: string) {
    && |s| >= 10
    && IsDigit(s[0]) && IsDigit(s[1]) && IsDigit(s[2]) && IsDigit(s[3]) && s[4] == '-'
    && IsDigit(s[5]) && IsDigit(s[6]) && s[7] == '-'
    && IsDigit(s[8]) && IsDigit(s[9])
    && (|s| == 10 || s[10] == 'T' || s[10] == ' ')
  }

  function ToTime(h: Host, v: Value): Option<Number> {
    match v
    case Date(ms) => Some(Fin(ms as real))
    case InvalidDate => Some(NaN)
    case Num(n) => Some(n)
    case Str(s) => (match h.parseDate(s)
                    case None => None
                    case Some(ms) => Some(Fin(ms as real)))
    case _ => None
  }

  function BoolNumber(b: bool): Number {
    if b then Fin(1.0) else ZERO
  }

  // A string that stands for an instant.
  predicate Dated(h: Host, s: string) {
    LooksIso(s) && h.parseDate(s).Some?
  }

  function CompareText(h: Host, a: string, b: string): Number {
    if LooksIso(a) && LooksIso(b) && h.parseDate(a).Some? && h.parseDate(b).Some?
    then Fin((h.parseDate(a).value - h.parseDate(b).value) as real)
    else if TextBelow(a, b) then Fin(-1.0)
    else if TextBelow(b, a) then Fin(1.0)
    else ZERO
  }

  // Values of the same kind.
  function CompareAlike(h: Host, a: Value, b: Value): Number
    requires KindOfValue(a).Kinded? && KindOfValue(a) == KindOfValue(b)
  {
    match a
    case Num(n) => Minus(n, b.n)
    case Bool(p) => Minus(BoolNumber(p), BoolNumber(b.b))
    case Date(ms) => Fin((ms - b.ms) as real)
    case Str(s) => CompareText(h, s, b.s)
  }

  // A date and a string.
  predicate Crossing(a: Value, b: Value) {
    (a.Date? && b.Str?) || (a.Str? && b.Date?)
  }

  /** `compare`. */
  function Compare(h: Host, a: Value, b: Value, ordering: Ordering): Result<Option<Number>, Error> {
    var ka, kb := KindOfValue(a), KindOfValue(b);
    if ka == NoKind || kb == NoKind then Success(None)
    else if ka == Unorderable || kb == Unorderable then Failure(TypeError(NamedKind(ka), NamedKind(kb), ordering))
    else if ka == kb then Success(Some(CompareAlike(h, a, b)))
    else if Crossing(a, b) then
      (match (ToTime(h, a), ToTime(h, b))
       case (Some(ta), Some(tb)) => Success(Some(Minus(ta, tb)))
       case _ => Failure(TypeError(ka.kind, kb.kind, ordering)))
    else Failure(TypeError(ka.kind, kb.kind, ordering))
  }

  predicate Holds(ordering: Ordering, c: Number) {
    match ordering
    case Gt => Below(ZERO, c)
    case Gte => AtMost(ZERO, c)
    case Lt => Below(c, ZERO)
    case Lte => AtMost(c, ZERO)
  }

  function Ordered(h: Host, a: Value, b: Value, ordering: Ordering): Result<bool, Error> {
    match Compare(h, a, b, ordering)
    case Failure(error) => Failure(error)
    case Success(None) => Success(false)
    case Success(Some(c)) => Success(Holds(ordering, c))
  }

  /* ------------------------------------------------------------ equality */

  // `toComparable`: a Date counts as its milliseconds, an array or object as nothing.
  function ToComparable(v: Value): Value {
    match v
    case Date(ms) => Num(Fin(ms as real))
    case InvalidDate => Num(NaN)
    case Arr(_) => Undefined
    case Obj(_) => Undefined
    case _ => v
  }

  // `String(v)`, of a number or string.
  function TextOf(h: Host, v: Value): string {
    match v
    case Num(n) => h.numText(n)
    case Str(s) => s
    case _ => ""
  }

  /** `looseEqual`. */
  predicate LooseEqual(h: Host, a: Value, b: Value) {
    var ca, cb := ToComparable(a), ToComparable(b);
    if ca == Undefined || cb == Undefined then false
    else if ca == Null || cb == Null then ca == cb
    else if ca.Str? && cb.Str? then ca == cb
    else if ca.Num? && cb.Num? then ca == cb && ca.n != NaN
    else if ca.Bool? || cb.Bool? then ca == cb
    else TextOf(h, ca) == TextOf(h, cb)
  }

  // `asArray`.
  function AsArray(v: Value): seq<Value> {
    if v.Arr? then v.items else if Absent(v) then [] else [v]
  }

  predicate Member(h: Host, v: Value, items: seq<Value>) {
    exists i | 0 <= i < |items| :: LooseEqual(h, items[i], v)
  }

  /* ------------------------------------------------------------ text */

  predicate HasPrefix(s: string, prefix: string) {
    |prefix| <= |s| && s[..|prefix|] == prefix
  }

  predicate HasSuffix(s: string, suffix: string) {
    |suffix| <= |s| && s[|s| - |suffix|..] == suffix
  }

  // `includes`.
  predicate Includes(s: string, part: string) {
    HasPrefix(s, part) || (s != "" && Includes(s[1..], part))
  }

  predicate ContainsText(h: Host, l: Value, r: Value) {
    l.Str? && (r.Str? || r.Num?) && Includes(h.lower(l.s), h.lower(TextOf(h, r)))
  }

  // `safeRegex`, then the test.
  function Matched(h: Host, subject: Value, pattern: string): Result<bool, Error> {
    if !subject.Str? then Success(false)
    else if |pattern| > MAX_PATTERN then Failure(PatternTooLong)
    else if !h.compiles(pattern) then Failure(InvalidPattern(pattern))
    else Success(h.matches(pattern, subject.s))
  }

  /* ------------------------------------------------------------ times */

  // What `withinLast` takes as the present: the context's `now`, or else the clock.
  function Present(h: Host, ctx: Value): Number {
    match ToTime(h, PathValue(ctx, "now"))
    case Some(t) => t
    case None => Fin(h.clock as real)
  }

  function Within(h: Host, subject: Value, duration: string, now: Number): Result<bool, Error> {
    match ToTime(h, subject)
    case None => Success(false)
    case Some(t) =>
      match h.duration(duration)
      case None => Failure(InvalidDuration(duration))
      case Some(ms) => Success(AtMost(Minus(now, ms), t) && AtMost(t, now))
  }

  predicate TimesBelow(h: Host, a: Value, b: Value) {
    var ta, tb := ToTime(h, a), ToTime(h, b);
    ta.Some? && tb.Some? && Below(ta.value, tb.value)
  }

  /* ------------------------------------------------------------ evaluation */

  predicate IsEmpty(v: Value) {
    Absent(v) || v == Str("") || v == Arr([])
  }

  // An expression without subexpressions, given the values of its operands.
  function EvalLeaf(h: Host, e: Expr, ctx: Value): Result<bool, Error>
    requires !e.And? && !e.Or? && !e.Not?
  {
    match e
    case Always => Success(true)
    case Exists(o) => Success(!Absent(Resolve(o, ctx)))
    case Empty(o) => Success(IsEmpty(Resolve(o, ctx)))
    case Compared(ordering, l, r) => Ordered(h, Resolve(l, ctx), Resolve(r, ctx), ordering)
    case Eq(l, r) => Success(LooseEqual(h, Resolve(l, ctx), Resolve(r, ctx)))
    case Ne(l, r) => Success(!LooseEqual(h, Resolve(l, ctx), Resolve(r, ctx)))
    case In(l, r) => Success(Member(h, Resolve(l, ctx), AsArray(Resolve(r, ctx))))
    case Nin(l, r) => Success(!Member(h, Resolve(l, ctx), AsArray(Resolve(r, ctx))))
    case Contains(l, r) =>
      var lv, rv := Resolve(l, ctx), Resolve(r, ctx);
      Success(if lv.Arr? then Member(h, rv, lv.items) else ContainsText(h, lv, rv))
    case StartsWith(l, r) =>
      var lv, rv := Resolve(l, ctx), Resolve(r, ctx);
      Success(lv.Str? && rv.Str? && HasPrefix(h.lower(lv.s), h.lower(rv.s)))
    case EndsWith(l, r) =>
      var lv, rv := Resolve(l, ctx), Resolve(r, ctx);
      Success(lv.Str? && rv.Str? && HasSuffix(h.lower(lv.s), h.lower(rv.s)))
    case Matches(o, pattern) => Matched(h, Resolve(o, ctx), pattern)
    case Before(l, r) => Success(TimesBelow(h, Resolve(l, ctx), Resolve(r, ctx)))
    case After(l, r) => Success(TimesBelow(h, Resolve(r, ctx), Resolve(l, ctx)))
    case WithinLast(o, iso) => Within(h, Resolve(o, ctx), iso, Present(h, ctx))
  }

  /** `evaluate`. */
  function Evaluate(h: Host, e: Expr, ctx: Value, depth: nat): Result<bool, Error>
    decreases e
  {
    if depth > MAX_DEPTH then Failure(TooDeep)
    else
      match e
      case And(all) => EvaluateAll(h, all, ctx, depth + 1)
      case Or(some) => EvaluateSome(h, some, ctx, depth + 1)
      case Not(sub) =>
        (match Evaluate(h, sub, ctx, depth + 1)
         case Success(b) => Success(!b)
         case Failure(error) => Failure(error))
      case _ => EvalLeaf(h, e, ctx)
  }

  // `every`: stops at the first that fails.
  function EvaluateAll(h: Host, es: ExprList, ctx: Value, depth: nat): Result<bool, Error>
    decreases es
  {
    match es
    case Nil => Success(true)
    case Cons(head, tail) =>
      var first := Evaluate(h, head, ctx, depth);
      if first == Success(true) then EvaluateAll(h, tail, ctx, depth) else first
  }

  // `some`: stops at the first that holds.
  function EvaluateSome(h: Host, es: ExprList, ctx: Value, depth: nat): Result<bool, Error>
    decreases es
  {
    match es
    case Nil => Success(false)
    case Cons(head, tail) =>
      var first := Evaluate(h, head, ctx, depth);
      if first == Success(false) then EvaluateSome(h, tail, ctx, depth) else first
  }

  /* ------------------------------------------------------------ laws of the order */

  lemma MinusIsAntisymmetric(a: Number, b: Number)
    ensures Minus(b, a) == Negated(Minus(a, b))
  {
  }

  lemma CompareTextIsAntisymmetric(h: Host, a: string, b: string)
    ensures CompareText(h, b, a) == Negated(CompareText(h, a, b))
  {
    hide LooksIso, TextBelow;
    TextTrichotomy(a, b);
  }

  lemma CompareAlikeIsAntisymmetric(h: Host, a: Value, b: Value)
    requires KindOfValue(a).Kinded? && KindOfValue(a) == KindOfValue(b)
    ensures CompareAlike(h, b, a) == Negated(CompareAlike(h, a, b))
  {
    hide CompareText, Minus, Negated;
    match a {
      case Num(n) => MinusIsAntisymmetric(n, b.n);
      case Bool(p) => MinusIsAntisymmetric(BoolNumber(p), BoolNumber(b.b));
      case Str(s) => CompareTextIsAntisymmetric(h, s, b.s);
      case Date(_) => DatesAreAntisymmetric(h, a, b);
    }
  }

  lemma DatesAreAntisymmetric(h: Host, a: Value, b: Value)
    requires a.Date? && b.Date?
    ensures CompareAlike(h, b, a) == Negated(CompareAlike(h, a, b))
  {
  }

  lemma CompareOfAlike(h: Host, a: Value, b: Value, ordering: Ordering)
    requires KindOfValue(a).Kinded? && KindOfValue(a) == KindOfValue(b)
    ensures Compare(h, a, b, ordering) == Success(Some(CompareAlike(h, a, b)))
  {
    hide CompareAlike;
  }

  lemma CompareOfCrossing(h: Host, a: Value, b: Value, ordering: Ordering)
    requires Crossing(a, b) && ToTime(h, a).Some? && ToTime(h, b).Some?
    ensures Compare(h, a, b, ordering) == Success(Some(Minus(ToTime(h, a).value, ToTime(h, b).value)))
  {
    hide ToTime, Minus;
  }

  // Neither of the two: no order at all.
  lemma CompareOfOthers(h: Host, a: Value, b: Value, ordering: Ordering)
    requires !(KindOfValue(a).Kinded? && KindOfValue(a) == KindOfValue(b))
    requires Crossing(a, b) ==> ToTime(h, a) == None || ToTime(h, b) == None
    ensures Compare(h, a, b, ordering) ==
            if Absent(a) || Absent(b) then Success(None)
            else Failure(TypeError(NamedKind(KindOfValue(a)), NamedKind(KindOfValue(b)), ordering))
  {
    hide ToTime, Minus, CompareAlike;
  }

  /** Swapping the operands swaps the sign, or the kinds an error names. */
  lemma CompareIsAntisymmetric(h: Host, a: Value, b: Value, ordering: Ordering)
    ensures match Compare(h, a, b, ordering)
            case Failure(error) => error.TypeError? && Compare(h, b, a, ordering) == Failure(TypeError(error.right, error.left, ordering))
            case Success(None) => Compare(h, b, a, ordering) == Success(None)
            case Success(Some(c)) => Compare(h, b, a, ordering) == Success(Some(Negated(c)))
  {
    hide Compare, CompareAlike, Minus, Negated;
    if KindOfValue(a).Kinded? && KindOfValue(a) == KindOfValue(b) {
      CompareAlikeIsAntisymmetric(h, a, b);
      CompareOfAlike(h, a, b, ordering);
      CompareOfAlike(h, b, a, ordering);
    } else if ToTime(h, a).Some? && ToTime(h, b).Some? && Crossing(a, b) {
      MinusIsAntisymmetric(ToTime(h, a).value, ToTime(h, b).value);
      CompareOfCrossing(h, a, b, ordering);
      CompareOfCrossing(h, b, a, ordering);
    } else {
      CompareOfOthers(h, a, b, ordering);
      CompareOfOthers(h, b, a, ordering);
    }
  }

  // The ordering with its operands exchanged.
  function Flipped(ordering: Ordering): Ordering {
    match ordering
    case Gt => Lt
    case Gte => Lte
    case Lt => Gt
    case Lte => Gte
  }

  lemma FlippedSign(ordering: Ordering, c: Number)
    ensures Holds(Flipped(ordering), Negated(c)) == Holds(ordering, c)
  {
  }

  /** `a > b` is `b < a`, and `a >= b` is `b <= a`: they hold together and raise together. */
  lemma FlippedOperandsAgree(h: Host, a: Value, b: Value, ordering: Ordering)
    ensures match Ordered(h, a, b, ordering)
            case Success(holds) => Ordered(h, b, a, Flipped(ordering)) == Success(holds)
            case Failure(error) =>
              error.TypeError? && Ordered(h, b, a, Flipped(ordering)) == Failure(TypeError(error.right, error.left, Flipped(ordering)))
  {
    hide Compare, Holds, Negated;
    CompareIsAntisymmetric(h, a, b, ordering);
    var c := Compare(h, a, b, ordering);
    if c.Success? && c.value.Some? {
      FlippedSign(ordering, c.value.value);
    }
    OrderingOnlyNamesTheError(h, b, a, ordering, Flipped(ordering));
  }

  lemma OrderingOnlyNamesTheError(h: Host, a: Value, b: Value, ordering: Ordering, other: Ordering)
    ensures match Compare(h, a, b, ordering)
            case Success(c) => Compare(h, a, b, other) == Success(c)
            case Failure(error) =>
              error.TypeError? && Compare(h, a, b, other) == Failure(TypeError(error.left, error.right, other))
  {
  }

  predicate AtMostText(h: Host, a: string, b: string) {
    AtMost(CompareText(h, a, b), ZERO)
  }

  // What decides: two instants by time, and otherwise the texts.
  lemma AtMostTextIs(h: Host, a: string, b: string)
    ensures AtMostText(h, a, b) <==>
            if Dated(h, a) && Dated(h, b) then h.parseDate(a).value <= h.parseDate(b).value
            else a == b || TextBelow(a, b)
  {
    TextTrichotomy(a, b);
    hide LooksIso, TextBelow;
  }

  ghost predicate TransitiveOn(h: Host, s: iset<string>) {
    forall a, b, c | a in s && b in s && c in s && AtMostText(h, a, b) && AtMostText(h, b, c) :: AtMostText(h, a, c)
  }

  // Wherever a text that is no instant falls between the texts of two, the first is the earlier.
  ghost predicate TimesFollowTexts(h: Host, s: iset<string>) {
    forall p, u, q | p in s && u in s && q in s && Dated(h, p) && Dated(h, q) && !Dated(h, u) && TextBelow(p, u) && TextBelow(u, q) ::
      h.parseDate(p).value < h.parseDate(q).value
  }

  /** On any set of strings the order is transitive if and only if times follow texts across whatever lies between. */
  lemma TextOrderTransitiveIff(h: Host, s: iset<string>)
    ensures TransitiveOn(h, s) <==> TimesFollowTexts(h, s)
  {
    hide AtMostText, Dated, TextBelow;
    if TransitiveOn(h, s) {
      forall p, u, q | p in s && u in s && q in s && Dated(h, p) && Dated(h, q) && !Dated(h, u) && TextBelow(p, u) && TextBelow(u, q)
        ensures h.parseDate(p).Some? && h.parseDate(q).Some? && h.parseDate(p).value < h.parseDate(q).value
      {
        DatedParses(h, p);
        DatedParses(h, q);
        if h.parseDate(q).value <= h.parseDate(p).value {
          TextOrderCycles(h, p, u, q);
        }
      }
    }
    if TimesFollowTexts(h, s) {
      forall a, b, c | a in s && b in s && c in s && AtMostText(h, a, b) && AtMostText(h, b, c)
        ensures AtMostText(h, a, c)
      {
        TextOrderTransitive(h, s, a, b, c);
      }
    }
  }

  lemma DatedParses(h: Host, s: string)
    requires Dated(h, s)
    ensures h.parseDate(s).Some?
  {
  }

  lemma TextOrderTransitive(h: Host, s: iset<string>, a: string, b: string, c: string)
    requires TimesFollowTexts(h, s) && a in s && b in s && c in s
    requires AtMostText(h, a, b) && AtMostText(h, b, c)
    ensures AtMostText(h, a, c)
  {
    AtMostTextIs(h, a, b);
    AtMostTextIs(h, b, c);
    AtMostTextIs(h, a, c);
    TextTrichotomy(a, c);
    if TextBelow(a, b) && TextBelow(b, c) {
      TextTransitive(a, b, c);
    }
    hide AtMostText, TextBelow, LooksIso;
  }

  /**
   * Where they do not, the three close a cycle: the second instant is not after
   * the first, yet the text between them puts it later.
   */
  lemma TextOrderCycles(h: Host, p: string, u: string, q: string)
    requires Dated(h, p) && Dated(h, q) && h.parseDate(q).value <= h.parseDate(p).value
    requires !Dated(h, u) && TextBelow(p, u) && TextBelow(u, q)
    ensures AtMostText(h, q, p) && AtMostText(h, p, u) && AtMostText(h, u, q) && !AtMostText(h, q, u)
    ensures h.parseDate(q).value < h.parseDate(p).value ==> !AtMostText(h, p, q)
  {
    AtMostTextIs(h, q, p);
    AtMostTextIs(h, p, q);
    AtMostTextIs(h, p, u);
    AtMostTextIs(h, u, q);
    AtMostTextIs(h, q, u);
    TextTrichotomy(u, q);
    hide AtMostText, TextBelow, LooksIso;
  }

  /** Such strings exist: 09:00 at Greenwich, a time that does not parse, and 10:00 two hours further east. */
  lemma SomeTextsCycle(h: Host)
    requires h.parseDate("2026-01-02T09:00Z") == Some(1767344400000)
    requires h.parseDate("2026-01-02T09:99Z") == None
    requires h.parseDate("2026-01-02T10:00+02:00") == Some(1767340800000)
    ensures exists p, u, q {:trigger AtMostText(h, p, u), AtMostText(h, u, q)} ::
              AtMostText(h, p, u) && AtMostText(h, u, q) && !AtMostText(h, p, q)
  {
    hide TextBelow, AtMostText, LooksIso;
    var p, u, q := "2026-01-02T09:00Z", "2026-01-02T09:99Z", "2026-01-02T10:00+02:00";
    ExampleTexts(p, u, q);
    TextOrderCycles(h, p, u, q);
  }

  lemma ExampleTexts(p: string, u: string, q: string)
    requires p == "2026-01-02T09:00Z" && u == "2026-01-02T09:99Z" && q == "2026-01-02T10:00+02:00"
    ensures LooksIso(p) && LooksIso(q) && TextBelow(p, u) && TextBelow(u, q)
  {
    hide TextBelow;
    BelowAt(p, u, 14);
    BelowAt(u, q, 11);
  }
}
