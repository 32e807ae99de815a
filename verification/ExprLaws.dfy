/**
 * What the operators of the expression language mean, stated without the
 * evaluator's own steps (`packages/expr/src/index.ts`).
 */
module ExprLaws {
  import opened Wrappers
  import opened Values
  import opened Expr

  function Size(es: ExprList): nat {
    match es
    case Nil => 0
    case Cons(_, tail) => 1 + Size(tail)
  }

  function At(es: ExprList, i: nat): Expr
    requires i < Size(es)
  {
    if i == 0 then es.head else At(es.tail, i - 1)
  }

  // The first of the list that does not come out as `expected`.
  ghost predicate FirstOther(h: Host, es: ExprList, ctx: Value, depth: nat, expected: bool, i: nat) {
    && i < Size(es)
    && Evaluate(h, At(es, i), ctx, depth) != Success(expected)
    && forall j | 0 <= j < i :: Evaluate(h, At(es, j), ctx, depth) == Success(expected)
  }

  // The outcome of the first that is not as expected, or the expected one if all are.
  ghost predicate DecidedByFirstOther(h: Host, es: ExprList, ctx: Value, depth: nat, expected: bool, outcome: Result<bool, Error>) {
    || (outcome == Success(expected) && forall i | 0 <= i < Size(es) :: Evaluate(h, At(es, i), ctx, depth) == Success(expected))
    || (exists i :: FirstOther(h, es, ctx, depth, expected, i) && outcome == Evaluate(h, At(es, i), ctx, depth))
  }

  /**
   * `and` is decided by its first clause that does not hold, `or` by its first
   * that does, an error counting as either: what comes later does not matter.
   */
  lemma {:induction false} JoinsStopEarly(h: Host, es: ExprList, ctx: Value, depth: nat)
    ensures DecidedByFirstOther(h, es, ctx, depth, true, EvaluateAll(h, es, ctx, depth))
    ensures DecidedByFirstOther(h, es, ctx, depth, false, EvaluateSome(h, es, ctx, depth))
    decreases es
  {
    match es {
      case Nil =>
      case Cons(head, tail) =>
        JoinsStopEarly(h, tail, ctx, depth);
        hide Evaluate;
        DecidedFromTail(h, es, ctx, depth, true, EvaluateAll(h, tail, ctx, depth));
        DecidedFromTail(h, es, ctx, depth, false, EvaluateSome(h, tail, ctx, depth));
    }
  }

  lemma FirstOtherFromTail(h: Host, es: ExprList, ctx: Value, depth: nat, expected: bool, i: nat)
    requires es.Cons? && Evaluate(h, es.head, ctx, depth) == Success(expected)
    requires FirstOther(h, es.tail, ctx, depth, expected, i)
    ensures FirstOther(h, es, ctx, depth, expected, i + 1) && At(es, i + 1) == At(es.tail, i)
  {
    hide Evaluate;
    forall j | 0 <= j < i + 1
      ensures Evaluate(h, At(es, j), ctx, depth) == Success(expected)
    {
      if j > 0 {
        assert At(es, j) == At(es.tail, j - 1);
      }
    }
  }

  lemma DecidedFromTail(h: Host, es: ExprList, ctx: Value, depth: nat, expected: bool, outcome: Result<bool, Error>)
    requires es.Cons? && DecidedByFirstOther(h, es.tail, ctx, depth, expected, outcome)
    ensures var first := Evaluate(h, es.head, ctx, depth);
            DecidedByFirstOther(h, es, ctx, depth, expected, if first == Success(expected) then outcome else first)
  {
    hide Evaluate;
    var first := Evaluate(h, es.head, ctx, depth);
    assert At(es, 0) == es.head;
    if first != Success(expected) {
      assert FirstOther(h, es, ctx, depth, expected, 0);
    } else {
      assert forall i: nat | 0 < i < Size(es) :: At(es, i) == At(es.tail, i - 1);
      hide FirstOther;
      if i: nat :| FirstOther(h, es.tail, ctx, depth, expected, i) && outcome == Evaluate(h, At(es.tail, i), ctx, depth) {
        FirstOtherFromTail(h, es, ctx, depth, expected, i);
      }
    }
  }

  function Negations(es: ExprList): ExprList {
    match es
    case Nil => Nil
    case Cons(head, tail) => Cons(Not(head), Negations(tail))
  }

  /**
   * De Morgan's laws hold, errors and the depth limit included, except of an empty
   * join at the limit: negated it is too deep, and its dual is not.
   */
  lemma DeMorgan(h: Host, es: ExprList, ctx: Value, depth: nat)
    ensures Evaluate(h, Not(And(es)), ctx, depth) == Evaluate(h, Or(Negations(es)), ctx, depth) <==> es != Nil || depth != MAX_DEPTH
    ensures Evaluate(h, Not(Or(es)), ctx, depth) == Evaluate(h, And(Negations(es)), ctx, depth) <==> es != Nil || depth != MAX_DEPTH
  {
    if depth < MAX_DEPTH {
      NegationsDual(h, es, ctx, depth + 1);
    } else if depth == MAX_DEPTH && es != Nil {
      assert Evaluate(h, Not(es.head), ctx, depth + 1) == Failure(TooDeep);
    }
  }

  function Opposite(r: Result<bool, Error>): Result<bool, Error> {
    match r
    case Success(b) => Success(!b)
    case Failure(error) => Failure(error)
  }

  lemma {:induction false} NegationsDual(h: Host, es: ExprList, ctx: Value, depth: nat)
    requires depth <= MAX_DEPTH
    ensures EvaluateSome(h, Negations(es), ctx, depth) == Opposite(EvaluateAll(h, es, ctx, depth + 1))
    ensures EvaluateAll(h, Negations(es), ctx, depth) == Opposite(EvaluateSome(h, es, ctx, depth + 1))
    decreases es
  {
    match es {
      case Nil =>
      case Cons(head, tail) =>
        assert Evaluate(h, Not(head), ctx, depth) == Opposite(Evaluate(h, head, ctx, depth + 1));
        NegationsDual(h, tail, ctx, depth);
        hide Evaluate;
    }
  }

  /**
   * The four orderings of two values belong together: they raise together; none
   * holds where a value is absent or the difference is not a number; and
   * otherwise `gt` is the opposite of `lte`, `lt` of `gte`, and not both hold.
   */
  lemma OrderingsBelongTogether(h: Host, a: Value, b: Value)
    ensures var gt, gte, lt, lte := Ordered(h, a, b, Gt), Ordered(h, a, b, Gte), Ordered(h, a, b, Lt), Ordered(h, a, b, Lte);
            && gt.Success? == gte.Success? == lt.Success? == lte.Success?
            && (gt.Success? ==>
                  var c := Compare(h, a, b, Gt).value;
                  if c == None || c == Some(NaN)
                  then !gt.value && !gte.value && !lt.value && !lte.value
                  else gt.value == !lte.value && lt.value == !gte.value && !(gt.value && lt.value))
  {
    OrderingOnlyNamesTheError(h, a, b, Gt, Gte);
    OrderingOnlyNamesTheError(h, a, b, Gt, Lt);
    OrderingOnlyNamesTheError(h, a, b, Gt, Lte);
    hide Compare;
  }

  /** A value is absent, or else comparing it with anything orders the two or raises. */
  lemma AbsentIsNotCompared(h: Host, a: Value, b: Value, ordering: Ordering)
    ensures Compare(h, a, b, ordering) == Success(None) <==> Absent(a) || Absent(b)
  {
    hide CompareAlike, Minus;
  }

  // Neither undefined nor an object, an array, or not a number.
  predicate Equatable(v: Value) {
    !v.Undefined? && !v.Arr? && !v.Obj? && !v.InvalidDate? && v != Num(NaN)
  }

  /**
   * Loose equality is symmetric, reflexive on exactly the scalars that are
   * numbers, strings, booleans, dates or null, and it never takes truth for
   * equality: a boolean equals only itself, and null only null.
   */
  lemma LooseEqualityLaws(h: Host, a: Value, b: Value)
    ensures LooseEqual(h, a, b) == LooseEqual(h, b, a)
    ensures LooseEqual(h, a, a) <==> Equatable(a)
    ensures a.Bool? || a.Null? ==> (LooseEqual(h, a, b) <==> a == b)
  {
  }
}
