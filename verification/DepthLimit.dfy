/**
 * What the depth limit of `evaluate` does, against evaluation without a limit
 * (`packages/expr/src/index.ts`).
 */
module DepthLimit {
  import opened Wrappers
  import opened Values
  import opened Expr

  /* ------------------------------------------------------------ without a limit */

  function Unlimited(h: Host, e: Expr, ctx: Value): Result<bool, Error>
    decreases e
  {
    match e
    case And(all) => UnlimitedAll(h, all, ctx)
    case Or(some) => UnlimitedSome(h, some, ctx)
    case Not(sub) =>
      (match Unlimited(h, sub, ctx)
       case Success(b) => Success(!b)
       case Failure(error) => Failure(error))
    case _ => EvalLeaf(h, e, ctx)
  }

  function UnlimitedAll(h: Host, es: ExprList, ctx: Value): Result<bool, Error>
    decreases es
  {
    match es
    case Nil => Success(true)
    case Cons(head, tail) =>
      var first := Unlimited(h, head, ctx);
      if first == Success(true) then UnlimitedAll(h, tail, ctx) else first
  }

  function UnlimitedSome(h: Host, es: ExprList, ctx: Value): Result<bool, Error>
    decreases es
  {
    match es
    case Nil => Success(false)
    case Cons(head, tail) =>
      var first := Unlimited(h, head, ctx);
      if first == Success(false) then UnlimitedSome(h, tail, ctx) else first
  }

  function Deeper(m: nat, n: nat): nat {
    if m < n then n else m
  }

  // How many levels down that evaluation goes: what a join does not come to does not count.
  function Visited(h: Host, e: Expr, ctx: Value): nat
    decreases e
  {
    match e
    case And(all) => VisitedIn(h, all, ctx, true)
    case Or(some) => VisitedIn(h, some, ctx, false)
    case Not(sub) => 1 + Visited(h, sub, ctx)
    case _ => 0
  }

  // Of the clauses of a join, which goes on for as long as they come out as `expected`.
  function VisitedIn(h: Host, es: ExprList, ctx: Value, expected: bool): nat
    decreases es
  {
    match es
    case Nil => 0
    case Cons(head, tail) =>
      var here := 1 + Visited(h, head, ctx);
      if Unlimited(h, head, ctx) == Success(expected) then Deeper(here, VisitedIn(h, tail, ctx, expected)) else here
  }

  /* ------------------------------------------------------------ with it */

  lemma LeafIsNotTooDeep(h: Host, e: Expr, ctx: Value)
    requires !e.And? && !e.Or? && !e.Not?
    ensures EvalLeaf(h, e, ctx) != Failure(TooDeep)
  {
    hide Resolve, CompareAlike, LooseEqual, Member, ContainsText, TimesBelow, IsEmpty, Present, ToTime, AtMost;
  }

  /**
   * Evaluation gives up for depth if and only if, without a limit, it would come
   * to a subexpression more than 20 levels down; otherwise the limit changes nothing.
   */
  lemma {:induction false} TooDeepIff(h: Host, e: Expr, ctx: Value, depth: nat)
    ensures Evaluate(h, e, ctx, depth) ==
            if depth + Visited(h, e, ctx) > MAX_DEPTH then Failure(TooDeep) else Unlimited(h, e, ctx)
    ensures Unlimited(h, e, ctx) != Failure(TooDeep)
    decreases e
  {
    hide EvalLeaf;
    match e {
      case And(all) => JoinTooDeepIff(h, all, ctx, depth);
      case Or(some) => JoinTooDeepIff(h, some, ctx, depth);
      case Not(sub) => TooDeepIff(h, sub, ctx, depth + 1);
      case _ => LeafIsNotTooDeep(h, e, ctx);
    }
  }

  lemma {:induction false} JoinTooDeepIff(h: Host, es: ExprList, ctx: Value, depth: nat)
    ensures depth <= MAX_DEPTH ==>
              EvaluateAll(h, es, ctx, depth + 1) ==
              if depth + VisitedIn(h, es, ctx, true) > MAX_DEPTH then Failure(TooDeep) else UnlimitedAll(h, es, ctx)
    ensures depth <= MAX_DEPTH ==>
              EvaluateSome(h, es, ctx, depth + 1) ==
              if depth + VisitedIn(h, es, ctx, false) > MAX_DEPTH then Failure(TooDeep) else UnlimitedSome(h, es, ctx)
    ensures UnlimitedAll(h, es, ctx) != Failure(TooDeep) && UnlimitedSome(h, es, ctx) != Failure(TooDeep)
    decreases es
  {
    hide Evaluate, Unlimited, Visited;
    match es {
      case Nil =>
      case Cons(head, tail) =>
        TooDeepIff(h, head, ctx, depth + 1);
        JoinTooDeepIff(h, tail, ctx, depth);
    }
  }

  /* ------------------------------------------------------------ shallow expressions */

  function Height(e: Expr): nat
    decreases e
  {
    match e
    case And(all) => HeightIn(all)
    case Or(some) => HeightIn(some)
    case Not(sub) => 1 + Height(sub)
    case _ => 0
  }

  function HeightIn(es: ExprList): nat
    decreases es
  {
    match es
    case Nil => 0
    case Cons(head, tail) => Deeper(1 + Height(head), HeightIn(tail))
  }

  lemma {:induction false} VisitsNoDeeper(h: Host, e: Expr, ctx: Value)
    ensures Visited(h, e, ctx) <= Height(e)
    decreases e
  {
    match e {
      case And(all) => VisitsNoDeeperIn(h, all, ctx, true);
      case Or(some) => VisitsNoDeeperIn(h, some, ctx, false);
      case Not(sub) => VisitsNoDeeper(h, sub, ctx);
      case _ =>
    }
  }

  lemma {:induction false} VisitsNoDeeperIn(h: Host, es: ExprList, ctx: Value, expected: bool)
    ensures VisitedIn(h, es, ctx, expected) <= HeightIn(es)
    decreases es
  {
    match es {
      case Nil =>
      case Cons(head, tail) =>
        VisitsNoDeeper(h, head, ctx);
        VisitsNoDeeperIn(h, tail, ctx, expected);
    }
  }

  /** An expression 20 levels high or less never raises for depth, whatever the context. */
  lemma ShallowIsNeverTooDeep(h: Host, e: Expr, ctx: Value)
    requires Height(e) <= 20
    ensures Evaluate(h, e, ctx, 0) == Unlimited(h, e, ctx)
  {
    VisitsNoDeeper(h, e, ctx);
    TooDeepIff(h, e, ctx, 0);
  }

  function Nots(k: nat, e: Expr): Expr {
    if k == 0 then e else Not(Nots(k - 1, e))
  }

  lemma {:induction false} NotsVisit(h: Host, k: nat, e: Expr, ctx: Value)
    ensures Visited(h, Nots(k, e), ctx) == k + Visited(h, e, ctx)
  {
    if k > 0 {
      NotsVisit(h, k - 1, e, ctx);
    }
  }

  /** The bound is met: under k times `not`, `always` is too deep exactly for more than 20. */
  lemma TwentyNotsAreNotTooDeep(h: Host, k: nat, ctx: Value)
    ensures Evaluate(h, Nots(k, Always), ctx, 0) == Failure(TooDeep) <==> k > 20
  {
    NotsVisit(h, k, Always, ctx);
    TooDeepIff(h, Nots(k, Always), ctx, 0);
  }
}
