/**
 * What an expression reads (`referencedVars` in `packages/expr/src/index.ts`),
 * and that evaluation depends on nothing else.
 */
module ExprFootprint {
  import Text
  import opened Values
  import opened Expr

  function OperandVars(o: Operand): set<string> {
    match o
    case Var(path) => {path}
    case Literal(_) => {}
  }

  // The paths an expression names.
  function Vars(e: Expr): set<string> {
    match e
    case Always => {}
    case And(all) => VarsIn(all)
    case Or(some) => VarsIn(some)
    case Not(sub) => Vars(sub)
    case Exists(o) => OperandVars(o)
    case Empty(o) => OperandVars(o)
    case Matches(o, _) => OperandVars(o)
    case WithinLast(o, _) => OperandVars(o)
    case Compared(_, l, r) => OperandVars(l) + OperandVars(r)
    case _ => OperandVars(e.left) + OperandVars(e.right)
  }

  function VarsIn(es: ExprList): set<string> {
    match es
    case Nil => {}
    case Cons(head, tail) => Vars(head) + VarsIn(tail)
  }

  /** `referencedVars`, as the set it gathers. */
  method ReferencedVars(e: Expr) returns (vars: set<string>)
    ensures vars == Vars(e)
  {
    vars := Gather(e, {});
  }

  method GatherOperand(o: Operand, found: set<string>) returns (vars: set<string>)
    ensures vars == found + OperandVars(o)
  {
    vars := found;
    if o.Var? {
      vars := vars + {o.path};
    }
  }

  method Gather(e: Expr, found: set<string>) returns (vars: set<string>)
    ensures vars == found + Vars(e)
    decreases e
  {
    vars := found;
    match e {
      case Always =>
      case And(all) => vars := GatherEach(all, vars);
      case Or(some) => vars := GatherEach(some, vars);
      case Not(sub) => vars := Gather(sub, vars);
      case Exists(o) => vars := GatherOperand(o, vars);
      case Empty(o) => vars := GatherOperand(o, vars);
      case Matches(o, _) => vars := GatherOperand(o, vars);
      case WithinLast(o, _) => vars := GatherOperand(o, vars);
      case _ =>
        vars := GatherOperand(e.left, vars);
        vars := GatherOperand(e.right, vars);
    }
  }

  method GatherEach(es: ExprList, found: set<string>) returns (vars: set<string>)
    ensures vars == found + VarsIn(es)
    decreases es
  {
    vars := found;
    match es {
      case Nil =>
      case Cons(head, tail) =>
        vars := Gather(head, vars);
        vars := GatherEach(tail, vars);
    }
  }

  /* ------------------------------------------------------------ the law */

  predicate ReadsNow(e: Expr) {
    match e
    case WithinLast(_, _) => true
    case And(all) => SomeReadsNow(all)
    case Or(some) => SomeReadsNow(some)
    case Not(sub) => ReadsNow(sub)
    case _ => false
  }

  predicate SomeReadsNow(es: ExprList) {
    match es
    case Nil => false
    case Cons(head, tail) => ReadsNow(head) || SomeReadsNow(tail)
  }

  // The contexts have the same value at each of the paths.
  ghost predicate AgreeOn(paths: set<string>, ctx: Value, other: Value) {
    forall p | p in paths :: PathValue(ctx, p) == PathValue(other, p)
  }

  // The context says what time it is.
  predicate HasNow(h: Host, ctx: Value) {
    ToTime(h, PathValue(ctx, "now")).Some?
  }

  lemma ResolveAgrees(o: Operand, ctx: Value, other: Value)
    requires AgreeOn(OperandVars(o), ctx, other)
    ensures Resolve(o, ctx) == Resolve(o, other)
  {
  }

  lemma AgreeOnParts(a: set<string>, b: set<string>, ctx: Value, other: Value)
    requires AgreeOn(a + b, ctx, other)
    ensures AgreeOn(a, ctx, other) && AgreeOn(b, ctx, other)
  {
  }

  lemma LeafReadsItsVars(h: Host, clock: int, e: Expr, ctx: Value, other: Value)
    requires !e.And? && !e.Or? && !e.Not?
    requires AgreeOn(Vars(e), ctx, other)
    requires e.WithinLast? ==> HasNow(h, ctx) && PathValue(ctx, "now") == PathValue(other, "now")
    ensures EvalLeaf(h, e, ctx) == EvalLeaf(h.(clock := clock), e, other)
  {
    hide AgreeOn, Resolve;
    if e.Exists? || e.Empty? {
      ResolveAgrees(e.operand, ctx, other);
    } else if e.Matches? || e.WithinLast? {
      ResolveAgrees(e.subject, ctx, other);
      hide PathValue;
    } else if e != Always {
      AgreeOnParts(OperandVars(e.left), OperandVars(e.right), ctx, other);
      ResolveAgrees(e.left, ctx, other);
      ResolveAgrees(e.right, ctx, other);
      ClockIsNotRead(h, clock, e, other);
      EvalReadsOperands(h, e, ctx, other);
    }
  }

  lemma ClockIsNotRead(h: Host, clock: int, e: Expr, ctx: Value)
    requires !e.And? && !e.Or? && !e.Not? && !e.WithinLast?
    ensures EvalLeaf(h.(clock := clock), e, ctx) == EvalLeaf(h, e, ctx)
  {
    hide Resolve, LooksIso, Text.TextBelow, HasPrefix, HasSuffix, Includes;
    var g := h.(clock := clock);
    forall a, b {:trigger LooseEqual(g, a, b)}
      ensures LooseEqual(g, a, b) == LooseEqual(h, a, b)
    {
    }
    forall v, items {:trigger Member(g, v, items)}
      ensures Member(g, v, items) == Member(h, v, items)
    {
    }
    hide LooseEqual, Member;
  }

  lemma EvalReadsOperands(h: Host, e: Expr, ctx: Value, other: Value)
    requires !e.And? && !e.Or? && !e.Not? && !e.WithinLast? && !e.Always? && !e.Exists? && !e.Empty? && !e.Matches?
    requires Resolve(e.left, ctx) == Resolve(e.left, other) && Resolve(e.right, ctx) == Resolve(e.right, other)
    ensures EvalLeaf(h, e, ctx) == EvalLeaf(h, e, other)
  {
    hide Resolve, Ordered, LooseEqual, Member, AsArray, ContainsText, HasPrefix, HasSuffix, TimesBelow;
  }

  /**
   * Evaluation depends only on the paths `referencedVars` lists, and for
   * `withinLast` on a present `now`: agreeing on those, two contexts and two
   * clocks give the same outcome, errors included.
   */
  lemma {:induction false} EvaluationReadsOnlyItsVars(h: Host, clock: int, e: Expr, ctx: Value, other: Value, depth: nat)
    requires AgreeOn(Vars(e), ctx, other)
    requires ReadsNow(e) ==> HasNow(h, ctx) && PathValue(ctx, "now") == PathValue(other, "now")
    ensures Evaluate(h, e, ctx, depth) == Evaluate(h.(clock := clock), e, other, depth)
    decreases e
  {
    hide AgreeOn, PathValue, EvalLeaf, HasNow;
    if e.And? {
      ListReadsOnlyItsVars(h, clock, e.all, ctx, other, depth + 1);
    } else if e.Or? {
      ListReadsOnlyItsVars(h, clock, e.some, ctx, other, depth + 1);
    } else if e.Not? {
      EvaluationReadsOnlyItsVars(h, clock, e.sub, ctx, other, depth + 1);
    } else {
      LeafReadsItsVars(h, clock, e, ctx, other);
    }
  }

  lemma {:induction false} ListReadsOnlyItsVars(h: Host, clock: int, es: ExprList, ctx: Value, other: Value, depth: nat)
    requires AgreeOn(VarsIn(es), ctx, other)
    requires SomeReadsNow(es) ==> HasNow(h, ctx) && PathValue(ctx, "now") == PathValue(other, "now")
    ensures EvaluateAll(h, es, ctx, depth) == EvaluateAll(h.(clock := clock), es, other, depth)
    ensures EvaluateSome(h, es, ctx, depth) == EvaluateSome(h.(clock := clock), es, other, depth)
    decreases es
  {
    hide AgreeOn, PathValue, Evaluate, HasNow;
    match es {
      case Nil =>
      case Cons(head, tail) =>
        AgreeOnParts(Vars(head), VarsIn(tail), ctx, other);
        EvaluationReadsOnlyItsVars(h, clock, head, ctx, other, depth);
        ListReadsOnlyItsVars(h, clock, tail, ctx, other, depth);
    }
  }
}
