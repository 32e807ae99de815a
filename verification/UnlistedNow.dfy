/**
 * `withinLast` reads `now`, which `referencedVars` does not list: exactly which
 * clauses depend on it (`packages/expr/src/index.ts`).
 */
module UnlistedNow {
  import opened Wrappers
  import opened Text
  import opened Values
  import opened Expr
  import opened ExprFootprint

  /* ------------------------------------------------------------ the window */

  // `t >= now - ms && t <= now`.
  predicate InWindow(ms: Number, t: Number, now: Number) {
    AtMost(Minus(now, ms), t) && AtMost(t, now)
  }

  // Some present has t within the last ms.
  predicate CanFallWithin(ms: Number, t: Number) {
    match ms
    case Fin(r) => if r >= 0.0 then t != NaN else t == PosInf || t == NegInf
    case PosInf => t != NaN && t != PosInf
    case NegInf => t == PosInf
    case NaN => false
  }

  function PresentFor(ms: Number, t: Number): Number {
    if ms == PosInf && t == NegInf then ZERO else t
  }

  lemma CanFallWithinIff(ms: Number, t: Number)
    ensures CanFallWithin(ms, t) <==> exists now :: InWindow(ms, t, now)
    ensures CanFallWithin(ms, t) ==> InWindow(ms, t, PresentFor(ms, t))
    ensures !InWindow(ms, t, NaN)
  {
    assert CanFallWithin(ms, t) ==> InWindow(ms, t, PresentFor(ms, t));
  }

  lemma ClauseIsWindow(h: Host, o: Operand, iso: string, ctx: Value)
    ensures Evaluate(h, WithinLast(o, iso), ctx, 0) ==
            match ToTime(h, Resolve(o, ctx))
            case None => Success(false)
            case Some(t) =>
              match h.duration(iso)
              case None => Failure(InvalidDuration(iso))
              case Some(ms) => Success(InWindow(ms, t, Present(h, ctx)))
  {
  }

  /* ------------------------------------------------------------ the condition */

  // The duration is one, and the operand is a literal time that can fall within
  // it, or a path that does not lead through `now` itself.
  predicate NowMatters(h: Host, o: Operand, iso: string) {
    && h.duration(iso).Some?
    && match o
       case Literal(v) => ToTime(h, v).Some? && CanFallWithin(h.duration(iso).value, ToTime(h, v).value)
       case Var(path) => h.duration(iso).value != NaN && Split(path, '.')[0] != "now"
  }

  ghost predicate DependsOnVarsAlone(h: Host, e: Expr) {
    forall ctx, other :: AgreeOn(Vars(e), ctx, other) ==> Evaluate(h, e, ctx, 0) == Evaluate(h, e, other, 0)
  }

  lemma NowPath(ctx: Value)
    ensures PathValue(ctx, "now") == match OwnProperty(ctx, "now") case None => Undefined case Some(v) => v
  {
    IndexOfNone("now", '.');
    assert Split("now", '.') == ["now"];
    assert ["now"][1..] == [];
  }

  // Under a path through `now`, a time means that `now` is no time itself.
  lemma ThroughNow(h: Host, path: string, ctx: Value)
    requires Split(path, '.')[0] == "now" && ToTime(h, PathValue(ctx, path)).Some?
    ensures Present(h, ctx) == if |Split(path, '.')| == 1 then ToTime(h, PathValue(ctx, path)).value else Fin(h.clock as real)
  {
    NowPath(ctx);
    var segments := Split(path, '.');
    if |segments| == 1 {
      assert segments[1..] == [];
    } else {
      var now := OwnProperty(ctx, "now").value;
      assert Follow(now, segments[1..]) == PathValue(ctx, path);
      assert OwnProperty(now, segments[1..][0]).Some?;
    }
  }

  lemma SameWithoutNow(h: Host, o: Operand, iso: string, ctx: Value, other: Value)
    requires !NowMatters(h, o, iso) && AgreeOn(OperandVars(o), ctx, other)
    ensures Evaluate(h, WithinLast(o, iso), ctx, 0) == Evaluate(h, WithinLast(o, iso), other, 0)
  {
    hide Evaluate, Present, PathValue, ToTime, InWindow, CanFallWithin;
    ClauseIsWindow(h, o, iso, ctx);
    ClauseIsWindow(h, o, iso, other);
    ResolveAgrees(o, ctx, other);
    var v := Resolve(o, ctx);
    if ToTime(h, v).Some? && h.duration(iso).Some? {
      var ms, t := h.duration(iso).value, ToTime(h, v).value;
      if o.Var? && ms != NaN {
        ThroughNow(h, o.path, ctx);
        ThroughNow(h, o.path, other);
      } else {
        NeverFalls(ms, t, Present(h, ctx));
        NeverFalls(ms, t, Present(h, other));
      }
    }
  }

  lemma NeverFalls(ms: Number, t: Number, now: Number)
    ensures !CanFallWithin(ms, t) || ms == NaN ==> !InWindow(ms, t, now)
  {
    CanFallWithinIff(ms, t);
  }

  // A context with a value at a path, and a present beside it.
  function WithNow(path: string, x: Value, now: Number): Value {
    var segments := Split(path, '.');
    Obj(map[segments[0] := Nest(segments[1..], x), "now" := Num(now)])
  }

  lemma ReadsWithNow(h: Host, path: string, x: Value, now: Number)
    requires Split(path, '.')[0] != "now"
    ensures PathValue(WithNow(path, x, now), path) == x && Present(h, WithNow(path, x, now)) == now
  {
    FollowNest(Split(path, '.')[1..], x);
    NowPath(WithNow(path, x, now));
  }

  // The path an operand reads, or one that does no harm.
  function PathOf(o: Operand): string {
    if o.Var? then o.path else ""
  }

  // A time that some present has within the last ms, the literal's own if it is one.
  function FallingTime(h: Host, o: Operand, ms: Number): Number {
    if o.Literal? then (match ToTime(h, o.v) case Some(t) => t case None => ZERO)
    else if CanFallWithin(ms, ZERO) then ZERO else PosInf
  }

  lemma FallingTimeFalls(h: Host, o: Operand, iso: string)
    requires NowMatters(h, o, iso)
    ensures h.duration(iso).Some? && CanFallWithin(h.duration(iso).value, FallingTime(h, o, h.duration(iso).value))
    ensures Split(PathOf(o), '.')[0] != "now"
    ensures o.Literal? ==> ToTime(h, o.v) == Some(FallingTime(h, o, h.duration(iso).value))
  {
    NoDotIsOneSegment();
  }

  lemma TimeWithNow(h: Host, o: Operand, t: Number, now: Number)
    requires Split(PathOf(o), '.')[0] != "now" && (o.Literal? ==> ToTime(h, o.v) == Some(t))
    ensures var ctx := WithNow(PathOf(o), Num(t), now);
            && ToTime(h, Resolve(o, ctx)) == Some(t) && Present(h, ctx) == now
            && (o.Var? ==> PathValue(ctx, o.path) == Num(t))
  {
    hide WithNow, PathValue, Present;
    ReadsWithNow(h, PathOf(o), Num(t), now);
  }

  lemma NowTellsApart(h: Host, o: Operand, iso: string)
    requires NowMatters(h, o, iso)
    ensures !DependsOnVarsAlone(h, WithinLast(o, iso))
  {
    hide Evaluate, PathValue, Present, WithNow, NowMatters, CanFallWithin, InWindow, PresentFor, Resolve, FallingTime, ToTime, Split, PathOf, AgreeOn, Vars;
    FallingTimeFalls(h, o, iso);
    var ms := h.duration(iso).value;
    var t := FallingTime(h, o, ms);
    CanFallWithinIff(ms, t);
    var ctx, other := WithNow(PathOf(o), Num(t), PresentFor(ms, t)), WithNow(PathOf(o), Num(t), NaN);
    TimeWithNow(h, o, t, PresentFor(ms, t));
    TimeWithNow(h, o, t, NaN);
    ClauseIsWindow(h, o, iso, ctx);
    ClauseIsWindow(h, o, iso, other);
    OnlyNowDiffers(h, o, iso, t, PresentFor(ms, t), NaN);
    assert Evaluate(h, WithinLast(o, iso), ctx, 0) != Evaluate(h, WithinLast(o, iso), other, 0);
  }

  lemma OnlyNowDiffers(h: Host, o: Operand, iso: string, t: Number, now: Number, later: Number)
    requires Split(PathOf(o), '.')[0] != "now"
    ensures AgreeOn(Vars(WithinLast(o, iso)), WithNow(PathOf(o), Num(t), now), WithNow(PathOf(o), Num(t), later))
  {
    hide PathValue, WithNow, Split, Present;
    ReadsWithNow(h, PathOf(o), Num(t), now);
    ReadsWithNow(h, PathOf(o), Num(t), later);
  }

  lemma NoDotIsOneSegment()
    ensures Split("", '.') == [""]
  {
  }

  /**
   * A `withinLast` clause depends on its listed paths alone if and only if `now`
   * does not matter to it: its duration is none, or its operand is a literal no
   * present can put within it, or a path that leads through `now`.
   */
  lemma NowMattersIff(h: Host, o: Operand, iso: string)
    ensures DependsOnVarsAlone(h, WithinLast(o, iso)) <==> !NowMatters(h, o, iso)
  {
    hide Evaluate, NowMatters;
    if NowMatters(h, o, iso) {
      NowTellsApart(h, o, iso);
    } else {
      forall ctx, other | AgreeOn(Vars(WithinLast(o, iso)), ctx, other)
        ensures Evaluate(h, WithinLast(o, iso), ctx, 0) == Evaluate(h, WithinLast(o, iso), other, 0)
      {
        SameWithoutNow(h, o, iso, ctx, other);
      }
    }
  }

  /* ------------------------------------------------------------ a whole expression */

  // `now` matters to some clause of it.
  predicate NowMattersIn(h: Host, e: Expr) {
    match e
    case WithinLast(o, iso) => NowMatters(h, o, iso)
    case And(all) => NowMattersInSome(h, all)
    case Or(some) => NowMattersInSome(h, some)
    case Not(sub) => NowMattersIn(h, sub)
    case _ => false
  }

  predicate NowMattersInSome(h: Host, es: ExprList) {
    match es
    case Nil => false
    case Cons(head, tail) => NowMattersIn(h, head) || NowMattersInSome(h, tail)
  }

  lemma LeafWithoutNow(h: Host, e: Expr, ctx: Value, other: Value)
    requires !e.And? && !e.Or? && !e.Not? && !NowMattersIn(h, e) && AgreeOn(Vars(e), ctx, other)
    ensures EvalLeaf(h, e, ctx) == EvalLeaf(h, e, other)
  {
    if e.WithinLast? {
      SameWithoutNow(h, e.subject, e.duration, ctx, other);
      assert Evaluate(h, e, ctx, 0) == EvalLeaf(h, e, ctx) && Evaluate(h, e, other, 0) == EvalLeaf(h, e, other);
    } else {
      LeafReadsItsVars(h, h.clock, e, ctx, other);
      assert h.(clock := h.clock) == h;
    }
  }

  /** An expression to none of whose clauses `now` matters depends on its listed paths alone, errors included. */
  lemma {:induction false} WithoutNowVarsAreAll(h: Host, e: Expr, ctx: Value, other: Value, depth: nat)
    requires !NowMattersIn(h, e) && AgreeOn(Vars(e), ctx, other)
    ensures Evaluate(h, e, ctx, depth) == Evaluate(h, e, other, depth)
    decreases e
  {
    hide AgreeOn, PathValue, EvalLeaf, NowMatters;
    if e.And? {
      WithoutNowVarsAreAllIn(h, e.all, ctx, other, depth + 1);
    } else if e.Or? {
      WithoutNowVarsAreAllIn(h, e.some, ctx, other, depth + 1);
    } else if e.Not? {
      WithoutNowVarsAreAll(h, e.sub, ctx, other, depth + 1);
    } else {
      LeafWithoutNow(h, e, ctx, other);
    }
  }

  lemma {:induction false} WithoutNowVarsAreAllIn(h: Host, es: ExprList, ctx: Value, other: Value, depth: nat)
    requires !NowMattersInSome(h, es) && AgreeOn(VarsIn(es), ctx, other)
    ensures EvaluateAll(h, es, ctx, depth) == EvaluateAll(h, es, other, depth)
    ensures EvaluateSome(h, es, ctx, depth) == EvaluateSome(h, es, other, depth)
    decreases es
  {
    hide AgreeOn, PathValue, Evaluate, NowMattersIn;
    match es {
      case Nil =>
      case Cons(head, tail) =>
        AgreeOnParts(Vars(head), VarsIn(tail), ctx, other);
        WithoutNowVarsAreAll(h, head, ctx, other, depth);
        WithoutNowVarsAreAllIn(h, tail, ctx, other, depth);
    }
  }
}
