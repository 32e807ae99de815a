/**
 * What saving a drawn rule does to its meaning: exactly which clauses mean on every
 * context what they meant before (`apps/admin/src/rules.ts`).
 */
module RuleMeaning {
  import opened Wrappers
  import Text
  import opened Values
  import opened Expr
  import opened RuleRows

  /* ------------------------------------------------------------ an operator on two values */

  function OperatorMeans(h: Host, operator: Operator, x: Value, v: Value): Result<bool, Error> {
    match operator
    case IsEq => Success(LooseEqual(h, x, v))
    case IsNe => Success(!LooseEqual(h, x, v))
    case IsOrdered(ordering) => Ordered(h, x, v, ordering)
    case DoesContain => Success(if x.Arr? then Member(h, v, x.items) else ContainsText(h, x, v))
    case DoesStartWith => Success(x.Str? && v.Str? && HasPrefix(h.lower(x.s), h.lower(v.s)))
    case DoesEndWith => Success(x.Str? && v.Str? && HasSuffix(h.lower(x.s), h.lower(v.s)))
    case IsSet => Success(!Absent(x))
    case IsBlank => Success(IsEmpty(x))
  }

  lemma ClauseMeans(h: Host, operator: Operator, path: string, v: Value, ctx: Value, depth: nat)
    requires depth <= MAX_DEPTH
    ensures Evaluate(h, OperatorExpr(operator, Var(path), Literal(v)), ctx, depth) == OperatorMeans(h, operator, PathValue(ctx, path), v)
  {
    hide PathValue, Ordered, LooseEqual, Member, ContainsText, HasPrefix, HasSuffix, IsEmpty;
  }

  /* ------------------------------------------------------------ which literals keep it */

  // A literal as the schema has it, beside arrays, which the editor does not draw.
  ghost predicate IsDrawnLiteral(ed: Editor, v: Value) {
    v.Null? || v.Str? || TypedValue(ed, v)
  }

  // What the literal becomes once saved.
  function Saved(ed: Editor, v: Value): Value {
    Coerce(ed, LiteralText(ed, v))
  }

  // A string that becomes the number it is the text of.
  predicate IsNumberText(ed: Editor, v: Value) {
    v.Str? && Saved(ed, v).Num? && ed.h.numText(Saved(ed, v).n) == v.s
  }

  // Equality and containment take a number for its text; the other operators do not.
  predicate LiteralKept(ed: Editor, operator: Operator, v: Value) {
    match operator
    case IsSet => true
    case IsBlank => true
    case IsEq => ReadsBack(ed, v) || IsNumberText(ed, v)
    case IsNe => ReadsBack(ed, v) || IsNumberText(ed, v)
    case DoesContain => ReadsBack(ed, v) || IsNumberText(ed, v)
    case _ => ReadsBack(ed, v)
  }

  lemma NumberEqualsAsText(ed: Editor, n: Number, x: Value)
    requires NumbersReadBack(ed) && Denoted(ed, n) && n != NaN
    ensures LooseEqual(ed.h, x, Num(n)) == LooseEqual(ed.h, x, Str(ed.h.numText(n)))
  {
    var c := ToComparable(x);
    assert c.Num? && ed.h.numText(c.n) == ed.h.numText(n) ==> c.n == n;
    hide NumbersReadBack;
  }

  lemma NumberMembersAsText(ed: Editor, n: Number, items: seq<Value>)
    requires NumbersReadBack(ed) && Denoted(ed, n) && n != NaN
    ensures Member(ed.h, Num(n), items) == Member(ed.h, Str(ed.h.numText(n)), items)
  {
    hide LooseEqual, NumbersReadBack;
    forall i | 0 <= i < |items|
      ensures LooseEqual(ed.h, items[i], Num(n)) == LooseEqual(ed.h, items[i], Str(ed.h.numText(n)))
    {
      NumberEqualsAsText(ed, n, items[i]);
    }
  }

  // What a literal that does not read back becomes.
  lemma SavedAs(ed: Editor, v: Value)
    requires NumbersReadBack(ed) && IsDrawnLiteral(ed, v) && !ReadsBack(ed, v)
    ensures (v.Null? && Saved(ed, v) == Str("")) || (v.Str? && TypedValue(ed, Saved(ed, v)))
  {
    if TypedValue(ed, v) {
      TypedValuesReadBack(ed, v);
    }
    CoercedReadsBack(ed, LiteralText(ed, v));
    if v.Null? {
      assert Text.Trim("") == "";
    }
  }

  lemma KeptLiteralMeansTheSame(ed: Editor, operator: Operator, v: Value, x: Value)
    requires NumbersReadBack(ed) && IsDrawnLiteral(ed, v) && LiteralKept(ed, operator, v)
    ensures OperatorMeans(ed.h, operator, x, Saved(ed, v)) == OperatorMeans(ed.h, operator, x, v)
  {
    hide NumbersReadBack, LooseEqual, Member, Ordered, Coerce, LiteralText, Includes, HasPrefix, HasSuffix;
    if !ReadsBack(ed, v) {
      SavedAs(ed, v);
      if IsNumberText(ed, v) {
        NumberEqualsAsText(ed, Saved(ed, v).n, x);
        if x.Arr? {
          NumberMembersAsText(ed, Saved(ed, v).n, x.items);
        }
      }
    }
  }

  // A value that tells a lost literal from what it became.
  function Witness(ed: Editor, operator: Operator, v: Value): Value {
    match operator
    case IsOrdered(_) => if v.Null? then Num(Fin(0.0)) else Saved(ed, v)
    case DoesContain => Arr([v])
    case DoesStartWith => if v.Null? then Str("") else v
    case DoesEndWith => if v.Null? then Str("") else v
    case _ => v
  }

  lemma LostLiteralMeansAnother(ed: Editor, operator: Operator, v: Value)
    requires NumbersReadBack(ed) && IsDrawnLiteral(ed, v) && !LiteralKept(ed, operator, v)
    ensures var x := Witness(ed, operator, v);
            OperatorMeans(ed.h, operator, x, Saved(ed, v)) != OperatorMeans(ed.h, operator, x, v)
  {
    SavedAs(ed, v);
    hide NumbersReadBack, Coerce, LiteralText;
    match operator {
      case IsOrdered(ordering) => OrderingTellsApart(ed.h, ordering, v, Saved(ed, v));
      case DoesContain => EqualityTellsApart(ed, v);
      case IsEq => EqualityTellsApart(ed, v);
      case IsNe => EqualityTellsApart(ed, v);
      case DoesStartWith =>
      case DoesEndWith =>
    }
  }

  lemma EqualityTellsApart(ed: Editor, v: Value)
    requires IsDrawnLiteral(ed, v) && !IsNumberText(ed, v)
    requires (v.Null? && Saved(ed, v) == Str("")) || (v.Str? && (Saved(ed, v).Bool? || Saved(ed, v).Num?))
    ensures LooseEqual(ed.h, v, v) && !LooseEqual(ed.h, v, Saved(ed, v))
    ensures Member(ed.h, v, [v]) && !Member(ed.h, Saved(ed, v), [v])
  {
    hide Coerce, LiteralText;
    assert [v][0] == v;
  }

  lemma OrderingTellsApart(h: Host, ordering: Ordering, v: Value, w: Value)
    requires (v.Null? && w == Str("")) || (v.Str? && (w.Bool? || (w.Num? && w.n.Fin?)))
    ensures var x := if v.Null? then Num(Fin(0.0)) else w;
            Ordered(h, x, w, ordering) != Ordered(h, x, v, ordering)
  {
    hide Holds, CompareAlike, Minus, ToTime;
  }

  /* ------------------------------------------------------------ one clause */

  function At(path: string, x: Value): Value {
    Nest(Text.Split(path, '.'), x)
  }

  lemma ReadsAt(path: string, x: Value)
    ensures PathValue(At(path, x), path) == x
  {
    FollowNest(Text.Split(path, '.'), x);
  }

  // What the editor saves for an expression it can draw.
  function SavedExpression(ed: Editor, e: Expr): Expr
    requires FromExpression(ed, e).Some?
  {
    ToExpression(ed, FromExpression(ed, e).value.rows, FromExpression(ed, e).value.join)
  }

  ghost predicate MeansTheSame(h: Host, e: Expr, e': Expr) {
    forall ctx :: Evaluate(h, e, ctx, 0) == Evaluate(h, e', ctx, 0)
  }

  // A clause of a fact, an operator and a literal.
  function FactClause(operator: Operator, path: string, v: Value): Expr {
    OperatorExpr(operator, Var(path), Literal(v))
  }

  lemma ClauseIsSavedAs(ed: Editor, operator: Operator, path: string, v: Value)
    requires IsDrawnLiteral(ed, v)
    ensures var e := FactClause(operator, path, v);
            && FromExpression(ed, e).Some?
            && SavedExpression(ed, e) == if path == "" then Always
               else if IsUnary(operator) then e else FactClause(operator, path, Saved(ed, v))
  {
    hide Coerce, LiteralText;
    var row := Row(path, operator, if IsUnary(operator) then "" else LiteralText(ed, v));
    assert AsRow(ed, FactClause(operator, path, v)) == Some(row);
    assert Usable([row]) == if path == "" then [] else [row] by {
      assert [row][1..] == [];
    }
  }

  /**
   * For every operator the editor offers: a drawn clause, saved again, means what
   * it meant on every context if and only if it names a path and its literal is kept.
   */
  lemma ClauseKeepsMeaningIff(ed: Editor, operator: Operator, path: string, v: Value)
    requires NumbersReadBack(ed) && IsDrawnLiteral(ed, v)
    ensures var e := FactClause(operator, path, v);
            FromExpression(ed, e).Some? && (MeansTheSame(ed.h, SavedExpression(ed, e), e) <==> path != "" && LiteralKept(ed, operator, v))
  {
    hide NumbersReadBack, OperatorMeans, LiteralKept, Coerce, LiteralText, Evaluate, Witness, FromExpression, ToExpression, OperatorExpr, PathValue;
    var e := FactClause(operator, path, v);
    ClauseIsSavedAs(ed, operator, path, v);
    if path == "" {
      UnnamedClauseFails(ed, operator, v);
    } else if LiteralKept(ed, operator, v) {
      forall ctx
        ensures Evaluate(ed.h, SavedExpression(ed, e), ctx, 0) == Evaluate(ed.h, e, ctx, 0)
      {
        KeptLiteralMeansTheSame(ed, operator, v, PathValue(ctx, path));
        ClauseMeans(ed.h, operator, path, v, ctx, 0);
        ClauseMeans(ed.h, operator, path, Saved(ed, v), ctx, 0);
      }
    } else {
      UnaryIsKept(ed, operator, v);
      var ctx := At(path, Witness(ed, operator, v));
      ReadsAt(path, Witness(ed, operator, v));
      LostLiteralMeansAnother(ed, operator, v);
      ClauseMeans(ed.h, operator, path, v, ctx, 0);
      ClauseMeans(ed.h, operator, path, Saved(ed, v), ctx, 0);
      assert Evaluate(ed.h, SavedExpression(ed, e), ctx, 0) != Evaluate(ed.h, e, ctx, 0);
    }
  }

  lemma UnaryIsKept(ed: Editor, operator: Operator, v: Value)
    ensures IsUnary(operator) ==> LiteralKept(ed, operator, v)
  {
  }

  // A clause on the empty path is dropped and saved as `always`, which it does not mean.
  lemma UnnamedClauseFails(ed: Editor, operator: Operator, v: Value)
    requires IsDrawnLiteral(ed, v)
    ensures !MeansTheSame(ed.h, Always, FactClause(operator, "", v))
  {
    var x := if operator.IsNe? then v else if operator.IsBlank? then Bool(true) else Undefined;
    var ctx := At("", x);
    ReadsAt("", x);
    ClauseMeans(ed.h, operator, "", v, ctx, 0);
    assert Evaluate(ed.h, Always, ctx, 0) == Success(true);
    hide Evaluate, At, PathValue;
    assert OperatorMeans(ed.h, operator, x, v) != Success(true);
    assert Evaluate(ed.h, FactClause(operator, "", v), ctx, 0) != Evaluate(ed.h, Always, ctx, 0);
  }

  /* ------------------------------------------------------------ a whole expression */

  // The clause a drawn expression is: its operator and literal, which `exists` and `empty` lack.
  function LiteralOf(e: Expr): Value {
    if (e.Eq? || e.Ne? || e.Compared? || e.Contains? || e.StartsWith? || e.EndsWith?) && e.right.Literal? then e.right.v else Null
  }

  // It names a path, and its literal is one the schema has and is kept.
  ghost predicate ClauseKept(ed: Editor, e: Expr) {
    AsRow(ed, e).Some? ==>
      && AsRow(ed, e).value.fact != ""
      && IsDrawnLiteral(ed, LiteralOf(e))
      && LiteralKept(ed, AsRow(ed, e).value.operator, LiteralOf(e))
  }

  ghost predicate ListKept(ed: Editor, es: ExprList) {
    match es
    case Nil => true
    case Cons(head, tail) => ClauseKept(ed, head) && ListKept(ed, tail)
  }

  // Every clause is kept, and an `or`, as the schema says, has one.
  ghost predicate AllKept(ed: Editor, e: Expr) {
    match e
    case And(all) => ListKept(ed, all)
    case Or(some) => some != Nil && ListKept(ed, some)
    case _ => ClauseKept(ed, e)
  }

  // A drawn expression is a fact clause.
  lemma DrawnIsFactClause(ed: Editor, e: Expr)
    requires AsRow(ed, e).Some?
    ensures var row := AsRow(ed, e).value;
            e == FactClause(row.operator, row.fact, LiteralOf(e)) && row.value == if IsUnary(row.operator) then "" else LiteralText(ed, LiteralOf(e))
    ensures !e.And? && !e.Or? && !e.Not? && e != Always
  {
  }

  // A kept clause and its saved form evaluate alike, at any depth.
  lemma KeptClauseMeans(ed: Editor, e: Expr, ctx: Value, depth: nat)
    requires NumbersReadBack(ed) && AsRow(ed, e).Some? && ClauseKept(ed, e) && depth <= MAX_DEPTH
    ensures Evaluate(ed.h, Clause(ed, AsRow(ed, e).value), ctx, depth) == Evaluate(ed.h, e, ctx, depth)
  {
    DrawnIsFactClause(ed, e);
    var row, v := AsRow(ed, e).value, LiteralOf(e);
    hide NumbersReadBack, AsRow, OperatorMeans, LiteralKept, Coerce, LiteralText, Evaluate, LiteralOf, PathValue;
    if IsUnary(row.operator) {
      assert Clause(ed, row) == e;
    } else {
      hide OperatorExpr;
      KeptLiteralMeansTheSame(ed, row.operator, v, PathValue(ctx, row.fact));
      ClauseMeans(ed.h, row.operator, row.fact, v, ctx, depth);
      ClauseMeans(ed.h, row.operator, row.fact, Saved(ed, v), ctx, depth);
    }
  }

  lemma {:induction false} KeptListMeans(ed: Editor, es: ExprList, ctx: Value)
    requires NumbersReadBack(ed) && AsRows(ed, es).Some? && ListKept(ed, es)
    ensures var rows := AsRows(ed, es).value;
            && Usable(rows) == rows && (rows == [] <==> es == Nil)
            && EvaluateAll(ed.h, Clauses(ed, rows), ctx, 1) == EvaluateAll(ed.h, es, ctx, 1)
            && EvaluateSome(ed.h, Clauses(ed, rows), ctx, 1) == EvaluateSome(ed.h, es, ctx, 1)
  {
    hide NumbersReadBack, AsRow, Clause, ClauseKept, Evaluate;
    match es {
      case Nil =>
      case Cons(head, tail) =>
        var rows := AsRows(ed, es).value;
        assert rows[0] == AsRow(ed, head).value && rows[1..] == AsRows(ed, tail).value;
        KeptClauseMeans(ed, head, ctx, 1);
        KeptListMeans(ed, tail, ctx);
        KeptNamesAPath(ed, head);
    }
  }

  lemma KeptNamesAPath(ed: Editor, e: Expr)
    requires AsRow(ed, e).Some? && ClauseKept(ed, e)
    ensures AsRow(ed, e).value.fact != ""
  {
    hide AsRow, LiteralKept;
  }

  // A join of one clause means that clause.
  lemma OneClauseJoined(h: Host, join: Join, e: Expr, ctx: Value)
    requires !e.And? && !e.Or? && !e.Not?
    ensures Evaluate(h, Joined(join, Cons(e, Nil)), ctx, 0) == Evaluate(h, e, ctx, 0)
  {
    hide EvalLeaf;
    assert Evaluate(h, e, ctx, 1) == EvalLeaf(h, e, ctx);
    assert EvaluateAll(h, Nil, ctx, 1) == Success(true) && EvaluateSome(h, Nil, ctx, 1) == Success(false);
  }

  lemma JoinedSaysTheSame(ed: Editor, es: ExprList, join: Join, ctx: Value)
    requires NumbersReadBack(ed) && AsRows(ed, es).Some? && ListKept(ed, es) && (es != Nil || join == AllOf)
    ensures Evaluate(ed.h, ToExpression(ed, AsRows(ed, es).value, join), ctx, 0) == Evaluate(ed.h, Joined(join, es), ctx, 0)
  {
    hide NumbersReadBack, ListKept, Clause, AsRows;
    KeptListMeans(ed, es, ctx);
    var rows := AsRows(ed, es).value;
    if |rows| == 1 {
      RowOfClause(ed, rows[0]);
      assert rows[1..] == [];
      assert Clauses(ed, rows) == Cons(Clause(ed, rows[0]), Nil);
      OneClauseJoined(ed.h, join, Clause(ed, rows[0]), ctx);
    }
    hide EvaluateAll, EvaluateSome, EvalLeaf, Clauses;
  }

  /**
   * An expression the editor can draw, with literals that are kept, means what it
   * meant on every context once saved again from its rows.
   */
  lemma SavingKeepsMeaning(ed: Editor, e: Expr)
    requires NumbersReadBack(ed) && FromExpression(ed, e).Some? && AllKept(ed, e)
    ensures MeansTheSame(ed.h, SavedExpression(ed, e), e)
  {
    hide NumbersReadBack, Clause, AsRow, ClauseKept, Evaluate;
    forall ctx
      ensures Evaluate(ed.h, SavedExpression(ed, e), ctx, 0) == Evaluate(ed.h, e, ctx, 0)
    {
      if e.And? {
        JoinedSaysTheSame(ed, e.all, AllOf, ctx);
      } else if e.Or? {
        JoinedSaysTheSame(ed, e.some, AnyOf, ctx);
      } else if e != Always {
        var row := AsRow(ed, e).value;
        KeptClauseMeans(ed, e, ctx, 0);
        KeptNamesAPath(ed, e);
        assert Usable([row]) == [row];
      }
    }
  }

  /** An empty `or`, which the schema refuses, would be drawn as no rows and saved as `always`. */
  lemma EmptyOrChangesMeaning(ed: Editor)
    ensures FromExpression(ed, Or(Nil)).Some? && SavedExpression(ed, Or(Nil)) == Always
    ensures !MeansTheSame(ed.h, Always, Or(Nil))
  {
    var ctx := Null;
    assert Evaluate(ed.h, Always, ctx, 0) == Success(true) && Evaluate(ed.h, Or(Nil), ctx, 0) == Success(false);
  }
}
