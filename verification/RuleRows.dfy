/**
 * The rule editor: rows on a screen, as an expression and back
 * (`apps/admin/src/rules.ts`).
 */
module RuleRows {
  import opened Wrappers
  import Text
  import opened Values
  import opened Expr

  datatype Operator =
    | IsEq
    | IsNe
    | IsOrdered(ordering: Ordering)
    | DoesContain
    | DoesStartWith
    | DoesEndWith
    | IsSet
    | IsBlank

  datatype Row = Row(fact: string, operator: Operator, value: string)

  datatype Join = AllOf | AnyOf

  datatype Parsed = Parsed(rows: seq<Row>, join: Join)

  // `Number(text)` beside the language's host.
  datatype Editor = Editor(h: Host, numOf: string -> Number)

  predicate IsUnary(operator: Operator) {
    operator.IsSet? || operator.IsBlank?
  }

  /** `coerce`. */
  function Coerce(ed: Editor, raw: string): Value {
    var trimmed := Text.Trim(raw);
    if trimmed == "true" then Bool(true)
    else if trimmed == "false" then Bool(false)
    else if trimmed != "" && ed.numOf(trimmed).Fin? then Num(ed.numOf(trimmed))
    else Str(raw)
  }

  function OperatorExpr(operator: Operator, fact: Operand, value: Operand): Expr {
    match operator
    case IsEq => Eq(fact, value)
    case IsNe => Ne(fact, value)
    case IsOrdered(ordering) => Compared(ordering, fact, value)
    case DoesContain => Contains(fact, value)
    case DoesStartWith => StartsWith(fact, value)
    case DoesEndWith => EndsWith(fact, value)
    case IsSet => Exists(fact)
    case IsBlank => Empty(fact)
  }

  function Clause(ed: Editor, row: Row): Expr {
    OperatorExpr(row.operator, Var(row.fact), Literal(Coerce(ed, row.value)))
  }

  function Usable(rows: seq<Row>): (r: seq<Row>)
    ensures |r| <= |rows| && forall row | row in r :: row.fact != ""
  {
    if rows == [] then [] else (if rows[0].fact == "" then [] else [rows[0]]) + Usable(rows[1..])
  }

  function Clauses(ed: Editor, rows: seq<Row>): ExprList {
    if rows == [] then Nil else Cons(Clause(ed, rows[0]), Clauses(ed, rows[1..]))
  }

  function Joined(join: Join, clauses: ExprList): Expr {
    match join
    case AllOf => And(clauses)
    case AnyOf => Or(clauses)
  }

  /** `toExpression`. */
  function ToExpression(ed: Editor, rows: seq<Row>, join: Join): Expr {
    var usable := Usable(rows);
    if usable == [] then Always
    else if |usable| == 1 then Clause(ed, usable[0])
    else Joined(join, Clauses(ed, usable))
  }

  // `right === null ? '' : String(right)`, of a value that is no object.
  function LiteralText(ed: Editor, v: Value): string {
    match v
    case Bool(b) => if b then "true" else "false"
    case Num(n) => ed.h.numText(n)
    case Str(s) => s
    case Undefined => "undefined"
    case _ => ""
  }

  // The row of an operator, a fact and a literal.
  function PairRow(ed: Editor, operator: Operator, left: Operand, right: Operand): Option<Row> {
    if !left.Var? || right.Var? || right.v.Arr? || right.v.Obj? || right.v.Date? || right.v.InvalidDate? then None
    else Some(Row(left.path, operator, LiteralText(ed, right.v)))
  }

  /** `asCondition`. */
  function AsRow(ed: Editor, e: Expr): Option<Row> {
    match e
    case Exists(o) => if o.Var? then Some(Row(o.path, IsSet, "")) else None
    case Empty(o) => if o.Var? then Some(Row(o.path, IsBlank, "")) else None
    case Eq(l, r) => PairRow(ed, IsEq, l, r)
    case Ne(l, r) => PairRow(ed, IsNe, l, r)
    case Compared(ordering, l, r) => PairRow(ed, IsOrdered(ordering), l, r)
    case Contains(l, r) => PairRow(ed, DoesContain, l, r)
    case StartsWith(l, r) => PairRow(ed, DoesStartWith, l, r)
    case EndsWith(l, r) => PairRow(ed, DoesEndWith, l, r)
    case _ => None
  }

  // A row for each, or none at all.
  function AsRows(ed: Editor, es: ExprList): Option<seq<Row>> {
    match es
    case Nil => Some([])
    case Cons(head, tail) =>
      match (AsRow(ed, head), AsRows(ed, tail))
      case (Some(row), Some(rows)) => Some([row] + rows)
      case _ => None
  }

  function ParsedAs(rows: Option<seq<Row>>, join: Join): Option<Parsed> {
    match rows
    case None => None
    case Some(r) => Some(Parsed(r, join))
  }

  /** `fromExpression`. */
  function FromExpression(ed: Editor, e: Expr): Option<Parsed> {
    match e
    case Always => Some(Parsed([], AllOf))
    case And(all) => ParsedAs(AsRows(ed, all), AllOf)
    case Or(some) => ParsedAs(AsRows(ed, some), AnyOf)
    case _ =>
      match AsRow(ed, e)
      case None => None
      case Some(row) => Some(Parsed([row], AllOf))
  }

  // Typing the literal's text gives the literal.
  predicate ReadsBack(ed: Editor, v: Value) {
    Coerce(ed, LiteralText(ed, v)) == v
  }

  /* ------------------------------------------------------------ rows and back */

  // Some text is read as the number: the doubles, of all the numbers there are.
  ghost predicate Denoted(ed: Editor, n: Number) {
    exists t :: ed.numOf(t) == n
  }

  // The text of a number that can be read is trimmed, reads back as it, and is no other's.
  ghost predicate NumbersReadBack(ed: Editor) {
    forall n: Number {:trigger ed.h.numText(n)} | Denoted(ed, n) ::
      var t := ed.h.numText(n);
      && t != "" && t != "true" && t != "false" && Text.Trimmed(t) && ed.numOf(t) == n
      && forall m :: ed.h.numText(m) == t ==> m == n
  }

  // A boolean, or a finite number that some text denotes.
  ghost predicate TypedValue(ed: Editor, v: Value) {
    v.Bool? || (v.Num? && v.n.Fin? && Denoted(ed, v.n))
  }

  lemma CoercedReadsBack(ed: Editor, raw: string)
    requires NumbersReadBack(ed)
    ensures ReadsBack(ed, Coerce(ed, raw))
    ensures Coerce(ed, raw).Str? || TypedValue(ed, Coerce(ed, raw))
  {
    var v := Coerce(ed, raw);
    if v.Num? {
      assert ed.numOf(Text.Trim(raw)) == v.n;
    }
    if v.Str? {
      assert LiteralText(ed, v) == raw;
    } else {
      TypedValuesReadBack(ed, v);
    }
  }

  // What every boolean and every such number does; a string does where nothing else can be read from it.
  lemma TypedValuesReadBack(ed: Editor, v: Value)
    requires NumbersReadBack(ed) && TypedValue(ed, v)
    ensures ReadsBack(ed, v)
  {
    if v.Num? {
      Text.TrimTrimmed(ed.h.numText(v.n));
    } else {
      Text.TrimTrimmed(if v.b then "true" else "false");
    }
  }

  // What a row shows once saved and drawn again.
  function Redrawn(ed: Editor, row: Row): Row {
    row.(value := if IsUnary(row.operator) then "" else LiteralText(ed, Coerce(ed, row.value)))
  }

  function AllRedrawn(ed: Editor, rows: seq<Row>): seq<Row> {
    if rows == [] then [] else [Redrawn(ed, rows[0])] + AllRedrawn(ed, rows[1..])
  }

  lemma RowOfClause(ed: Editor, row: Row)
    ensures AsRow(ed, Clause(ed, row)) == Some(Redrawn(ed, row))
    ensures var e := Clause(ed, row); !e.And? && !e.Or? && !e.Not? && e != Always
  {
  }

  lemma {:induction false} RowsOfClauses(ed: Editor, rows: seq<Row>)
    ensures AsRows(ed, Clauses(ed, rows)) == Some(AllRedrawn(ed, rows))
  {
    hide Clause, AsRow, Redrawn;
    if rows != [] {
      RowOfClause(ed, rows[0]);
      RowsOfClauses(ed, rows[1..]);
    }
  }

  /** Rows saved and drawn again: those with a fact, in order, each value as its coerced text. */
  lemma SavedRowsAreRedrawn(ed: Editor, rows: seq<Row>, join: Join)
    ensures FromExpression(ed, ToExpression(ed, rows, join)) ==
            Some(Parsed(AllRedrawn(ed, Usable(rows)), if |Usable(rows)| > 1 then join else AllOf))
  {
    var usable := Usable(rows);
    hide Usable, Clause, AsRow, Redrawn;
    RowsOfClauses(ed, usable);
    if |usable| == 1 {
      RowOfClause(ed, usable[0]);
      assert AllRedrawn(ed, usable) == [Redrawn(ed, usable[0])] + AllRedrawn(ed, usable[1..]) == [Redrawn(ed, usable[0])];
    }
  }

  lemma RedrawnClause(ed: Editor, row: Row)
    requires NumbersReadBack(ed)
    ensures Clause(ed, Redrawn(ed, row)) == Clause(ed, row)
  {
    CoercedReadsBack(ed, row.value);
    hide Coerce, LiteralText;
  }

  lemma {:induction false} RedrawnClauses(ed: Editor, rows: seq<Row>)
    requires NumbersReadBack(ed) && Usable(rows) == rows
    ensures Clauses(ed, AllRedrawn(ed, rows)) == Clauses(ed, rows)
    ensures |AllRedrawn(ed, rows)| == |rows| && Usable(AllRedrawn(ed, rows)) == AllRedrawn(ed, rows)
  {
    hide Clause, NumbersReadBack;
    if rows != [] {
      UsableTail(rows);
      RedrawnClause(ed, rows[0]);
      RedrawnClauses(ed, rows[1..]);
      var redrawn := AllRedrawn(ed, rows);
      assert redrawn[1..] == AllRedrawn(ed, rows[1..]);
    }
  }

  lemma UsableTail(rows: seq<Row>)
    requires rows != [] && Usable(rows) == rows
    ensures rows[0].fact != "" && Usable(rows[1..]) == rows[1..]
  {
    assert rows[0] in Usable(rows);
    assert rows[1..] == Usable(rows)[1..] == Usable(rows[1..]);
  }

  lemma {:induction false} UsableTwice(rows: seq<Row>)
    ensures Usable(Usable(rows)) == Usable(rows)
  {
    if rows != [] {
      var tail := Usable(rows[1..]);
      UsableTwice(rows[1..]);
      if rows[0].fact == "" {
        assert Usable(rows) == tail;
      } else {
        assert Usable(rows) == [rows[0]] + tail && ([rows[0]] + tail)[1..] == tail;
      }
    }
  }

  /** Drawing and saving again changes nothing more: for all rows, the saved expression is stable. */
  lemma SavingIsStable(ed: Editor, rows: seq<Row>, join: Join)
    requires NumbersReadBack(ed)
    ensures var e := ToExpression(ed, rows, join);
            && FromExpression(ed, e).Some?
            && ToExpression(ed, FromExpression(ed, e).value.rows, FromExpression(ed, e).value.join) == e
  {
    var usable := Usable(rows);
    SavedRowsAreRedrawn(ed, rows, join);
    UsableTwice(rows);
    RedrawnClauses(ed, usable);
    if |usable| == 1 {
      assert AllRedrawn(ed, usable)[0] == Redrawn(ed, usable[0]);
      RedrawnClause(ed, usable[0]);
    }
    hide Usable, Clause, Redrawn, FromExpression, NumbersReadBack, AllRedrawn;
  }
}
