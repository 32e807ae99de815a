/**
 * The authoring-time checker (`checkExpr` in `packages/expr/src/index.ts`) and
 * what it promises about evaluation.
 */
module ExprCheck {
  import opened Wrappers
  import Text
  import opened Values
  import opened Expr

  datatype Declared = NumberType | StringType | BooleanType | DateType | ArrayType | UnknownType

  type Types = map<string, Declared>

  datatype Conflict = Conflict(path: Option<string>, ordering: Ordering, left: Declared, right: Declared, message: string)

  // An ordering comparison, wherever it stands in an expression.
  datatype Comparison = Comparison(ordering: Ordering, left: Operand, right: Operand)

  function LiteralType(v: Value): Declared {
    match v
    case Arr(_) => ArrayType
    case Num(_) => NumberType
    case Bool(_) => BooleanType
    case Str(s) => if LooksIso(s) then DateType else StringType
    case _ => UnknownType
  }

  function TypeOf(types: Types, operand: Operand): Declared {
    match operand
    case Var(path) => if path in types then types[path] else UnknownType
    case Literal(v) => LiteralType(v)
  }

  predicate Orderable(a: Declared, b: Declared) {
    || a == UnknownType || b == UnknownType
    || (a == b && a != ArrayType)
    || (a == DateType && b == StringType)
    || (a == StringType && b == DateType)
  }

  /* ------------------------------------------------------------ the report */

  function TypeName(t: Declared): string {
    match t
    case NumberType => "number"
    case StringType => "string"
    case BooleanType => "boolean"
    case DateType => "date"
    case ArrayType => "array"
    case UnknownType => "unknown"
  }

  function OrderingName(o: Ordering): string {
    match o
    case Gt => "gt"
    case Gte => "gte"
    case Lt => "lt"
    case Lte => "lte"
  }

  function Describe(types: Types, operand: Operand, side: string): string {
    if operand.Var? && operand.path != "" then operand.path + " (" + TypeName(TypeOf(types, operand)) + ")"
    else "the " + side + "-hand " + TypeName(TypeOf(types, operand))
  }

  // The first operand that is a path, unless that path is empty.
  function NamedPath(c: Comparison): Option<string> {
    var path := if c.left.Var? then c.left.path else if c.right.Var? then c.right.path else "";
    if path == "" then None else Some(path)
  }

  function ConflictOf(types: Types, c: Comparison): Conflict {
    Conflict(NamedPath(c), c.ordering, TypeOf(types, c.left), TypeOf(types, c.right),
             Describe(types, c.left, "left") + " cannot be compared with " + Describe(types, c.right, "right")
             + " using " + OrderingName(c.ordering))
  }

  predicate InConflict(types: Types, c: Comparison) {
    !Orderable(TypeOf(types, c.left), TypeOf(types, c.right))
  }

  function Conflicts(types: Types, cs: seq<Comparison>): seq<Conflict> {
    if cs == [] then []
    else ConflictAt(types, cs[0]) + Conflicts(types, cs[1..])
  }

  // Every comparison the evaluator could reach, in document order.
  function Comparisons(e: Expr, depth: nat): seq<Comparison>
    decreases e
  {
    if depth > MAX_DEPTH then []
    else
      match e
      case Compared(ordering, l, r) => [Comparison(ordering, l, r)]
      case And(all) => ComparisonsIn(all, depth + 1)
      case Or(some) => ComparisonsIn(some, depth + 1)
      case Not(sub) => Comparisons(sub, depth + 1)
      case _ => []
  }

  function ComparisonsIn(es: ExprList, depth: nat): seq<Comparison>
    decreases es
  {
    match es
    case Nil => []
    case Cons(head, tail) => Comparisons(head, depth) + ComparisonsIn(tail, depth)
  }

  function ConflictAt(types: Types, c: Comparison): seq<Conflict> {
    if InConflict(types, c) then [ConflictOf(types, c)] else []
  }

  lemma ConflictsUnfold(types: Types, cs: seq<Comparison>)
    ensures cs == [] ==> Conflicts(types, cs) == []
    ensures cs != [] ==> Conflicts(types, cs) == ConflictAt(types, cs[0]) + Conflicts(types, cs[1..])
  {
    hide ConflictAt;
  }

  lemma {:induction false} ConflictsConcat(types: Types, a: seq<Comparison>, b: seq<Comparison>)
    ensures Conflicts(types, a + b) == Conflicts(types, a) + Conflicts(types, b)
  {
    hide Conflicts, ConflictAt;
    ConflictsUnfold(types, a);
    if a == [] {
      assert a + b == b;
    } else {
      ConflictsConcat(types, a[1..], b);
      assert (a + b)[0] == a[0] && (a + b)[1..] == a[1..] + b;
      ConflictsUnfold(types, a + b);
    }
  }

  /** `checkExpr`: the comparisons in conflict, each reported once, in document order. */
  method CheckExpr(e: Expr, types: Types) returns (conflicts: seq<Conflict>)
    ensures conflicts == Conflicts(types, Comparisons(e, 0))
  {
    conflicts := Walk(types, e, 0, []);
  }

  method Walk(types: Types, e: Expr, depth: nat, found: seq<Conflict>) returns (conflicts: seq<Conflict>)
    ensures conflicts == found + Conflicts(types, Comparisons(e, depth))
    decreases e
  {
    conflicts := found;
    if depth > MAX_DEPTH {
      return;
    }
    match e {
      case Compared(ordering, l, r) =>
        var c := Comparison(ordering, l, r);
        if !Orderable(TypeOf(types, l), TypeOf(types, r)) {
          conflicts := conflicts + [ConflictOf(types, c)];
        }
        assert [c][1..] == [];
      case And(all) => conflicts := WalkEach(types, all, depth + 1, conflicts);
      case Or(some) => conflicts := WalkEach(types, some, depth + 1, conflicts);
      case Not(sub) => conflicts := Walk(types, sub, depth + 1, conflicts);
      case _ =>
    }
  }

  method WalkEach(types: Types, es: ExprList, depth: nat, found: seq<Conflict>) returns (conflicts: seq<Conflict>)
    ensures conflicts == found + Conflicts(types, ComparisonsIn(es, depth))
    decreases es
  {
    hide ConflictAt, Comparisons;
    conflicts := found;
    match es {
      case Nil =>
      case Cons(head, tail) =>
        conflicts := Walk(types, head, depth, conflicts);
        conflicts := WalkEach(types, tail, depth, conflicts);
        ConflictsConcat(types, Comparisons(head, depth), ComparisonsIn(tail, depth));
    }
  }

  /* ------------------------------------------------------------ what it promises */

  // A value may be what its path was declared to be.  A date may have become text.
  predicate Conforms(v: Value, t: Declared) {
    || Absent(v)
    || match t
       case NumberType => v.Num? && v.n != NaN
       case StringType => v.Str?
       case BooleanType => v.Bool?
       case DateType => v.Date? || v.Str?
       case ArrayType => v.Arr?
       case UnknownType => true
  }

  ghost predicate ContextConforms(types: Types, ctx: Value) {
    forall path | path in types :: Conforms(PathValue(ctx, path), types[path])
  }

  // Declared, or a literal an expression may hold.
  predicate OperandChecked(types: Types, operand: Operand) {
    match operand
    case Var(path) => path in types && types[path] != UnknownType
    case Literal(v) => v == Null || (LiteralType(v) != UnknownType && v != Num(NaN))
  }

  ghost predicate AllChecked(types: Types, cs: seq<Comparison>) {
    forall c | c in cs :: OperandChecked(types, c.left) && OperandChecked(types, c.right)
  }

  function Outcome(h: Host, ctx: Value, c: Comparison): Result<Option<Number>, Error> {
    Compare(h, Resolve(c.left, ctx), Resolve(c.right, ctx), c.ordering)
  }

  // A date meets a string that is no date: the one crossing the types cannot settle.
  predicate DateMeetsUnparsed(h: Host, a: Value, b: Value) {
    (a.Date? && b.Str? && h.parseDate(b.s) == None) || (b.Date? && a.Str? && h.parseDate(a.s) == None)
  }

  predicate UnparsedDate(h: Host, ctx: Value, c: Comparison) {
    DateMeetsUnparsed(h, Resolve(c.left, ctx), Resolve(c.right, ctx))
  }

  /** An orderable comparison of declared operands raises exactly where a date meets a string that does not parse. */
  lemma OrderableRaisesOnlyOnUnparsed(h: Host, types: Types, ctx: Value, c: Comparison)
    requires ContextConforms(types, ctx) && OperandChecked(types, c.left) && OperandChecked(types, c.right)
    requires !InConflict(types, c)
    ensures Outcome(h, ctx, c).Failure? <==> UnparsedDate(h, ctx, c)
  {
    ValueConforms(types, ctx, c.left);
    ValueConforms(types, ctx, c.right);
    hide Resolve, LooksIso, CompareAlike;
  }

  lemma ValueConforms(types: Types, ctx: Value, operand: Operand)
    requires ContextConforms(types, ctx)
    ensures var v, t := Resolve(operand, ctx), TypeOf(types, operand);
            && (OperandChecked(types, operand) ==> Conforms(v, t) && (t == UnknownType ==> Absent(v)))
            && (v != Num(NaN) ==> Conforms(v, t))
  {
  }

  /** A comparison in conflict raises exactly when both its values are present. */
  lemma ConflictRaises(h: Host, types: Types, ctx: Value, c: Comparison)
    requires ContextConforms(types, ctx) && InConflict(types, c)
    ensures Outcome(h, ctx, c).Failure? <==> !Absent(Resolve(c.left, ctx)) && !Absent(Resolve(c.right, ctx))
  {
    ValueConforms(types, ctx, c.left);
    ValueConforms(types, ctx, c.right);
    hide Resolve, LooksIso, CompareAlike;
  }

  // Where an ordering error comes from.
  ghost predicate Raises(h: Host, ctx: Value, cs: seq<Comparison>, error: Error) {
    exists i :: 0 <= i < |cs| && Outcome(h, ctx, cs[i]) == Failure(error)
  }

  lemma RaisesInEither(h: Host, ctx: Value, a: seq<Comparison>, b: seq<Comparison>, error: Error)
    requires Raises(h, ctx, a, error) || Raises(h, ctx, b, error)
    ensures Raises(h, ctx, a + b, error)
  {
    hide Outcome;
    if Raises(h, ctx, a, error) {
      var i :| 0 <= i < |a| && Outcome(h, ctx, a[i]) == Failure(error);
      assert (a + b)[i] == a[i];
    } else {
      var i :| 0 <= i < |b| && Outcome(h, ctx, b[i]) == Failure(error);
      assert (a + b)[|a| + i] == b[i];
    }
  }

  lemma LeafRaises(h: Host, e: Expr, ctx: Value, error: Error)
    requires !e.And? && !e.Or? && !e.Not? && error.TypeError? && EvalLeaf(h, e, ctx) == Failure(error)
    ensures e.Compared? && Outcome(h, ctx, Comparison(e.ordering, e.left, e.right)) == Failure(error)
  {
    hide Compare, Resolve, LooseEqual, ContainsText, TimesBelow, Present;
  }

  /** A type error comes from one of the comparisons the checker looks at. */
  lemma {:induction false} TypeErrorsComeFromComparisons(h: Host, e: Expr, ctx: Value, depth: nat, error: Error)
    requires error.TypeError? && Evaluate(h, e, ctx, depth) == Failure(error)
    ensures Raises(h, ctx, Comparisons(e, depth), error)
    decreases e
  {
    hide EvalLeaf, Outcome;
    if e.And? {
      TypeErrorsInList(h, e.all, ctx, depth + 1, error);
    } else if e.Or? {
      TypeErrorsInList(h, e.some, ctx, depth + 1, error);
    } else if e.Not? {
      TypeErrorsComeFromComparisons(h, e.sub, ctx, depth + 1, error);
    } else {
      LeafRaises(h, e, ctx, error);
      var c := Comparison(e.ordering, e.left, e.right);
      assert Comparisons(e, depth) == [c] && Outcome(h, ctx, [c][0]) == Failure(error);
    }
  }

  lemma {:induction false} TypeErrorsInList(h: Host, es: ExprList, ctx: Value, depth: nat, error: Error)
    requires error.TypeError?
    requires EvaluateAll(h, es, ctx, depth) == Failure(error) || EvaluateSome(h, es, ctx, depth) == Failure(error)
    ensures Raises(h, ctx, ComparisonsIn(es, depth), error)
    decreases es
  {
    hide Raises, Evaluate, Comparisons;
    match es {
      case Cons(head, tail) =>
        if Evaluate(h, head, ctx, depth) == Failure(error) {
          TypeErrorsComeFromComparisons(h, head, ctx, depth, error);
        } else {
          TypeErrorsInList(h, tail, ctx, depth, error);
        }
        RaisesInEither(h, ctx, Comparisons(head, depth), ComparisonsIn(tail, depth), error);
    }
  }

  lemma {:induction false} NoConflicts(types: Types, cs: seq<Comparison>)
    ensures Conflicts(types, cs) == [] <==> forall c | c in cs :: !InConflict(types, c)
  {
    hide InConflict, ConflictOf;
    if cs != [] {
      NoConflicts(types, cs[1..]);
      assert cs == [cs[0]] + cs[1..];
    }
  }

  /**
   * Soundness: an expression the checker passes, with every compared path
   * declared, raises a type error in a conforming context only where a date
   * meets a string that does not parse.
   */
  lemma CheckedExpressionsDoNotRaise(h: Host, types: Types, e: Expr, ctx: Value, error: Error)
    requires Conflicts(types, Comparisons(e, 0)) == []
    requires ContextConforms(types, ctx) && AllChecked(types, Comparisons(e, 0))
    requires Evaluate(h, e, ctx, 0) == Failure(error) && error.TypeError?
    ensures exists c :: c in Comparisons(e, 0) && UnparsedDate(h, ctx, c) && Outcome(h, ctx, c) == Failure(error)
  {
    hide Evaluate, Comparisons, InConflict, Outcome, UnparsedDate, ContextConforms;
    var cs := Comparisons(e, 0);
    TypeErrorsComeFromComparisons(h, e, ctx, 0, error);
    NoConflicts(types, cs);
    var i :| 0 <= i < |cs| && Outcome(h, ctx, cs[i]) == Failure(error);
    assert cs[i] in cs;
    OrderableRaisesOnlyOnUnparsed(h, types, ctx, cs[i]);
  }

  /**
   * No false alarms: behind each reported conflict is a comparison, no deeper
   * than evaluation goes, that raises in every conforming context where both its
   * values are present, and only there.
   */
  lemma ReportedConflictsRaise(types: Types, e: Expr, k: Conflict)
    requires k in Conflicts(types, Comparisons(e, 0))
    ensures exists c, d: nat :: StandsAt(e, 0, c, d) && d <= MAX_DEPTH && k == ConflictOf(types, c) && AlwaysRaises(types, c)
  {
    hide ConflictOf, AlwaysRaises, StandsAt, Comparisons, Conflicts;
    ListedConflictsRaise(types, Comparisons(e, 0), k);
    var c :| c in Comparisons(e, 0) && k == ConflictOf(types, c) && AlwaysRaises(types, c);
    ComparisonsAreWithinReach(e, 0, c);
    assert WithinReach(e, 0, c);
  }

  lemma {:induction false} ListedConflictsRaise(types: Types, cs: seq<Comparison>, k: Conflict)
    requires k in Conflicts(types, cs)
    ensures exists c :: c in cs && k == ConflictOf(types, c) && AlwaysRaises(types, c)
  {
    hide InConflict, ConflictOf, AlwaysRaises;
    if InConflict(types, cs[0]) && k == ConflictOf(types, cs[0]) {
      assert cs[0] in cs;
      ConflictAlwaysRaises(types, cs[0]);
    } else {
      ListedConflictsRaise(types, cs[1..], k);
    }
  }

  // The comparison stands d levels deep, counting from `depth` at the expression itself.
  ghost predicate StandsAt(e: Expr, depth: nat, c: Comparison, d: nat)
    decreases e
  {
    match e
    case Compared(ordering, l, r) => c == Comparison(ordering, l, r) && d == depth
    case And(all) => StandsIn(all, depth + 1, c, d)
    case Or(some) => StandsIn(some, depth + 1, c, d)
    case Not(sub) => StandsAt(sub, depth + 1, c, d)
    case _ => false
  }

  ghost predicate StandsIn(es: ExprList, depth: nat, c: Comparison, d: nat)
    decreases es
  {
    match es
    case Nil => false
    case Cons(head, tail) => StandsAt(head, depth, c, d) || StandsIn(tail, depth, c, d)
  }

  ghost predicate WithinReach(e: Expr, depth: nat, c: Comparison) {
    exists d: nat :: StandsAt(e, depth, c, d) && d <= MAX_DEPTH
  }

  ghost predicate WithinReachIn(es: ExprList, depth: nat, c: Comparison) {
    exists d: nat :: StandsIn(es, depth, c, d) && d <= MAX_DEPTH
  }

  lemma ReachIntoList(head: Expr, tail: ExprList, depth: nat, c: Comparison)
    ensures WithinReachIn(Cons(head, tail), depth, c) <==> WithinReach(head, depth, c) || WithinReachIn(tail, depth, c)
  {
    var es := Cons(head, tail);
    assert forall d: nat :: StandsIn(es, depth, c, d) <==> StandsAt(head, depth, c, d) || StandsIn(tail, depth, c, d);
    hide StandsAt, StandsIn;
  }

  lemma ReachIntoJoin(e: Expr, depth: nat, c: Comparison)
    ensures e.And? ==> (WithinReach(e, depth, c) <==> WithinReachIn(e.all, depth + 1, c))
    ensures e.Or? ==> (WithinReach(e, depth, c) <==> WithinReachIn(e.some, depth + 1, c))
    ensures e.Not? ==> (WithinReach(e, depth, c) <==> WithinReach(e.sub, depth + 1, c))
  {
    var below := depth + 1;
    if e.And? {
      if d: nat :| StandsAt(e, depth, c, d) && d <= MAX_DEPTH {
        assert StandsIn(e.all, below, c, d);
      }
      if d: nat :| StandsIn(e.all, below, c, d) && d <= MAX_DEPTH {
        assert StandsAt(e, depth, c, d);
      }
    }
    if e.Or? {
      if d: nat :| StandsAt(e, depth, c, d) && d <= MAX_DEPTH {
        assert StandsIn(e.some, below, c, d);
      }
      if d: nat :| StandsIn(e.some, below, c, d) && d <= MAX_DEPTH {
        assert StandsAt(e, depth, c, d);
      }
    }
    if e.Not? {
      if d: nat :| StandsAt(e, depth, c, d) && d <= MAX_DEPTH {
        assert StandsAt(e.sub, below, c, d);
      }
      if d: nat :| StandsAt(e.sub, below, c, d) && d <= MAX_DEPTH {
        assert StandsAt(e, depth, c, d);
      }
    }
  }

  lemma {:induction false} StandsNoHigher(e: Expr, depth: nat, c: Comparison, d: nat)
    requires StandsAt(e, depth, c, d)
    ensures d >= depth
    decreases e
  {
    match e {
      case And(all) => StandsNoHigherIn(all, depth + 1, c, d);
      case Or(some) => StandsNoHigherIn(some, depth + 1, c, d);
      case Not(sub) => StandsNoHigher(sub, depth + 1, c, d);
      case Compared(_, _, _) =>
    }
  }

  lemma {:induction false} StandsNoHigherIn(es: ExprList, depth: nat, c: Comparison, d: nat)
    requires StandsIn(es, depth, c, d)
    ensures d >= depth
    decreases es
  {
    if StandsAt(es.head, depth, c, d) {
      StandsNoHigher(es.head, depth, c, d);
    } else {
      StandsNoHigherIn(es.tail, depth, c, d);
    }
  }

  /** The checker looks at a comparison if and only if it stands no deeper than evaluation goes. */
  lemma {:induction false} ComparisonsAreWithinReach(e: Expr, depth: nat, c: Comparison)
    ensures c in Comparisons(e, depth) <==> WithinReach(e, depth, c)
    decreases e
  {
    ReachIntoJoin(e, depth, c);
    if depth > MAX_DEPTH {
      if d: nat :| StandsAt(e, depth, c, d) && d <= MAX_DEPTH {
        StandsNoHigher(e, depth, c, d);
      }
    } else if e.And? {
      ListedAreWithinReach(e.all, depth + 1, c);
    } else if e.Or? {
      ListedAreWithinReach(e.some, depth + 1, c);
    } else if e.Not? {
      ComparisonsAreWithinReach(e.sub, depth + 1, c);
    } else if e.Compared? {
      assert c == Comparison(e.ordering, e.left, e.right) ==> StandsAt(e, depth, c, depth);
    }
  }

  lemma {:induction false} ListedAreWithinReach(es: ExprList, depth: nat, c: Comparison)
    ensures c in ComparisonsIn(es, depth) <==> WithinReachIn(es, depth, c)
    decreases es
  {
    match es {
      case Nil =>
      case Cons(head, tail) =>
        hide Comparisons, WithinReach, WithinReachIn;
        ReachIntoList(head, tail, depth, c);
        ComparisonsAreWithinReach(head, depth, c);
        ListedAreWithinReach(tail, depth, c);
    }
  }

  ghost predicate AlwaysRaises(types: Types, c: Comparison) {
    forall h, ctx {:trigger Outcome(h, ctx, c)} :: ContextConforms(types, ctx) ==>
      (Outcome(h, ctx, c).Failure? <==> !Absent(Resolve(c.left, ctx)) && !Absent(Resolve(c.right, ctx)))
  }

  lemma ConflictAlwaysRaises(types: Types, c: Comparison)
    requires InConflict(types, c)
    ensures AlwaysRaises(types, c)
  {
    hide InConflict, Outcome, ContextConforms;
    forall h, ctx | ContextConforms(types, ctx)
      ensures Outcome(h, ctx, c).Failure? <==> !Absent(Resolve(c.left, ctx)) && !Absent(Resolve(c.right, ctx))
    {
      ConflictRaises(h, types, ctx, c);
    }
  }

  /* ------------------------------------------------------------ what is reported */

  const TYPE_NAMES: map<Declared, string> :=
    map[NumberType := "number", StringType := "string", BooleanType := "boolean", DateType := "date", ArrayType := "array", UnknownType := "unknown"]

  const OPERATOR_NAMES: map<Ordering, string> := map[Gt := "gt", Gte := "gte", Lt := "lt", Lte := "lte"]

  // How an operand is named: a path with its type, or its side and its type.
  function Named(operand: Operand, side: string, t: Declared): string
    requires t in TYPE_NAMES
  {
    if operand.Var? && operand.path != "" then operand.path + " (" + TYPE_NAMES[t] + ")" else "the " + side + "-hand " + TYPE_NAMES[t]
  }

  lemma AllNamed(t: Declared, o: Ordering)
    ensures t in TYPE_NAMES && TYPE_NAMES[t] == TypeName(t)
    ensures o in OPERATOR_NAMES && OPERATOR_NAMES[o] == OrderingName(o)
  {
  }

  /** Of literals, texts that look like a date are dates, other texts strings, and what is no scalar or array is not known. */
  lemma LiteralTypesAre(v: Value)
    ensures LiteralType(v) == DateType <==> v.Str? && LooksIso(v.s)
    ensures LiteralType(v) == StringType <==> v.Str? && !LooksIso(v.s)
    ensures LiteralType(v) == NumberType <==> v.Num?
    ensures LiteralType(v) == BooleanType <==> v.Bool?
    ensures LiteralType(v) == ArrayType <==> v.Arr?
  {
    hide LooksIso;
  }

  /** A context with nothing in it conforms, whatever is declared: an absent value may be anything. */
  lemma NothingConforms(types: Types)
    ensures ContextConforms(types, Obj(map[]))
  {
    hide Text.Split;
    forall path | path in types
      ensures Absent(PathValue(Obj(map[]), path))
    {
      var segments := Text.Split(path, '.');
      assert OwnProperty(Obj(map[]), segments[0]) == None;
    }
  }

  /** Every literal of the schema that is not an object counts as checked. */
  lemma LiteralsAreChecked(types: Types, v: Value)
    requires v.Null? || (v.Num? && v.n != NaN) || v.Str? || v.Bool? || v.Arr?
    ensures OperandChecked(types, Literal(v))
  {
    hide LooksIso;
  }

  /** A report names the two operands with their types and the operator, and the path of the first operand that has one. */
  lemma ReportSays(types: Types, c: Comparison)
    ensures var k, l, r := ConflictOf(types, c), TypeOf(types, c.left), TypeOf(types, c.right);
            && l in TYPE_NAMES && r in TYPE_NAMES && c.ordering in OPERATOR_NAMES
            && k.message == Named(c.left, "left", l) + " cannot be compared with " + Named(c.right, "right", r) +
                            " using " + OPERATOR_NAMES[c.ordering]
            && k.left == l && k.right == r && k.ordering == c.ordering
            && (c.left.Var? && c.left.path != "" ==> k.path == Some(c.left.path))
            && (c.left.Literal? && c.right.Var? && c.right.path != "" ==> k.path == Some(c.right.path))
            && (c.left.Literal? && c.right.Literal? ==> k.path == None)
  {
    hide TYPE_NAMES, OPERATOR_NAMES, TypeName, OrderingName;
    AllNamed(TypeOf(types, c.left), c.ordering);
    AllNamed(TypeOf(types, c.right), c.ordering);
  }
}
