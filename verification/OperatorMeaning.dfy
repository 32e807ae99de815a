/**
 * What each operator of the expression language says of the values it is given,
 * by value and without the evaluator's own steps (`packages/expr/src/index.ts`).
 */
module OperatorMeaning {
  import opened Wrappers
  import opened Text
  import opened Values
  import opened Expr

  /* ------------------------------------------------------------ order */

  predicate SmallerNumber(a: Number, b: Number) {
    a != NaN && b != NaN && a != b && (a == NegInf || b == PosInf || (a.Fin? && b.Fin? && a.r < b.r))
  }

  predicate BothDated(h: Host, s: string, t: string) {
    LooksIso(s) && LooksIso(t) && h.parseDate(s).Some? && h.parseDate(t).Some?
  }

  // The first value comes before the second.
  predicate Earlier(h: Host, a: Value, b: Value) {
    match (a, b)
    case (Num(m), Num(n)) => SmallerNumber(m, n)
    case (Bool(p), Bool(q)) => !p && q
    case (Date(m), Date(n)) => m < n
    case (Str(s), Str(t)) => if BothDated(h, s, t) then h.parseDate(s).value < h.parseDate(t).value else TextBelow(s, t)
    case (Date(m), Str(t)) => h.parseDate(t).Some? && m < h.parseDate(t).value
    case (Str(s), Date(n)) => h.parseDate(s).Some? && h.parseDate(s).value < n
    case _ => false
  }

  // Neither comes before the other: their difference is zero, which that of two infinities is not.
  predicate Level(h: Host, a: Value, b: Value) {
    match (a, b)
    case (Num(m), Num(n)) => m.Fin? && m == n
    case (Bool(p), Bool(q)) => p == q
    case (Date(m), Date(n)) => m == n
    case (Str(s), Str(t)) => if BothDated(h, s, t) then h.parseDate(s) == h.parseDate(t) else s == t
    case (Date(m), Str(t)) => h.parseDate(t) == Some(m)
    case (Str(s), Date(n)) => h.parseDate(s) == Some(n)
    case _ => false
  }

  // Two numbers, two booleans, two dates, two strings, or a date and a string that parses.
  predicate HaveAnOrder(h: Host, a: Value, b: Value) {
    match (a, b)
    case (Num(m), Num(n)) => m != NaN && n != NaN
    case (Bool(_), Bool(_)) => true
    case (Date(_), Date(_)) => true
    case (Str(_), Str(_)) => true
    case (Date(_), Str(t)) => h.parseDate(t).Some?
    case (Str(s), Date(_)) => h.parseDate(s).Some?
    case _ => false
  }

  // The kind an error names: a string, unless the value is one of the other three.
  function KindNamed(v: Value): Kind {
    if v.Num? && v.n != NaN then NumberKind else if v.Bool? then BooleanKind else if v.Date? then DateKind else StringKind
  }

  predicate Says(h: Host, ordering: Ordering, a: Value, b: Value) {
    match ordering
    case Gt => Earlier(h, b, a)
    case Gte => Earlier(h, b, a) || Level(h, a, b)
    case Lt => Earlier(h, a, b)
    case Lte => Earlier(h, a, b) || Level(h, a, b)
  }

  function OrderedByValue(h: Host, a: Value, b: Value, ordering: Ordering): Result<bool, Error> {
    if Absent(a) || Absent(b) then Success(false)
    else if !HaveAnOrder(h, a, b) then Failure(TypeError(KindNamed(a), KindNamed(b), ordering))
    else Success(Says(h, ordering, a, b))
  }

  lemma TextsCompared(h: Host, s: string, t: string)
    ensures Below(CompareText(h, s, t), ZERO) <==> Earlier(h, Str(s), Str(t))
    ensures Below(ZERO, CompareText(h, s, t)) <==> Earlier(h, Str(t), Str(s))
    ensures CompareText(h, s, t) == ZERO <==> Level(h, Str(s), Str(t))
    ensures CompareText(h, s, t).Fin?
  {
    hide TextBelow, LooksIso;
    TextTrichotomy(s, t);
  }

  lemma NumbersCompared(m: Number, n: Number)
    ensures Below(Minus(m, n), ZERO) <==> SmallerNumber(m, n)
    ensures Below(ZERO, Minus(m, n)) <==> SmallerNumber(n, m)
    ensures Minus(m, n) == ZERO <==> m.Fin? && m == n
  {
  }

  // The sign of what `compare` answers, where it answers a number.
  lemma CompareSign(h: Host, a: Value, b: Value, ordering: Ordering)
    requires !Absent(a) && !Absent(b) && HaveAnOrder(h, a, b)
    ensures var r := Compare(h, a, b, ordering);
            && r.Success? && r.value.Some?
            && (Below(r.value.value, ZERO) <==> Earlier(h, a, b))
            && (Below(ZERO, r.value.value) <==> Earlier(h, b, a))
            && (r.value.value == ZERO <==> Level(h, a, b))
  {
    hide CompareText, TextBelow, LooksIso, Minus, SmallerNumber;
    match (a, b) {
      case (Str(s), Str(t)) => TextsCompared(h, s, t);
      case (Num(m), Num(n)) => NumbersCompared(m, n);
      case (Bool(p), Bool(q)) => NumbersCompared(BoolNumber(p), BoolNumber(q));
        BoolsBelow(p, q);
        BoolsBelow(q, p);
      case (Date(m), Str(t)) => NumbersCompared(Fin(m as real), Fin(h.parseDate(t).value as real));
        InstantsBelow(m, h.parseDate(t).value);
        InstantsBelow(h.parseDate(t).value, m);
      case (Str(s), Date(n)) => NumbersCompared(Fin(h.parseDate(s).value as real), Fin(n as real));
        InstantsBelow(h.parseDate(s).value, n);
        InstantsBelow(n, h.parseDate(s).value);
      case (Date(m), Date(n)) =>
    }
  }

  lemma BoolsBelow(p: bool, q: bool)
    ensures SmallerNumber(BoolNumber(p), BoolNumber(q)) <==> !p && q
    ensures BoolNumber(p).Fin? && (BoolNumber(p) == BoolNumber(q) <==> p == q)
  {
  }

  lemma InstantsBelow(m: int, n: int)
    ensures SmallerNumber(Fin(m as real), Fin(n as real)) <==> m < n
  {
  }

  // Where there is no order, nothing holds of an absent value, and the rest raises.
  lemma NoOrderMeans(h: Host, a: Value, b: Value, ordering: Ordering)
    requires Absent(a) || Absent(b) || !HaveAnOrder(h, a, b)
    ensures Ordered(h, a, b, ordering) == OrderedByValue(h, a, b, ordering)
  {
    hide CompareAlike, LooksIso, Holds, Says, Minus, Earlier, Level;
  }

  lemma OrderedMeans(h: Host, a: Value, b: Value, ordering: Ordering)
    ensures Ordered(h, a, b, ordering) == OrderedByValue(h, a, b, ordering)
  {
    hide Compare, Earlier, Level, HaveAnOrder, KindNamed;
    if !Absent(a) && !Absent(b) && HaveAnOrder(h, a, b) {
      CompareSign(h, a, b, ordering);
    } else {
      NoOrderMeans(h, a, b, ordering);
    }
  }

  /** `gt`, `gte`, `lt` and `lte` say which value comes first, or raise, for all values. */
  lemma OrderingsMean(h: Host, ordering: Ordering, l: Operand, r: Operand, ctx: Value, depth: nat)
    requires depth <= MAX_DEPTH
    ensures Evaluate(h, Compared(ordering, l, r), ctx, depth) == OrderedByValue(h, Resolve(l, ctx), Resolve(r, ctx), ordering)
  {
    hide Resolve, Ordered, OrderedByValue;
    OrderedMeans(h, Resolve(l, ctx), Resolve(r, ctx), ordering);
  }

  /** Five is greater than three, and not less. */
  lemma FiveIsGreaterThanThree(h: Host, ctx: Value)
    ensures Evaluate(h, Compared(Gt, Literal(Num(Fin(5.0))), Literal(Num(Fin(3.0)))), ctx, 0) == Success(true)
    ensures Evaluate(h, Compared(Lt, Literal(Num(Fin(5.0))), Literal(Num(Fin(3.0)))), ctx, 0) == Success(false)
  {
  }

  /** A text looks like a date if and only if it is `dddd-dd-dd`, and either ends there or goes on with `T` or a space. */
  lemma LooksIsoIff(s: string)
    ensures LooksIso(s) <==> exists y, m, d, rest {:trigger y + "-" + m + "-" + d + rest} ::
              && |y| == 4 && |m| == 2 && |d| == 2 && AllDigits(y + m + d)
              && s == y + "-" + m + "-" + d + rest
              && (rest == "" || rest[0] in "T ")
  {
    if LooksIso(s) {
      var y, m, d, rest := s[..4], s[5..7], s[8..10], s[10..];
      assert s == y + "-" + m + "-" + d + rest;
      assert AllDigits(y + m + d);
    }
    forall y, m, d, rest | |y| == 4 && |m| == 2 && |d| == 2 && AllDigits(y + m + d)
                           && s == y + "-" + m + "-" + d + rest && (rest == "" || rest[0] in "T ")
      ensures LooksIso(s)
    {
      DatePlaces(y, m, d, rest);
    }
  }

  lemma DatePlaces(y: string, m: string, d: string, rest: string)
    requires |y| == 4 && |m| == 2 && |d| == 2 && AllDigits(y + m + d) && (rest == "" || rest[0] in "T ")
    ensures LooksIso(y + "-" + m + "-" + d + rest)
  {
    var digits, s := y + m + d, y + "-" + m + "-" + d + rest;
    assert s[0] == digits[0] && s[1] == digits[1] && s[2] == digits[2] && s[3] == digits[3];
    assert s[5] == digits[4] && s[6] == digits[5] && s[8] == digits[6] && s[9] == digits[7];
    assert digits[0] in digits && digits[1] in digits && digits[2] in digits && digits[3] in digits;
    assert digits[4] in digits && digits[5] in digits && digits[6] in digits && digits[7] in digits;
  }

  /* ------------------------------------------------------------ equality */

  // The number a value counts as: its own, or a date's milliseconds.
  function CountsAs(v: Value): Option<Number> {
    match v
    case Num(n) => Some(n)
    case Date(ms) => Some(Fin(ms as real))
    case InvalidDate => Some(NaN)
    case _ => None
  }

  predicate EqualByValue(h: Host, a: Value, b: Value) {
    || (a.Null? && b.Null?)
    || (a.Bool? && b.Bool? && a.b == b.b)
    || (a.Str? && b.Str? && a.s == b.s)
    || (CountsAs(a).Some? && CountsAs(a) == CountsAs(b) && CountsAs(a) != Some(NaN))
    || (a.Str? && CountsAs(b).Some? && a.s == h.numText(CountsAs(b).value))
    || (b.Str? && CountsAs(a).Some? && b.s == h.numText(CountsAs(a).value))
  }

  lemma LooseEqualMeans(h: Host, a: Value, b: Value)
    ensures LooseEqual(h, a, b) <==> EqualByValue(h, a, b)
  {
  }

  ghost predicate SomeEquals(h: Host, items: seq<Value>, v: Value) {
    exists x :: x in items && EqualByValue(h, x, v)
  }

  // What `in` and `nin` look through.
  function Choices(v: Value): seq<Value> {
    match v
    case Arr(items) => items
    case Undefined => []
    case Null => []
    case _ => [v]
  }

  lemma MemberMeans(h: Host, v: Value, items: seq<Value>)
    ensures Member(h, v, items) <==> SomeEquals(h, items, v)
  {
    hide LooseEqual, EqualByValue;
    forall x
      ensures LooseEqual(h, x, v) <==> EqualByValue(h, x, v)
    {
      LooseEqualMeans(h, x, v);
    }
  }

  /** `eq`, `ne`, `in` and `nin` say which values are equal, for all values. */
  lemma EqualitiesMean(h: Host, l: Operand, r: Operand, ctx: Value, depth: nat)
    requires depth <= MAX_DEPTH
    ensures var a, b := Resolve(l, ctx), Resolve(r, ctx);
            && Evaluate(h, Eq(l, r), ctx, depth) == Success(EqualByValue(h, a, b))
            && Evaluate(h, Ne(l, r), ctx, depth) == Success(!EqualByValue(h, a, b))
            && Evaluate(h, In(l, r), ctx, depth) == Success(SomeEquals(h, Choices(b), a))
            && Evaluate(h, Nin(l, r), ctx, depth) == Success(!SomeEquals(h, Choices(b), a))
  {
    hide Resolve, LooseEqual, EqualByValue, Member, SomeEquals;
    var a, b := Resolve(l, ctx), Resolve(r, ctx);
    LooseEqualMeans(h, a, b);
    assert AsArray(b) == Choices(b);
    MemberMeans(h, a, Choices(b));
  }

  /* ------------------------------------------------------------ text */

  ghost predicate BeginsWith(s: string, prefix: string) {
    exists rest {:trigger prefix + rest} :: s == prefix + rest
  }

  ghost predicate FinishesWith(s: string, suffix: string) {
    exists front {:trigger front + suffix} :: s == front + suffix
  }

  ghost predicate Holds(s: string, part: string) {
    exists front, rest {:trigger front + part + rest} :: s == front + part + rest
  }

  lemma HasPrefixMeans(s: string, prefix: string)
    ensures HasPrefix(s, prefix) <==> BeginsWith(s, prefix)
  {
    if HasPrefix(s, prefix) {
      assert s == prefix + s[|prefix|..];
    }
  }

  lemma HasSuffixMeans(s: string, suffix: string)
    ensures HasSuffix(s, suffix) <==> FinishesWith(s, suffix)
  {
    if HasSuffix(s, suffix) {
      assert s == s[..|s| - |suffix|] + suffix;
    }
  }

  lemma {:induction false} IncludesMeans(s: string, part: string)
    ensures Includes(s, part) <==> Holds(s, part)
  {
    hide HasPrefix;
    HasPrefixMeans(s, part);
    if HasPrefix(s, part) {
      var rest :| s == part + rest;
      assert s == "" + part + rest;
    } else if s != "" {
      IncludesMeans(s[1..], part);
      if Includes(s[1..], part) {
        var front, rest :| s[1..] == front + part + rest;
        assert s == ([s[0]] + front) + part + rest;
      }
      if front, rest :| s == front + part + rest {
        AtFrontOrLater(s, front, part, rest);
      }
    } else {
      EmptyHoldsEmpty(part);
    }
  }

  lemma EmptyHoldsEmpty(part: string)
    ensures Holds("", part) ==> BeginsWith("", part)
  {
    assert part == "" ==> "" == part + "";
  }

  lemma AtFrontOrLater(s: string, front: string, part: string, rest: string)
    requires s == front + part + rest
    ensures BeginsWith(s, part) || (s != "" && Holds(s[1..], part))
  {
    if front == "" {
      assert s == part + rest;
    } else {
      assert s[1..] == front[1..] + part + rest;
    }
  }

  // What a text is searched for: a text, or a number written out.
  function Sought(h: Host, v: Value): Option<string> {
    match v
    case Str(s) => Some(s)
    case Num(n) => Some(h.numText(n))
    case _ => None
  }

  lemma ContainsTextMeans(h: Host, a: Value, b: Value)
    ensures ContainsText(h, a, b) <==> a.Str? && Sought(h, b).Some? && Holds(h.lower(a.s), h.lower(Sought(h, b).value))
  {
    hide Includes, Holds;
    if a.Str? {
      IncludesMeans(h.lower(a.s), h.lower(TextOf(h, b)));
    }
  }

  /** The operators on text say where one text is in another, whatever their case; `contains` also looks through an array. */
  lemma TextOperatorsMean(h: Host, l: Operand, r: Operand, ctx: Value, depth: nat)
    requires depth <= MAX_DEPTH
    ensures var a, b := Resolve(l, ctx), Resolve(r, ctx);
            && Evaluate(h, Contains(l, r), ctx, depth) ==
               Success(if a.Arr? then SomeEquals(h, a.items, b)
                       else a.Str? && Sought(h, b).Some? && Holds(h.lower(a.s), h.lower(Sought(h, b).value)))
            && Evaluate(h, StartsWith(l, r), ctx, depth) == Success(a.Str? && b.Str? && BeginsWith(h.lower(a.s), h.lower(b.s)))
            && Evaluate(h, EndsWith(l, r), ctx, depth) == Success(a.Str? && b.Str? && FinishesWith(h.lower(a.s), h.lower(b.s)))
  {
    hide Resolve, EqualByValue, Member, SomeEquals, ContainsText, Sought, BeginsWith, FinishesWith, Holds, HasPrefix, HasSuffix;
    var a, b := Resolve(l, ctx), Resolve(r, ctx);
    if a.Arr? {
      MemberMeans(h, b, a.items);
    }
    ContainsTextMeans(h, a, b);
    if a.Str? && b.Str? {
      HasPrefixMeans(h.lower(a.s), h.lower(b.s));
      HasSuffixMeans(h.lower(a.s), h.lower(b.s));
    }
  }

  /** `matches` holds of a text that a pattern of at most 500 characters matches, raises for any other pattern, and fails of what is no text. */
  lemma MatchesMeans(h: Host, o: Operand, pattern: string, ctx: Value, depth: nat)
    requires depth <= MAX_DEPTH
    ensures var v, outcome := Resolve(o, ctx), Evaluate(h, Matches(o, pattern), ctx, depth);
            && (!v.Str? ==> outcome == Success(false))
            && (v.Str? && |pattern| > 500 ==> outcome == Failure(PatternTooLong))
            && (v.Str? && |pattern| <= 500 && !h.compiles(pattern) ==> outcome == Failure(InvalidPattern(pattern)))
            && (v.Str? && |pattern| <= 500 && h.compiles(pattern) ==> outcome == Success(h.matches(pattern, v.s)))
  {
    hide Resolve;
  }

  /* ------------------------------------------------------------ presence */

  /** `exists` and `empty` say what is there. */
  lemma PresenceMeans(h: Host, o: Operand, ctx: Value, depth: nat)
    requires depth <= MAX_DEPTH
    ensures var v := Resolve(o, ctx);
            && Evaluate(h, Exists(o), ctx, depth) == Success(v != Null && v != Undefined)
            && Evaluate(h, Empty(o), ctx, depth) == Success(v == Null || v == Undefined || v == Str("") || v == Arr([]))
            && Evaluate(h, Always, ctx, depth) == Success(true)
  {
    hide Resolve;
  }

  /* ------------------------------------------------------------ time */

  // The time a value stands for: what it counts as, or the instant a text parses to.
  function TimeOf(h: Host, v: Value): Option<Number> {
    match v
    case Str(s) => if h.parseDate(s).Some? then Some(Fin(h.parseDate(s).value as real)) else None
    case _ => CountsAs(v)
  }

  lemma ToTimeMeans(h: Host, v: Value)
    ensures ToTime(h, v) == TimeOf(h, v)
  {
  }

  /** `before` and `after` say which of two times is the earlier, and fail where one is no time. */
  lemma BeforeAndAfterMean(h: Host, l: Operand, r: Operand, ctx: Value, depth: nat)
    requires depth <= MAX_DEPTH
    ensures var s, t := TimeOf(h, Resolve(l, ctx)), TimeOf(h, Resolve(r, ctx));
            && Evaluate(h, Before(l, r), ctx, depth) == Success(s.Some? && t.Some? && SmallerNumber(s.value, t.value))
            && Evaluate(h, After(l, r), ctx, depth) == Success(s.Some? && t.Some? && SmallerNumber(t.value, s.value))
  {
    hide Resolve, ToTime, TimeOf;
    ToTimeMeans(h, Resolve(l, ctx));
    ToTimeMeans(h, Resolve(r, ctx));
  }

  predicate NoLater(s: Number, t: Number) {
    SmallerNumber(s, t) || (s == t && t != NaN)
  }

  /**
   * `withinLast` holds of a time no later than now and no more than the duration
   * earlier; it fails of no time and raises for no duration.  Now is the
   * context's `now`, or else the clock.
   */
  lemma WithinLastMeans(h: Host, o: Operand, iso: string, ctx: Value, depth: nat)
    requires depth <= MAX_DEPTH
    ensures var t, given := TimeOf(h, Resolve(o, ctx)), TimeOf(h, PathValue(ctx, "now"));
            var now := if given.Some? then given.value else Fin(h.clock as real);
            var outcome := Evaluate(h, WithinLast(o, iso), ctx, depth);
            && (t == None ==> outcome == Success(false))
            && (t.Some? && h.duration(iso) == None ==> outcome == Failure(InvalidDuration(iso)))
            && (t.Some? && h.duration(iso).Some? ==>
                  outcome == Success(NoLater(Minus(now, h.duration(iso).value), t.value) && NoLater(t.value, now)))
            && (t.Some? && h.duration(iso).Some? && t.value.Fin? && now.Fin? && h.duration(iso).value.Fin? ==>
                  outcome == Success(now.r - h.duration(iso).value.r <= t.value.r <= now.r))
  {
    hide Resolve, ToTime, TimeOf, PathValue;
    ToTimeMeans(h, Resolve(o, ctx));
    ToTimeMeans(h, PathValue(ctx, "now"));
  }
}
