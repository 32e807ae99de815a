/**
 * The values an expression meets at run time, and reading a dotted path out of
 * a context (`readPath` in `packages/expr/src/index.ts`).
 */
module Values {
  import opened Wrappers
  import opened Text

  /* ------------------------------------------------------------ numbers */

  // A double, without rounding and with one zero.
  datatype Number = NaN | NegInf | Fin(r: real) | PosInf

  function Minus(a: Number, b: Number): Number {
    match (a, b)
    case (Fin(x), Fin(y)) => Fin(x - y)
    case (NaN, _) => NaN
    case (_, NaN) => NaN
    case (PosInf, PosInf) => NaN
    case (NegInf, NegInf) => NaN
    case (PosInf, _) => PosInf
    case (_, NegInf) => PosInf
    case (_, _) => NegInf
  }

  function Negated(a: Number): Number {
    match a
    case NaN => NaN
    case NegInf => PosInf
    case Fin(r) => Fin(-r)
    case PosInf => NegInf
  }

  // `a < b`.
  predicate Below(a: Number, b: Number) {
    match (a, b)
    case (Fin(x), Fin(y)) => x < y
    case (NegInf, Fin(_)) => true
    case (NegInf, PosInf) => true
    case (Fin(_), PosInf) => true
    case (_, _) => false
  }

  // `a <= b`: false of NaN, even of NaN and itself.
  predicate AtMost(a: Number, b: Number) {
    a != NaN && b != NaN && (a == b || Below(a, b))
  }

  const ZERO: Number := Fin(0.0)

  /* ------------------------------------------------------------ values */

  // A Date holds milliseconds, or is invalid.  An object's members are its own properties.
  datatype Value =
    | Undefined
    | Null
    | Num(n: Number)
    | Str(s: string)
    | Bool(b: bool)
    | Date(ms: int)
    | InvalidDate
    | Arr(items: seq<Value>)
    | Obj(members: map<string, Value>)

  // `v === null || v === undefined`.
  predicate Absent(v: Value) {
    v == Null || v == Undefined
  }

  /* ------------------------------------------------------------ reading a path */

  // The text of an array index: a decimal without leading zeros.
  predicate IsIndexText(s: string) {
    s != "" && AllDigits(s) && (s[0] != '0' || |s| == 1)
  }

  lemma WrittenDigitByDigit(n: nat, c: char)
    requires n > 0 && IsDigit(c)
    ensures DecimalText(10 * n + (c - '0') as nat) == DecimalText(n) + [c]
  {
    var d := (c - '0') as nat;
    assert (10 * n + d) / 10 == n && (10 * n + d) % 10 == d;
  }

  // Every index text is how its number is written.
  lemma {:induction false} IndexTextIsWritten(s: string)
    requires IsIndexText(s)
    ensures DecimalText(Decimal(s)) == s
  {
    hide DecimalText;
    var n := |s| - 1;
    var front, last := s[..n], s[n];
    assert last in s && s == front + [last];
    assert forall c | c in front :: c in s;
    if n == 0 {
      assert Decimal(front) == 0;
      OneDigitIsWritten(last);
    } else {
      assert front[0] == s[0];
      IndexTextIsWritten(front);
      PositiveIndex(front);
      WrittenDigitByDigit(Decimal(front), last);
    }
  }

  lemma OneDigitIsWritten(c: char)
    requires IsDigit(c)
    ensures DecimalText((c - '0') as nat) == [c]
  {
  }

  lemma {:induction false} PositiveIndex(s: string)
    requires s != "" && AllDigits(s) && s[0] != '0'
    ensures Decimal(s) > 0
  {
    var n := |s| - 1;
    assert s[n] in s;
    if n > 0 {
      assert forall c | c in s[..n] :: c in s;
      assert s[..n][0] == s[0];
      PositiveIndex(s[..n]);
    }
  }

  lemma {:induction false} DecimalIsIndexText(n: nat)
    ensures IsIndexText(DecimalText(n))
    ensures n > 0 ==> DecimalText(n)[0] != '0'
  {
    DecimalReadsBack(n);
    if n >= 10 {
      DecimalIsIndexText(n / 10);
      assert DecimalText(n)[0] == DecimalText(n / 10)[0];
    }
  }

  // The own property of a value, if it has one by that name.
  function OwnProperty(v: Value, segment: string): Option<Value> {
    match v
    case Obj(members) => if segment in members then Some(members[segment]) else None
    case Arr(items) =>
      if segment == "length" then Some(Num(Fin(|items| as real)))
      else if IsIndexText(segment) && Decimal(segment) < |items| then Some(items[Decimal(segment)])
      else None
    case _ => None
  }

  // Following the segments one after the other, as far as they lead.
  function Follow(v: Value, segments: seq<string>): Value
    decreases |segments|
  {
    if segments == [] then v
    else
      match OwnProperty(v, segments[0])
      case None => Undefined
      case Some(next) => Follow(next, segments[1..])
  }

  function PathValue(ctx: Value, path: string): Value {
    Follow(ctx, Split(path, '.'))
  }

  /** The own properties: of an object its members, of an array its length and its items by number, of anything else none. */
  lemma OwnPropertiesAre(v: Value, segment: string)
    ensures v.Obj? ==> OwnProperty(v, segment) == if segment in v.members then Some(v.members[segment]) else None
    ensures v.Arr? ==> OwnProperty(v, "length") == Some(Num(Fin(|v.items| as real)))
    ensures v.Arr? ==> forall i: nat :: OwnProperty(v, DecimalText(i)) == if i < |v.items| then Some(v.items[i]) else None
    ensures v.Arr? && segment != "length" && (forall i: nat :: segment != DecimalText(i)) ==> OwnProperty(v, segment) == None
    ensures !v.Obj? && !v.Arr? ==> OwnProperty(v, segment) == None
  {
    if v.Arr? {
      forall i: nat
        ensures OwnProperty(v, DecimalText(i)) == if i < |v.items| then Some(v.items[i]) else None
      {
        DecimalReadsBack(i);
        DecimalIsIndexText(i);
        assert DecimalText(i) != "length" by {
          assert !IsDigit("length"[0]) && "length"[0] in "length";
        }
      }
      if IsIndexText(segment) {
        IndexTextIsWritten(segment);
      }
    }
  }

  /** A path without a dot names an own property; a longer one goes on from it. */
  lemma PathsLead(ctx: Value, first: string, rest: string)
    requires '.' !in first
    ensures PathValue(ctx, first) == match OwnProperty(ctx, first) case None => Undefined case Some(v) => v
    ensures PathValue(ctx, first + "." + rest) == match OwnProperty(ctx, first) case None => Undefined case Some(v) => PathValue(v, rest)
  {
    hide OwnProperty;
    IndexOfNone(first, '.');
    var one := Split(first, '.');
    assert one == [first] && one[0] == first && one[1..] == [];
    assert forall v :: Follow(v, []) == v;
    assert PathValue(ctx, first) == match OwnProperty(ctx, first) case None => Undefined case Some(v) => Follow(v, []);
    var path := first + ['.'] + rest;
    IndexOfFirst(first, '.', rest);
    assert path == first + "." + rest;
    assert path[..|first|] == first && path[|first| + 1..] == rest;
    assert Split(path, '.') == [first] + Split(rest, '.');
    assert ([first] + Split(rest, '.'))[1..] == Split(rest, '.');
  }

  // A value with another at the end of a path into it.
  function Nest(segments: seq<string>, v: Value): Value {
    if segments == [] then v else Obj(map[segments[0] := Nest(segments[1..], v)])
  }

  lemma {:induction false} FollowNest(segments: seq<string>, v: Value)
    ensures Follow(Nest(segments, v), segments) == v
  {
    if segments != [] {
      FollowNest(segments[1..], v);
    }
  }

  /** `readPath`. */
  method ReadPath(ctx: Value, path: string) returns (v: Value)
    ensures v == PathValue(ctx, path)
  {
    var segments := Split(path, '.');
    var cur := ctx;
    for i := 0 to |segments|
      invariant Follow(cur, segments[i..]) == PathValue(ctx, path)
    {
      if Absent(cur) {
        return Undefined;
      }
      if !cur.Obj? && !cur.Arr? && !cur.Date? && !cur.InvalidDate? {
        return Undefined;
      }
      var next := OwnProperty(cur, segments[i]);
      if next == None {
        return Undefined;
      }
      assert segments[i..][1..] == segments[i + 1..];
      cur := next.value;
    }
    return cur;
  }
}
