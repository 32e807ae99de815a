/**
 * The audit hash chain and its verifier (`packages/platform/src/audit.ts`).
 */
module AuditChain {
  import opened Wrappers
  import Text
  import opened Canonical
  import opened CanonicalUnique

  // SHA-256 in hex, `toISOString`, and the key order of `localeCompare`.
  datatype Primitives = Primitives(sha256: string -> string, isoText: int -> string, before: KeyOrder)

  ghost predicate Injective<A(!new), B(!new)>(f: A -> B) {
    forall a, b {:trigger f(a), f(b)} :: f(a) == f(b) ==> a == b
  }

  // No two texts share a hash, no two instants a text, and keys are totally ordered.
  ghost predicate Ideal(p: Primitives) {
    Injective(p.sha256) && Injective(p.isoText) && StrictTotal(p.before)
  }

  // One character for every step away from zero, the sides taking turns.
  function Unary(t: int): string {
    seq(if t >= 0 then 2 * t else -2 * t - 1, i => '1')
  }

  /** Such primitives can be had, if not from SHA-256 to the letter. */
  lemma SomePrimitivesAreIdeal()
    ensures Ideal(Primitives(s => s, Unary, Text.TextBelow))
  {
    forall s, t | Unary(s) == Unary(t)
      ensures s == t
    {
      assert |Unary(s)| == |Unary(t)|;
    }
    forall a, b, c
      ensures !(Text.TextBelow(a, b) && Text.TextBelow(b, a))
      ensures a == b || Text.TextBelow(a, b) || Text.TextBelow(b, a)
      ensures Text.TextBelow(a, b) && Text.TextBelow(b, c) ==> Text.TextBelow(a, c)
    {
      Text.TextTrichotomy(a, b);
      if Text.TextBelow(a, b) && Text.TextBelow(b, c) {
        Text.TextTransitive(a, b, c);
      }
    }
  }

  // What the hash of a row covers, apart from the link to the row before.
  datatype Content = Content(
    id: string,
    tenantId: string,
    actorType: string,
    actorId: Option<string>,
    action: string,
    targetType: string,
    targetId: Option<string>,
    beforeState: Json,
    afterState: Json,
    occurredAt: int)

  // A stored row; `unhashed` stands for the columns the hash leaves out.
  datatype Row = Row(seqNo: nat, content: Content, prevHash: Option<string>, hash: string, unhashed: string)

  function TextOrNull(s: Option<string>): Json {
    match s
    case None => Null
    case Some(text) => Str(text)
  }

  // `value ?? null`.
  function OrNull(v: Json): Json {
    if v == Undefined then Null else v
  }

  // The members of the hashed object, in the order the source writes them.
  const HASHED_FIELDS: nat := 11

  function FieldName(i: nat): string {
    if i == 0 then "id"
    else if i == 1 then "tenantId"
    else if i == 2 then "actorType"
    else if i == 3 then "actorId"
    else if i == 4 then "action"
    else if i == 5 then "targetType"
    else if i == 6 then "targetId"
    else if i == 7 then "before"
    else if i == 8 then "after"
    else if i == 9 then "occurredAt"
    else "prevHash"
  }

  function FieldValue(p: Primitives, c: Content, prevHash: Option<string>, i: nat): Json {
    if i == 0 then Str(c.id)
    else if i == 1 then Str(c.tenantId)
    else if i == 2 then Str(c.actorType)
    else if i == 3 then TextOrNull(c.actorId)
    else if i == 4 then Str(c.action)
    else if i == 5 then Str(c.targetType)
    else if i == 6 then TextOrNull(c.targetId)
    else if i == 7 then OrNull(c.beforeState)
    else if i == 8 then OrNull(c.afterState)
    else if i == 9 then Str(p.isoText(c.occurredAt))
    else TextOrNull(prevHash)
  }

  function FieldsFrom(p: Primitives, c: Content, prevHash: Option<string>, i: nat): Members
    decreases HASHED_FIELDS - i
  {
    if i >= HASHED_FIELDS then Empty
    else Member(FieldName(i), FieldValue(p, c, prevHash, i), FieldsFrom(p, c, prevHash, i + 1))
  }

  function Material(p: Primitives, c: Content, prevHash: Option<string>): Json {
    Obj(FieldsFrom(p, c, prevHash, 0))
  }

  /** `computeAuditHash`. */
  function ComputeHash(p: Primitives, c: Content, prevHash: Option<string>): string {
    p.sha256(CanonicalText(p.before, Material(p, c, prevHash)))
  }

  /* ------------------------------------------------------------ verifying */

  // The hash the next row of a chain must point at.
  function LastHash(rows: seq<Row>): Option<string> {
    if rows == [] then None else Some(rows[|rows| - 1].hash)
  }

  datatype Break = PreviousHashMismatch | ContentMismatch

  // What is wrong with row i, if anything, given the rows before it.
  function BreakAt(p: Primitives, tenantId: string, rows: seq<Row>, i: nat): Option<Break>
    requires i < |rows|
  {
    if rows[i].prevHash != LastHash(rows[..i]) then Some(PreviousHashMismatch)
    else if ComputeHash(p, rows[i].content.(tenantId := tenantId), rows[i].prevHash) != rows[i].hash then Some(ContentMismatch)
    else None
  }

  ghost predicate IsChain(p: Primitives, tenantId: string, rows: seq<Row>) {
    forall i | 0 <= i < |rows| :: BreakAt(p, tenantId, rows, i) == None
  }

  datatype BrokenAt = BrokenAt(id: string, seqNo: nat, reason: Break)

  datatype Verification = Verification(tenantId: string, checked: nat, valid: bool, brokenAt: Option<BrokenAt>)

  // `SELECT … ORDER BY seq ASC LIMIT limit`, on rows already in order.
  function Limited(rows: seq<Row>, limit: nat): seq<Row> {
    if |rows| <= limit then rows else rows[..limit]
  }

  /** `verifyAuditChain`, on the rows selected: it reports the first break, and why. */
  method VerifyAuditChain(p: Primitives, tenantId: string, rows: seq<Row>) returns (v: Verification)
    ensures v.tenantId == tenantId && v.checked == |rows|
    ensures v.valid <==> IsChain(p, tenantId, rows)
    ensures v.valid <==> v.brokenAt == None
    ensures !v.valid ==> exists i ::
              && 0 <= i < |rows|
              && IsChain(p, tenantId, rows[..i])
              && BreakAt(p, tenantId, rows, i) == Some(v.brokenAt.value.reason)
              && v.brokenAt.value.id == rows[i].content.id && v.brokenAt.value.seqNo == rows[i].seqNo
  {
    hide ComputeHash;
    var expectedPrev: Option<string> := None;
    for i := 0 to |rows|
      invariant expectedPrev == LastHash(rows[..i])
      invariant forall j | 0 <= j < i :: BreakAt(p, tenantId, rows, j) == None
    {
      var row := rows[i];
      if row.prevHash != expectedPrev {
        PrefixIsChain(p, tenantId, rows, i);
        assert BreakAt(p, tenantId, rows, i) == Some(PreviousHashMismatch);
        return Verification(tenantId, |rows|, false, Some(BrokenAt(row.content.id, row.seqNo, PreviousHashMismatch)));
      }
      var recomputed := ComputeHash(p, row.content.(tenantId := tenantId), row.prevHash);
      if recomputed != row.hash {
        PrefixIsChain(p, tenantId, rows, i);
        assert BreakAt(p, tenantId, rows, i) == Some(ContentMismatch);
        return Verification(tenantId, |rows|, false, Some(BrokenAt(row.content.id, row.seqNo, ContentMismatch)));
      }
      expectedPrev := Some(row.hash);
    }
    return Verification(tenantId, |rows|, true, None);
  }

  // Rows before the first break are a chain.
  lemma PrefixIsChain(p: Primitives, tenantId: string, rows: seq<Row>, n: nat)
    requires n <= |rows| && forall j | 0 <= j < n :: BreakAt(p, tenantId, rows, j) == None
    ensures IsChain(p, tenantId, rows[..n])
  {
    hide ComputeHash;
    forall j | 0 <= j < n
      ensures BreakAt(p, tenantId, rows[..n], j) == None
    {
      assert rows[..n][..j] == rows[..j];
      assert BreakAt(p, tenantId, rows, j) == None;
    }
  }

  /** Cutting rows off the end leaves a chain: the verifier cannot see truncation. */
  lemma TruncationVerifies(p: Primitives, tenantId: string, rows: seq<Row>, n: nat)
    requires IsChain(p, tenantId, rows) && n <= |rows|
    ensures IsChain(p, tenantId, rows[..n])
  {
    hide BreakAt;
    PrefixIsChain(p, tenantId, rows, n);
  }

  /** A row that points at the last hash and hashes to its own extends a chain. */
  lemma ChainExtends(p: Primitives, tenantId: string, rows: seq<Row>, row: Row)
    requires IsChain(p, tenantId, rows)
    requires row.prevHash == LastHash(rows) && row.content.tenantId == tenantId
    requires row.hash == ComputeHash(p, row.content, row.prevHash)
    ensures IsChain(p, tenantId, rows + [row])
  {
    hide ComputeHash;
    var all := rows + [row];
    forall i | 0 <= i < |all|
      ensures BreakAt(p, tenantId, all, i) == None
    {
      if i < |rows| {
        assert BreakAt(p, tenantId, rows, i) == None;
        assert all[..i] == rows[..i];
      } else {
        assert all[..i] == rows;
      }
    }
  }

  /* ------------------------------------------------------------ tamper evidence */

  lemma FieldNamesDiffer(i: nat, j: nat)
    requires i < j < HASHED_FIELDS
    ensures FieldName(i) != FieldName(j)
  {
    var a, b := FieldName(i), FieldName(j);
    assert |a| != |b| || a[1] != b[1];
  }

  lemma {:induction false} FieldsLackEarlierNames(p: Primitives, c: Content, prevHash: Option<string>, i: nat, j: nat)
    requires i < j <= HASHED_FIELDS
    ensures !HasKey(FieldsFrom(p, c, prevHash, j), FieldName(i))
    decreases HASHED_FIELDS - j
  {
    hide FieldName, FieldValue;
    if j < HASHED_FIELDS {
      FieldNamesDiffer(i, j);
      FieldsLackEarlierNames(p, c, prevHash, i, j + 1);
    }
  }

  ghost predicate ContentWellFormed(c: Content) {
    WellFormed(c.beforeState) && WellFormed(c.afterState)
  }

  lemma {:induction false} FieldsWellFormed(p: Primitives, c: Content, prevHash: Option<string>, i: nat)
    requires ContentWellFormed(c) && i <= HASHED_FIELDS
    ensures MembersWellFormed(FieldsFrom(p, c, prevHash, i))
    decreases HASHED_FIELDS - i
  {
    hide FieldName;
    if i < HASHED_FIELDS {
      FieldsLackEarlierNames(p, c, prevHash, i, i + 1);
      FieldsWellFormed(p, c, prevHash, i + 1);
    }
  }

  // Two objects with the same first key mean the same only if its values and the rest do.
  lemma SameMeaningPeels(key: string, v: Json, rest: Members, v': Json, rest': Members)
    requires v != Undefined && v' != Undefined && !HasKey(rest, key) && !HasKey(rest', key)
    requires MemberMeanings(Member(key, v, rest)) == MemberMeanings(Member(key, v', rest'))
    ensures Meaning(v) == Meaning(v') && MemberMeanings(rest) == MemberMeanings(rest')
  {
    MeaningKeys(rest, key);
    MeaningKeys(rest', key);
    PutsFirst(key, v, rest);
    PutsFirst(key, v', rest');
    hide MemberMeanings, Meaning;
    MapPeels(MemberMeanings(rest), MemberMeanings(rest'), key, Meaning(v), Meaning(v'));
  }

  lemma PutsFirst(key: string, v: Json, rest: Members)
    requires v != Undefined
    ensures MemberMeanings(Member(key, v, rest)) == MemberMeanings(rest)[key := Meaning(v)]
  {
  }

  lemma MapPeels<K, V>(m: map<K, V>, n: map<K, V>, key: K, v: V, w: V)
    requires key !in m && key !in n && m[key := v] == n[key := w]
    ensures v == w && m == n
  {
    assert m[key := v][key] == n[key := w][key];
    assert m == m[key := v] - {key} && n == n[key := w] - {key};
  }

  lemma FieldIsDefined(p: Primitives, c: Content, prev: Option<string>, i: nat)
    ensures FieldValue(p, c, prev, i) != Undefined
  {
  }

  lemma {:induction false} SameFields(p: Primitives, c: Content, prev: Option<string>, c': Content, prev': Option<string>, i: nat)
    requires i <= HASHED_FIELDS
    requires MemberMeanings(FieldsFrom(p, c, prev, i)) == MemberMeanings(FieldsFrom(p, c', prev', i))
    ensures forall k | i <= k < HASHED_FIELDS :: Meaning(FieldValue(p, c, prev, k)) == Meaning(FieldValue(p, c', prev', k))
    decreases HASHED_FIELDS - i
  {
    hide FieldName, FieldValue, Meaning, MemberMeanings;
    if i < HASHED_FIELDS {
      FieldIsDefined(p, c, prev, i);
      FieldIsDefined(p, c', prev', i);
      FieldsLackEarlierNames(p, c, prev, i, i + 1);
      FieldsLackEarlierNames(p, c', prev', i, i + 1);
      SameMeaningPeels(FieldName(i), FieldValue(p, c, prev, i), FieldsFrom(p, c, prev, i + 1),
                       FieldValue(p, c', prev', i), FieldsFrom(p, c', prev', i + 1));
      SameFields(p, c, prev, c', prev', i + 1);
    }
  }

  // Everything the hash covers is the same.
  ghost predicate SameContent(c: Content, c': Content) {
    && c.id == c'.id && c.tenantId == c'.tenantId
    && c.actorType == c'.actorType && c.actorId == c'.actorId
    && c.action == c'.action
    && c.targetType == c'.targetType && c.targetId == c'.targetId
    && Meaning(OrNull(c.beforeState)) == Meaning(OrNull(c'.beforeState))
    && Meaning(OrNull(c.afterState)) == Meaning(OrNull(c'.afterState))
    && c.occurredAt == c'.occurredAt
  }

  /** A hash pins everything it covers: equal hashes, equal content, equal link to the row before. */
  lemma HashPinsContent(p: Primitives, c: Content, prev: Option<string>, c': Content, prev': Option<string>)
    requires Ideal(p) && ContentWellFormed(c) && ContentWellFormed(c')
    ensures ComputeHash(p, c, prev) == ComputeHash(p, c', prev') <==> SameContent(c, c') && prev == prev'
  {
    var m, m' := Material(p, c, prev), Material(p, c', prev');
    FieldsWellFormed(p, c, prev, 0);
    FieldsWellFormed(p, c', prev', 0);
    CanonicalTextIsMeaning(p.before, m, m');
    assert ComputeHash(p, c, prev) == ComputeHash(p, c', prev') <==> Meaning(m) == Meaning(m') by {
      hide CanonicalText, Material, Meaning;
    }
    if Meaning(m) == Meaning(m') {
      SameFields(p, c, prev, c', prev', 0);
      FieldsPinContent(p, c, prev, c', prev');
    }
    if SameContent(c, c') && prev == prev' {
      ContentFixesFields(p, c, prev, c', prev', 0);
    }
  }

  lemma FieldsPinContent(p: Primitives, c: Content, prev: Option<string>, c': Content, prev': Option<string>)
    requires Ideal(p)
    requires forall k | 0 <= k < HASHED_FIELDS :: Meaning(FieldValue(p, c, prev, k)) == Meaning(FieldValue(p, c', prev', k))
    ensures SameContent(c, c') && prev == prev'
  {
    hide StrictTotal;
    forall k | 0 <= k < HASHED_FIELDS
      ensures Meaning(FieldValue(p, c, prev, k)) == Meaning(FieldValue(p, c', prev', k))
    {
    }
    FieldPins(p, c, prev, c', prev', 0);
    FieldPins(p, c, prev, c', prev', 1);
    FieldPins(p, c, prev, c', prev', 2);
    FieldPins(p, c, prev, c', prev', 3);
    FieldPins(p, c, prev, c', prev', 4);
    FieldPins(p, c, prev, c', prev', 5);
    FieldPins(p, c, prev, c', prev', 6);
    FieldPins(p, c, prev, c', prev', 7);
    FieldPins(p, c, prev, c', prev', 8);
    FieldPins(p, c, prev, c', prev', 9);
    FieldPins(p, c, prev, c', prev', 10);
  }

  lemma FieldPins(p: Primitives, c: Content, prev: Option<string>, c': Content, prev': Option<string>, k: nat)
    requires Meaning(FieldValue(p, c, prev, k)) == Meaning(FieldValue(p, c', prev', k))
    ensures k == 0 ==> c.id == c'.id
    ensures k == 1 ==> c.tenantId == c'.tenantId
    ensures k == 2 ==> c.actorType == c'.actorType
    ensures k == 3 ==> c.actorId == c'.actorId
    ensures k == 4 ==> c.action == c'.action
    ensures k == 5 ==> c.targetType == c'.targetType
    ensures k == 6 ==> c.targetId == c'.targetId
    ensures k == 7 ==> Meaning(OrNull(c.beforeState)) == Meaning(OrNull(c'.beforeState))
    ensures k == 8 ==> Meaning(OrNull(c.afterState)) == Meaning(OrNull(c'.afterState))
    ensures k == 9 ==> p.isoText(c.occurredAt) == p.isoText(c'.occurredAt)
    ensures k == 10 ==> prev == prev'
  {
  }

  lemma {:induction false} ContentFixesFields(p: Primitives, c: Content, prev: Option<string>, c': Content, prev': Option<string>, i: nat)
    requires SameContent(c, c') && prev == prev' && i <= HASHED_FIELDS
    ensures MemberMeanings(FieldsFrom(p, c, prev, i)) == MemberMeanings(FieldsFrom(p, c', prev', i))
    decreases HASHED_FIELDS - i
  {
    hide FieldName, FieldValue, SameContent, Meaning, MemberMeanings;
    if i < HASHED_FIELDS {
      ContentFixesFields(p, c, prev, c', prev', i + 1);
      FieldIsFixed(p, c, prev, c', prev', i);
      PutsFirst(FieldName(i), FieldValue(p, c, prev, i), FieldsFrom(p, c, prev, i + 1));
      PutsFirst(FieldName(i), FieldValue(p, c', prev', i), FieldsFrom(p, c', prev', i + 1));
    }
  }

  lemma FieldIsFixed(p: Primitives, c: Content, prev: Option<string>, c': Content, prev': Option<string>, i: nat)
    requires SameContent(c, c') && prev == prev'
    ensures Meaning(FieldValue(p, c, prev, i)) == Meaning(FieldValue(p, c', prev', i))
    ensures FieldValue(p, c, prev, i) != Undefined && FieldValue(p, c', prev', i) != Undefined
  {
  }

  ghost predicate RowsWellFormed(rows: seq<Row>) {
    forall r | r in rows :: ContentWellFormed(r.content)
  }

  // The same rows, as far as hashes and links go.
  ghost predicate SameRows(tenant: string, a: seq<Row>, tenant': string, b: seq<Row>) {
    && |a| == |b|
    && forall i | 0 <= i < |a| ::
         && SameContent(a[i].content.(tenantId := tenant), b[i].content.(tenantId := tenant'))
         && a[i].prevHash == b[i].prevHash && a[i].hash == b[i].hash
  }

  /**
   * Tamper evidence: two chains that both verify and end in the same hash have
   * the same number of rows and agree on every hashed field of every one of
   * them.  So an edit, an insertion, a deletion or a swap that leaves the last
   * hash alone cannot pass the verifier.
   */
  lemma {:induction false} LastHashPinsChain(p: Primitives, tenant: string, a: seq<Row>, tenant': string, b: seq<Row>)
    requires Ideal(p) && IsChain(p, tenant, a) && IsChain(p, tenant', b)
    requires RowsWellFormed(a) && RowsWellFormed(b)
    requires LastHash(a) == LastHash(b)
    ensures SameRows(tenant, a, tenant', b)
  {
    hide ComputeHash, Ideal, ContentWellFormed, SameContent, IsChain, BreakAt, SameRows;
    if a == [] {
      NoRowsAgree(tenant, tenant', b);
    } else {
      var m, n := |a| - 1, |b| - 1;
      LastRowsAgree(p, tenant, a, tenant', b);
      TruncationVerifies(p, tenant, a, m);
      TruncationVerifies(p, tenant', b, n);
      LastHashPinsChain(p, tenant, a[..m], tenant', b[..n]);
      RowsAgreeWith(tenant, a, tenant', b);
    }
  }

  lemma NoRowsAgree(tenant: string, tenant': string, b: seq<Row>)
    requires LastHash(b) == None
    ensures SameRows(tenant, [], tenant', b)
  {
  }

  lemma RowsAgreeWith(tenant: string, a: seq<Row>, tenant': string, b: seq<Row>)
    requires a != [] && b != [] && SameRows(tenant, a[..|a| - 1], tenant', b[..|b| - 1])
    requires SameContent(a[|a| - 1].content.(tenantId := tenant), b[|b| - 1].content.(tenantId := tenant'))
    requires a[|a| - 1].prevHash == b[|b| - 1].prevHash && a[|a| - 1].hash == b[|b| - 1].hash
    ensures SameRows(tenant, a, tenant', b)
  {
    hide SameContent;
    forall i | 0 <= i < |a| - 1
      ensures SameContent(a[i].content.(tenantId := tenant), b[i].content.(tenantId := tenant'))
      ensures a[i].prevHash == b[i].prevHash && a[i].hash == b[i].hash
    {
      assert a[..|a| - 1][i] == a[i] && b[..|b| - 1][i] == b[i];
    }
  }

  lemma LastRowsAgree(p: Primitives, tenant: string, a: seq<Row>, tenant': string, b: seq<Row>)
    requires Ideal(p) && IsChain(p, tenant, a) && IsChain(p, tenant', b)
    requires RowsWellFormed(a) && RowsWellFormed(b)
    requires a != [] && b != [] && LastHash(a) == LastHash(b)
    ensures var m, n := |a| - 1, |b| - 1;
            && SameContent(a[m].content.(tenantId := tenant), b[n].content.(tenantId := tenant'))
            && a[m].prevHash == b[n].prevHash && a[m].hash == b[n].hash
            && LastHash(a[..m]) == LastHash(b[..n])
  {
    hide ComputeHash, Ideal, ContentWellFormed, SameContent;
    var m, n := |a| - 1, |b| - 1;
    assert BreakAt(p, tenant, a, m) == None && BreakAt(p, tenant', b, n) == None;
    TenantKeepsWellFormed(a[m].content, tenant);
    TenantKeepsWellFormed(b[n].content, tenant');
    HashPinsContent(p, a[m].content.(tenantId := tenant), a[m].prevHash, b[n].content.(tenantId := tenant'), b[n].prevHash);
  }

  lemma TenantKeepsWellFormed(c: Content, tenant: string)
    requires ContentWellFormed(c)
    ensures ContentWellFormed(c.(tenantId := tenant))
  {
  }
}
