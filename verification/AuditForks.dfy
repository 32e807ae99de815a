/**
 * What the audit chain needs of its writers: locks held to the end of the
 * transaction, and no two calls for one tenant under way in a transaction
 * (`recordAudit` in `packages/platform/src/audit.ts`).
 */
module AuditForks {
  import opened Wrappers
  import opened Canonical
  import opened AuditChain
  import opened AuditProtocol

  /* ------------------------------------------------------------ why the lock is held to the end */

  // Two transactions each write the same content, the second before the first commits.
  function ForkingRun(content: Content): seq<Step> {
    var tenant, row := content.tenantId, (t: nat) => Insert(t, 0, content, content, "");
    [Begin(1), Begin(2), Lock(1, 0, tenant), ReadLast(1, 0), row(1), Lock(2, 0, tenant), ReadLast(2, 0), row(2), Commit(1), Commit(2)]
  }

  lemma Follows(sys: System, db: Db, step: Step, next: Db, rest: seq<Step>, end: Db)
    requires Enabled(sys, db, step) && Apply(sys, db, step) == next
    requires IsRun(sys, next, rest) && After(sys, next, rest) == end
    ensures IsRun(sys, db, [step] + rest) && After(sys, db, [step] + rest) == end
  {
    hide Enabled, Apply;
    assert ([step] + rest)[1..] == rest;
  }

  lemma SelectsNone(tenant: string)
    ensures Select([], tenant) == []
  {
  }

  lemma SelectsBoth(a: Row, b: Row)
    requires a.seqNo < b.seqNo && a.content.tenantId == b.content.tenantId
    ensures Select([a, b], a.content.tenantId) == [a, b]
  {
    hide Of, OrderedBySeq;
    var tenant := a.content.tenantId;
    OfAppend([], a, tenant);
    OfAppend([a], b, tenant);
    NoneOf([], tenant);
    assert [] + [a] == [a] && [a] + [b] == [a, b];
    AscendingIsOrdered([a, b]);
  }

  // Small set, sequence and map facts the steps below need.
  lemma Replaces(x: Tx, y: Tx, z: Tx)
    ensures map[1 := x, 2 := y][1 := z] == map[1 := z, 2 := y] && map[1 := x, 2 := y][2 := z] == map[1 := x, 2 := z]
  {
  }

  lemma CallMoves(x: Phase, y: Phase)
    ensures map[0 := x][0 := y] == map[0 := y] && map[0 := x] - {0} == map[]
  {
  }

  lemma SameAsItself(c: Content)
    ensures SameContent(c, c)
  {
  }

  // The first four steps: both transactions begin, and the first takes the lock and reads.
  lemma RunStarts(sys: System, content: Content, rest: seq<Step>, end: Db)
    requires var key := sys.lockKey(content.tenantId);
             var next := Db([], 0, map[1 := Tx([], {key}, map[0 := HasRead(content.tenantId, None)]), 2 := Tx([], {}, map[])]);
             IsRun(sys, next, rest) && After(sys, next, rest) == end
    ensures var steps := [Begin(1)] + ([Begin(2)] + ([Lock(1, 0, content.tenantId)] + ([ReadLast(1, 0)] + rest)));
            IsRun(sys, START, steps) && After(sys, START, steps) == end
  {
    hide IsRun, After, Select, ComputeHash;
    var tenant, key := content.tenantId, sys.lockKey(content.tenantId);
    SelectsNone(tenant);
    var idle, locked := Tx([], {}, map[]), Tx([], {key}, map[0 := Locked(tenant)]);
    var read := Tx([], {key}, map[0 := HasRead(tenant, None)]);
    var db3 := Db([], 0, map[1 := locked, 2 := idle]);
    var none: seq<Row> := [];
    assert none + none == none && {} + {key} == {key};
    Replaces(locked, idle, read);
    Replaces(idle, idle, locked);
    CallMoves(Locked(tenant), HasRead(tenant, None));
    Follows(sys, db3, ReadLast(1, 0), Db([], 0, map[1 := read, 2 := idle]), rest, end);
    Follows(sys, Db([], 0, map[1 := idle, 2 := idle]), Lock(1, 0, tenant), db3, [ReadLast(1, 0)] + rest, end);
    Follows(sys, Db([], 0, map[1 := idle]), Begin(2), Db([], 0, map[1 := idle, 2 := idle]),
            [Lock(1, 0, tenant)] + ([ReadLast(1, 0)] + rest), end);
    Follows(sys, START, Begin(1), Db([], 0, map[1 := idle]), [Begin(2)] + ([Lock(1, 0, tenant)] + ([ReadLast(1, 0)] + rest)), end);
  }

  // The next four: the first inserts, which frees the lock; the second takes it, reads and inserts.
  lemma RunGoesOn(sys: System, content: Content, a: Row, b: Row, rest: seq<Step>, end: Db)
    requires !sys.heldToEnd && ContentWellFormed(content)
    requires a == Row(0, content, None, ComputeHash(sys.p, content, None), "") && b == a.(seqNo := 1)
    requires var next := Db([], 2, map[1 := Tx([a], {}, map[]), 2 := Tx([b], {}, map[])]);
             IsRun(sys, next, rest) && After(sys, next, rest) == end
    ensures var key := sys.lockKey(content.tenantId);
            var db := Db([], 0, map[1 := Tx([], {key}, map[0 := HasRead(content.tenantId, None)]), 2 := Tx([], {}, map[])]);
            var steps := [Insert(1, 0, content, content, "")] + ([Lock(2, 0, content.tenantId)] + ([ReadLast(2, 0)] + ([Insert(2, 0, content, content, "")] + rest)));
            IsRun(sys, db, steps) && After(sys, db, steps) == end
  {
    hide IsRun, After, Select, ComputeHash, ContentWellFormed;
    var tenant, key := content.tenantId, sys.lockKey(content.tenantId);
    SelectsNone(tenant);
    var idle, locked, read := Tx([], {}, map[]), Tx([], {key}, map[0 := Locked(tenant)]), Tx([], {key}, map[0 := HasRead(tenant, None)]);
    var wrote := Tx([a], {}, map[]);
    var none: seq<Row> := [];
    assert none + none == none && {} + {key} == {key} && [] + [a] == [a] && [] + [b] == [b];
    Replaces(wrote, read, Tx([b], {}, map[]));
    Replaces(wrote, locked, read);
    Replaces(wrote, idle, locked);
    Replaces(read, idle, wrote);
    SameAsItself(content);
    CallMoves(Locked(tenant), HasRead(tenant, None));
    CallMoves(HasRead(tenant, None), HasRead(tenant, None));
    var insert := Insert(2, 0, content, content, "");
    var db5 := Db([], 1, map[1 := wrote, 2 := idle]);
    var db6 := Db([], 1, map[1 := wrote, 2 := locked]);
    var db7 := Db([], 1, map[1 := wrote, 2 := read]);
    Follows(sys, db7, insert, Db([], 2, map[1 := wrote, 2 := Tx([b], {}, map[])]), rest, end);
    Follows(sys, db6, ReadLast(2, 0), db7, [insert] + rest, end);
    Follows(sys, db5, Lock(2, 0, tenant), db6, [ReadLast(2, 0)] + ([insert] + rest), end);
    Follows(sys, Db([], 0, map[1 := read, 2 := idle]), Insert(1, 0, content, content, ""), db5,
            [Lock(2, 0, tenant)] + ([ReadLast(2, 0)] + ([insert] + rest)), end);
  }

  // The last two: both commit.
  lemma RunEnds(sys: System, a: Row, b: Row)
    ensures var db := Db([], 2, map[1 := Tx([a], {}, map[]), 2 := Tx([b], {}, map[])]);
            IsRun(sys, db, [Commit(1)] + [Commit(2)]) && After(sys, db, [Commit(1)] + [Commit(2)]) == Db([a, b], 2, map[])
  {
    var wrote1, wrote2 := Tx([a], {}, map[]), Tx([b], {}, map[]);
    var end := Db([a, b], 2, map[]);
    assert IsRun(sys, end, []) && After(sys, end, []) == end;
    hide IsRun, After;
    assert [] + [a] == [a] && [a] + [b] == [a, b] && [Commit(2)] + [] == [Commit(2)];
    Follows(sys, Db([a], 2, map[2 := wrote2]), Commit(2), end, [], end);
    Follows(sys, Db([], 2, map[1 := wrote1, 2 := wrote2]), Commit(1), Db([a], 2, map[2 := wrote2]), [Commit(2)], end);
  }

  lemma TwoFirstRowsFork(p: Primitives, a: Row, b: Row)
    requires a.prevHash == b.prevHash == None
    ensures !IsChain(p, a.content.tenantId, [a, b])
  {
    hide ComputeHash;
    assert [a, b][..1] == [a];
    assert BreakAt(p, a.content.tenantId, [a, b], 1) == Some(PreviousHashMismatch);
  }

  /**
   * A lock released as soon as its row is inserted would not do: the next
   * writer does not yet see that row, and both rows follow the same one.
   */
  lemma ReleasedEarlyChainsFork(sys: System, content: Content)
    requires !sys.heldToEnd && ContentWellFormed(content)
    ensures IsRun(sys, START, ForkingRun(content))
    ensures !IsChain(sys.p, content.tenantId, Select(After(sys, START, ForkingRun(content)).committed, content.tenantId))
  {
    hide ComputeHash, IsRun, After, ContentWellFormed, Select, IsChain;
    var tenant := content.tenantId;
    var a := Row(0, content, None, ComputeHash(sys.p, content, None), "");
    var b := a.(seqNo := 1);
    var end := Db([a, b], 2, map[]);
    var insert := (t: nat) => Insert(t, 0, content, content, "");
    var last := [Commit(1)] + [Commit(2)];
    var middle := [insert(1)] + ([Lock(2, 0, tenant)] + ([ReadLast(2, 0)] + ([insert(2)] + last)));
    RunEnds(sys, a, b);
    RunGoesOn(sys, content, a, b, last, end);
    RunStarts(sys, content, middle, end);
    assert ForkingRun(content) == [Begin(1)] + ([Begin(2)] + ([Lock(1, 0, tenant)] + ([ReadLast(1, 0)] + middle)));
    SelectsBoth(a, b);
    TwoFirstRowsFork(sys.p, a, b);
  }

  /* ------------------------------------------------------------ why calls for one tenant do not overlap */

  // One transaction makes two calls, and both read before either inserts.
  function OverlappingRun(content: Content): seq<Step> {
    var tenant, row := content.tenantId, (c: nat) => Insert(1, c, content, content, "");
    [Begin(1), Lock(1, 1, tenant), Lock(1, 2, tenant), ReadLast(1, 1), ReadLast(1, 2), row(1), row(2), Commit(1)]
  }

  // Small facts about one transaction's calls.
  lemma CallsChange(x: Phase, y: Phase, z: Phase)
    ensures map[1 := x][2 := y] == map[1 := x, 2 := y]
    ensures map[1 := x, 2 := y][1 := z] == map[1 := z, 2 := y] && map[1 := x, 2 := y][2 := z] == map[1 := x, 2 := z]
    ensures map[1 := x, 2 := y] - {1} == map[2 := y] && map[2 := y] - {2} == map[]
  {
  }

  function Alone(rows: seq<Row>, nextSeq: nat, keys: set<int>, calls: map<nat, Phase>): Db {
    Db([], nextSeq, map[1 := Tx(rows, keys, calls)])
  }

  lemma AloneChanges(x: Tx, y: Tx)
    ensures map[1 := x][1 := y] == map[1 := y] && map[1 := x] - {1} == map[]
  {
  }

  // The first five steps: both calls get the lock and read that there is no row.
  lemma BothRead(sys: System, content: Content, rest: seq<Step>, end: Db)
    requires !sys.serial
    requires var key, read := sys.lockKey(content.tenantId), HasRead(content.tenantId, None);
             var next := Alone([], 0, {key}, map[1 := read, 2 := read]);
             IsRun(sys, next, rest) && After(sys, next, rest) == end
    ensures var tenant := content.tenantId;
            var steps := [Begin(1)] + ([Lock(1, 1, tenant)] + ([Lock(1, 2, tenant)] + ([ReadLast(1, 1)] + ([ReadLast(1, 2)] + rest))));
            IsRun(sys, START, steps) && After(sys, START, steps) == end
  {
    hide IsRun, After, Select, ComputeHash;
    var tenant, key := content.tenantId, sys.lockKey(content.tenantId);
    var locked, read := Locked(tenant), HasRead(tenant, None);
    SelectsNone(tenant);
    CallsChange(locked, locked, read);
    CallsChange(read, locked, read);
    var none: seq<Row> := [];
    assert none + none == none && {} + {key} == {key} && {key} + {key} == {key};
    var idle, one, two := Tx([], {}, map[]), Tx([], {key}, map[1 := locked]), Tx([], {key}, map[1 := locked, 2 := locked]);
    var half, both := Tx([], {key}, map[1 := read, 2 := locked]), Tx([], {key}, map[1 := read, 2 := read]);
    AloneChanges(idle, one);
    AloneChanges(one, two);
    AloneChanges(two, half);
    AloneChanges(half, both);
    var r1, r2 := [ReadLast(1, 2)] + rest, [ReadLast(1, 1)] + ([ReadLast(1, 2)] + rest);
    Follows(sys, Db([], 0, map[1 := half]), ReadLast(1, 2), Db([], 0, map[1 := both]), rest, end);
    Follows(sys, Db([], 0, map[1 := two]), ReadLast(1, 1), Db([], 0, map[1 := half]), r1, end);
    Follows(sys, Db([], 0, map[1 := one]), Lock(1, 2, tenant), Db([], 0, map[1 := two]), r2, end);
    Follows(sys, Db([], 0, map[1 := idle]), Lock(1, 1, tenant), Db([], 0, map[1 := one]), [Lock(1, 2, tenant)] + r2, end);
    Follows(sys, START, Begin(1), Db([], 0, map[1 := idle]), [Lock(1, 1, tenant)] + ([Lock(1, 2, tenant)] + r2), end);
  }

  // The last three: both insert, and the transaction commits.
  lemma BothInsert(sys: System, content: Content, a: Row, b: Row)
    requires sys.heldToEnd && ContentWellFormed(content)
    requires a == Row(0, content, None, ComputeHash(sys.p, content, None), "") && b == a.(seqNo := 1)
    ensures var key, read := sys.lockKey(content.tenantId), HasRead(content.tenantId, None);
            var steps := [Insert(1, 1, content, content, "")] + ([Insert(1, 2, content, content, "")] + [Commit(1)]);
            && IsRun(sys, Alone([], 0, {key}, map[1 := read, 2 := read]), steps)
            && After(sys, Alone([], 0, {key}, map[1 := read, 2 := read]), steps) == Db([a, b], 2, map[])
  {
    var key, read := sys.lockKey(content.tenantId), HasRead(content.tenantId, None);
    var both, half, done := Tx([], {key}, map[1 := read, 2 := read]), Tx([a], {key}, map[2 := read]), Tx([a, b], {key}, map[]);
    var end := Db([a, b], 2, map[]);
    assert IsRun(sys, end, []) && After(sys, end, []) == end;
    hide IsRun, After, ComputeHash, ContentWellFormed;
    SameAsItself(content);
    CallsChange(read, read, read);
    AloneChanges(both, half);
    AloneChanges(half, done);
    assert [] + [a] == [a] && [a] + [b] == [a, b] && [] + [a, b] == [a, b] && [Commit(1)] + [] == [Commit(1)];
    Follows(sys, Db([], 2, map[1 := done]), Commit(1), end, [], end);
    Follows(sys, Db([], 1, map[1 := half]), Insert(1, 2, content, content, ""), Db([], 2, map[1 := done]), [Commit(1)], end);
    Follows(sys, Db([], 0, map[1 := both]), Insert(1, 1, content, content, ""), Db([], 1, map[1 := half]),
            [Insert(1, 2, content, content, "")] + [Commit(1)], end);
  }

  /** Two calls for one tenant that overlap in a transaction share its lock and follow the same row. */
  lemma OverlappingCallsFork(sys: System, content: Content)
    requires !sys.serial && sys.heldToEnd && ContentWellFormed(content)
    ensures IsRun(sys, START, OverlappingRun(content))
    ensures !IsChain(sys.p, content.tenantId, Select(After(sys, START, OverlappingRun(content)).committed, content.tenantId))
  {
    hide ComputeHash, IsRun, After, ContentWellFormed, Select, IsChain;
    var tenant := content.tenantId;
    var a := Row(0, content, None, ComputeHash(sys.p, content, None), "");
    var b := a.(seqNo := 1);
    var end := Db([a, b], 2, map[]);
    var last := [Insert(1, 1, content, content, "")] + ([Insert(1, 2, content, content, "")] + [Commit(1)]);
    BothInsert(sys, content, a, b);
    BothRead(sys, content, last, end);
    assert OverlappingRun(content) ==
           [Begin(1)] + ([Lock(1, 1, tenant)] + ([Lock(1, 2, tenant)] + ([ReadLast(1, 1)] + ([ReadLast(1, 2)] + last))));
    SelectsBoth(a, b);
    TwoFirstRowsFork(sys.p, a, b);
  }

  /* ------------------------------------------------------------ exactly what it takes */

  ghost predicate Verifies(sys: System, steps: seq<Step>, tenant: string, limit: nat) {
    IsRun(sys, START, steps) ==> IsChain(sys.p, tenant, Limited(Select(After(sys, START, steps).committed, tenant), limit))
  }

  /**
   * Every run leaves rows that verify, for every tenant and under any limit, if
   * and only if locks are held to the end of a transaction and no transaction
   * has two calls for one tenant under way.
   */
  lemma AllRunsVerifyIff(sys: System)
    requires Ideal(sys.p)
    ensures (forall steps, tenant, limit: nat :: Verifies(sys, steps, tenant, limit)) <==> sys.heldToEnd && sys.serial
  {
    hide IsRun, After, IsChain, Select, Ideal;
    if sys.heldToEnd && sys.serial {
      forall steps, tenant, limit: nat
        ensures Verifies(sys, steps, tenant, limit)
      {
        if IsRun(sys, START, steps) {
          EveryRunVerifies(sys, steps, tenant, limit);
        }
      }
    } else {
      var content := Content("", "", "", None, "", "", None, Null, Null, 0);
      assert ContentWellFormed(content);
      var steps := if sys.heldToEnd then OverlappingRun(content) else ForkingRun(content);
      if sys.heldToEnd {
        OverlappingCallsFork(sys, content);
      } else {
        ReleasedEarlyChainsFork(sys, content);
      }
      var rows := Select(After(sys, START, steps).committed, "");
      assert Limited(rows, |rows|) == rows;
      assert !Verifies(sys, steps, "", |rows|);
    }
  }
}
