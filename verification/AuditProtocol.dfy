/**
 * Concurrent writers of the audit chain (`recordAudit` in
 * `packages/platform/src/audit.ts`), statement by statement.
 *
 * A call takes a tenant's advisory lock, reads that tenant's last hash and
 * inserts a row.  A transaction makes as many calls as it likes, for any
 * tenants, several at a time; it keeps its locks until it commits or aborts,
 * and a lock it has does not hold up its own calls.  A statement sees the rows
 * committed before it and its own transaction's rows.
 */
module AuditProtocol {
  import opened Wrappers
  import opened AuditChain

  // `lockKey` need not tell two tenants apart.  `heldToEnd` is what
  // `pg_advisory_xact_lock` does; without it a lock would go once its row is in.
  // `serial` is for the callers to see to: a transaction makes no call for a tenant
  // while another of its calls for that tenant is under way.
  datatype System = System(p: Primitives, lockKey: string -> int, heldToEnd: bool, serial: bool)

  // Where a call of `recordAudit` stands.
  datatype Phase =
    | Locked(tenantId: string)
    | HasRead(tenantId: string, prevHash: Option<string>)

  // `calls` are the ones under way.
  datatype Tx = Tx(rows: seq<Row>, keys: set<int>, calls: map<nat, Phase>)

  // `committed` is in order of commit; `nextSeq` is the next number of the sequence.
  datatype Db = Db(committed: seq<Row>, nextSeq: nat, open: map<nat, Tx>)

  const START: Db := Db([], 0, map[])

  datatype Step =
    | Begin(tx: nat)
    | Lock(tx: nat, call: nat, tenantId: string)
    | ReadLast(tx: nat, call: nat)
    | Insert(tx: nat, call: nat, content: Content, stored: Content, unhashed: string)
    | Commit(tx: nat)
    | Abort(tx: nat)
    | SkipNumber

  /* ------------------------------------------------------------ selecting */

  function OneOf(row: Row, tenant: string): seq<Row> {
    if row.content.tenantId == tenant then [row] else []
  }

  // `WHERE tenant_id = tenant`.
  function Of(rows: seq<Row>, tenant: string): (r: seq<Row>)
    ensures forall x | x in r :: x in rows && x.content.tenantId == tenant
  {
    if rows == [] then []
    else
      var n := |rows| - 1;
      Of(rows[..n], tenant) + OneOf(rows[n], tenant)
  }

  ghost predicate Ascending(rows: seq<Row>) {
    forall i, j | 0 <= i < j < |rows| :: rows[i].seqNo < rows[j].seqNo
  }

  function InsertBySeq(row: Row, rows: seq<Row>): seq<Row> {
    if rows == [] then [row]
    else
      var n := |rows| - 1;
      if row.seqNo < rows[n].seqNo then InsertBySeq(row, rows[..n]) + [rows[n]] else rows + [row]
  }

  // `ORDER BY seq ASC`.
  function OrderedBySeq(rows: seq<Row>): seq<Row> {
    if rows == [] then []
    else InsertBySeq(rows[|rows| - 1], OrderedBySeq(rows[..|rows| - 1]))
  }

  function Select(rows: seq<Row>, tenant: string): seq<Row> {
    OrderedBySeq(Of(rows, tenant))
  }

  lemma {:induction false} AscendingIsOrdered(rows: seq<Row>)
    requires Ascending(rows)
    ensures OrderedBySeq(rows) == rows
  {
    if rows != [] {
      AscendingIsOrdered(rows[..|rows| - 1]);
      assert rows == rows[..|rows| - 1] + [rows[|rows| - 1]];
    }
  }

  lemma {:induction false} InsertKeepsRows(row: Row, rows: seq<Row>)
    ensures multiset(InsertBySeq(row, rows)) == multiset(rows) + multiset{row}
  {
    if rows != [] {
      var n := |rows| - 1;
      assert rows == rows[..n] + [rows[n]];
      InsertKeepsRows(row, rows[..n]);
    }
  }

  // A row numbered below a bound, among rows numbered below it.
  lemma InsertStaysBelow(row: Row, rows: seq<Row>, bound: nat)
    requires row.seqNo < bound && forall i | 0 <= i < |rows| :: rows[i].seqNo < bound
    ensures forall i | 0 <= i < |InsertBySeq(row, rows)| :: InsertBySeq(row, rows)[i].seqNo < bound
  {
    hide InsertBySeq;
    InsertKeepsRows(row, rows);
    var all := InsertBySeq(row, rows);
    forall i | 0 <= i < |all|
      ensures all[i].seqNo < bound
    {
      assert all[i] in multiset(all);
    }
  }

  lemma AscendingThen(front: seq<Row>, last: Row)
    requires Ascending(front) && forall i | 0 <= i < |front| :: front[i].seqNo < last.seqNo
    ensures Ascending(front + [last])
  {
  }

  lemma {:induction false} InsertSorts(row: Row, rows: seq<Row>)
    requires Ascending(rows) && forall i | 0 <= i < |rows| :: rows[i].seqNo != row.seqNo
    ensures Ascending(InsertBySeq(row, rows))
  {
    if rows == [] {
      assert InsertBySeq(row, rows) == [row];
    } else {
      var n := |rows| - 1;
      if row.seqNo < rows[n].seqNo {
        InsertSorts(row, rows[..n]);
        InsertStaysBelow(row, rows[..n], rows[n].seqNo);
        AscendingThen(InsertBySeq(row, rows[..n]), rows[n]);
      } else {
        AscendingThen(rows, row);
      }
    }
  }

  // No two rows have one number.
  ghost predicate SeqDistinct(rows: seq<Row>) {
    forall i, j | 0 <= i < j < |rows| :: rows[i].seqNo != rows[j].seqNo
  }

  /** What is selected is ordered by number, whatever order the rows were committed in. */
  lemma {:induction false} SelectionSorts(rows: seq<Row>)
    requires SeqDistinct(rows)
    ensures Ascending(OrderedBySeq(rows)) && multiset(OrderedBySeq(rows)) == multiset(rows)
  {
    if rows != [] {
      var n := |rows| - 1;
      SelectionSorts(rows[..n]);
      assert rows == rows[..n] + [rows[n]];
      var front := OrderedBySeq(rows[..n]);
      forall i | 0 <= i < |front|
        ensures front[i].seqNo != rows[n].seqNo
      {
        assert front[i] in multiset(front);
        assert front[i] in rows[..n];
      }
      InsertSorts(rows[n], front);
      InsertKeepsRows(rows[n], front);
    }
  }

  lemma OfAppend(rows: seq<Row>, row: Row, tenant: string)
    ensures Of(rows + [row], tenant) == Of(rows, tenant) + OneOf(row, tenant)
  {
    assert (rows + [row])[..|rows|] == rows;
  }

  lemma {:induction false} OfConcat(a: seq<Row>, b: seq<Row>, tenant: string)
    ensures Of(a + b, tenant) == Of(a, tenant) + Of(b, tenant)
  {
    hide Of, OneOf;
    if b == [] {
      NoneOf(b, tenant);
      assert a + b == a;
    } else {
      var front, last := b[..|b| - 1], b[|b| - 1];
      OfConcat(a, front, tenant);
      OfAppend(front, last, tenant);
      OfAppend(a + front, last, tenant);
      assert front + [last] == b && (a + front) + [last] == a + b;
    }
  }

  /* ------------------------------------------------------------ the steps */

  function Visible(db: Db, t: nat): seq<Row>
    requires t in db.open
  {
    db.committed + db.open[t].rows
  }

  predicate LockIsFree(db: Db, t: nat, key: int) {
    forall u | u in db.open && u != t :: key !in db.open[u].keys
  }

  predicate NoCallFor(tx: Tx, tenant: string) {
    forall c | c in tx.calls :: tx.calls[c].tenantId != tenant
  }

  predicate UnderWay(db: Db, t: nat, c: nat) {
    t in db.open && c in db.open[t].calls
  }

  // The database may hand back `before` and `after` with other key order: `stored` means what was hashed.
  ghost predicate Enabled(sys: System, db: Db, step: Step) {
    match step
    case Begin(t) => t !in db.open
    case Lock(t, c, tenant) =>
      && t in db.open && c !in db.open[t].calls
      && LockIsFree(db, t, sys.lockKey(tenant))
      && (sys.serial ==> NoCallFor(db.open[t], tenant))
    case ReadLast(t, c) => UnderWay(db, t, c) && db.open[t].calls[c].Locked?
    case Insert(t, c, content, stored, _) =>
      && UnderWay(db, t, c) && db.open[t].calls[c].HasRead?
      && content.tenantId == db.open[t].calls[c].tenantId
      && ContentWellFormed(content) && ContentWellFormed(stored) && SameContent(content, stored)
    case Commit(t) => t in db.open && db.open[t].calls == map[]
    case Abort(t) => t in db.open
    case SkipNumber => true
  }

  function NewRow(sys: System, db: Db, step: Step): Row
    requires step.Insert? && UnderWay(db, step.tx, step.call) && db.open[step.tx].calls[step.call].HasRead?
  {
    var prevHash := db.open[step.tx].calls[step.call].prevHash;
    Row(db.nextSeq, step.stored, prevHash, ComputeHash(sys.p, step.content, prevHash), step.unhashed)
  }

  // The transaction once a call has put its row in.
  function WithRow(sys: System, tx: Tx, call: nat, row: Row): Tx
    requires call in tx.calls
  {
    Tx(tx.rows + [row], if sys.heldToEnd then tx.keys else tx.keys - {sys.lockKey(tx.calls[call].tenantId)}, tx.calls - {call})
  }

  ghost function Apply(sys: System, db: Db, step: Step): Db
    requires Enabled(sys, db, step)
  {
    match step
    case Begin(t) => db.(open := db.open[t := Tx([], {}, map[])])
    case Lock(t, c, tenant) =>
      var tx := db.open[t];
      db.(open := db.open[t := tx.(keys := tx.keys + {sys.lockKey(tenant)}, calls := tx.calls[c := Locked(tenant)])])
    case ReadLast(t, c) =>
      var tx := db.open[t];
      var tenant := tx.calls[c].tenantId;
      db.(open := db.open[t := tx.(calls := tx.calls[c := HasRead(tenant, LastHash(Select(Visible(db, t), tenant)))])])
    case Insert(t, c, _, _, _) =>
      var tx := db.open[t];
      db.(open := db.open[t := WithRow(sys, tx, c, NewRow(sys, db, step))], nextSeq := db.nextSeq + 1)
    case Commit(t) => db.(committed := Visible(db, t), open := db.open - {t})
    case Abort(t) => db.(open := db.open - {t})
    case SkipNumber => db.(nextSeq := db.nextSeq + 1)
  }

  ghost predicate IsRun(sys: System, db: Db, steps: seq<Step>)
    decreases |steps|
  {
    steps == [] || (Enabled(sys, db, steps[0]) && IsRun(sys, Apply(sys, db, steps[0]), steps[1..]))
  }

  ghost function After(sys: System, db: Db, steps: seq<Step>): Db
    requires IsRun(sys, db, steps)
    decreases |steps|
  {
    if steps == [] then db else After(sys, Apply(sys, db, steps[0]), steps[1..])
  }

  /* ------------------------------------------------------------ what every step keeps */

  // A tenant's rows are ascending in seq and chained.
  ghost predicate Linked(sys: System, rows: seq<Row>, tenant: string) {
    Ascending(Of(rows, tenant)) && IsChain(sys.p, tenant, Of(rows, tenant))
  }

  ghost predicate Numbered(db: Db, rows: seq<Row>) {
    forall r | r in rows :: r.seqNo < db.nextSeq
  }

  // A transaction holds the lock of every tenant it has written or is writing.
  ghost predicate HoldsItsLocks(sys: System, tx: Tx) {
    && (forall r | r in tx.rows :: sys.lockKey(r.content.tenantId) in tx.keys)
    && (forall c | c in tx.calls :: sys.lockKey(tx.calls[c].tenantId) in tx.keys)
  }

  // No two of its calls are for one tenant.
  ghost predicate CallsApart(tx: Tx) {
    forall c, d | c in tx.calls && d in tx.calls && c != d :: tx.calls[c].tenantId != tx.calls[d].tenantId
  }

  ghost predicate LocksExclusive(db: Db) {
    forall t, u | t in db.open && u in db.open && t != u :: db.open[t].keys !! db.open[u].keys
  }

  // What a call has read is still the last hash it sees.
  ghost predicate ReadIsCurrent(db: Db, t: nat, c: nat)
    requires UnderWay(db, t, c)
  {
    var phase := db.open[t].calls[c];
    phase.HasRead? ==> phase.prevHash == LastHash(Of(Visible(db, t), phase.tenantId))
  }

  // What holds of one open transaction.
  ghost predicate TxInvariant(sys: System, db: Db, t: nat)
    requires t in db.open
  {
    && Numbered(db, Visible(db, t))
    && HoldsItsLocks(sys, db.open[t])
    && CallsApart(db.open[t])
    && (forall c | c in db.open[t].calls :: ReadIsCurrent(db, t, c))
    && forall tenant :: Linked(sys, Visible(db, t), tenant)
  }

  ghost predicate Invariant(sys: System, db: Db) {
    && Numbered(db, db.committed)
    && LocksExclusive(db)
    && (forall tenant :: Linked(sys, db.committed, tenant))
    && (forall t | t in db.open :: TxInvariant(sys, db, t))
  }

  lemma SelectIsOf(sys: System, rows: seq<Row>, tenant: string)
    requires Linked(sys, rows, tenant)
    ensures Select(rows, tenant) == Of(rows, tenant)
  {
    AscendingIsOrdered(Of(rows, tenant));
  }

  // Rows none of which is the tenant's.
  lemma {:induction false} NoneOf(rows: seq<Row>, tenant: string)
    requires forall r | r in rows :: r.content.tenantId != tenant
    ensures Of(rows, tenant) == []
  {
    if rows != [] {
      NoneOf(rows[..|rows| - 1], tenant);
    }
  }

  // The stored row hashes to what was computed from the row as written.
  lemma StoredHashes(p: Primitives, content: Content, stored: Content, prevHash: Option<string>)
    requires Ideal(p) && ContentWellFormed(content) && ContentWellFormed(stored) && SameContent(content, stored)
    ensures ComputeHash(p, content, prevHash) == ComputeHash(p, stored, prevHash)
  {
    HashPinsContent(p, content, prevHash, stored, prevHash);
  }

  // A new row, numbered after all others and pointing at the last one, keeps every tenant linked.
  lemma RowKeepsLinked(sys: System, rows: seq<Row>, row: Row, tenant: string)
    requires Linked(sys, rows, tenant) && forall r | r in rows :: r.seqNo < row.seqNo
    requires row.content.tenantId == tenant ==>
               row.prevHash == LastHash(Of(rows, tenant)) && row.hash == ComputeHash(sys.p, row.content, row.prevHash)
    ensures Linked(sys, rows + [row], tenant)
  {
    hide IsChain, ComputeHash;
    var mine := Of(rows, tenant);
    OfAppend(rows, row, tenant);
    if row.content.tenantId == tenant {
      ChainExtends(sys.p, tenant, mine, row);
    } else {
      assert mine + [] == mine;
    }
  }

  // What the transaction's other calls have read stands: they are for other tenants.
  lemma OtherCallsUndisturbed(sys: System, db: Db, step: Step, d: nat)
    requires step.Insert? && Enabled(sys, db, step) && TxInvariant(sys, db, step.tx)
    requires step.stored.tenantId == step.content.tenantId
    requires d in db.open[step.tx].calls && d != step.call
    ensures d in Apply(sys, db, step).open[step.tx].calls && ReadIsCurrent(Apply(sys, db, step), step.tx, d)
  {
    hide Linked, ComputeHash, SameContent, ContentWellFormed, Of, LastHash;
    var t, row, next := step.tx, NewRow(sys, db, step), Apply(sys, db, step);
    var tenant := db.open[t].calls[d].tenantId;
    assert Visible(next, t) == Visible(db, t) + [row];
    OfAppend(Visible(db, t), row, tenant);
    assert OneOf(row, tenant) == [];
    assert Of(Visible(db, t), tenant) + [] == Of(Visible(db, t), tenant);
    assert ReadIsCurrent(db, t, d);
  }

  lemma WriterKeeps(sys: System, db: Db, step: Step)
    requires Ideal(sys.p) && sys.heldToEnd && step.Insert? && Enabled(sys, db, step) && TxInvariant(sys, db, step.tx)
    ensures TxInvariant(sys, Apply(sys, db, step), step.tx)
  {
    hide Linked, ComputeHash, Ideal, SameContent, ContentWellFormed, Of, LastHash, ReadIsCurrent;
    var t := step.tx;
    var row, next := NewRow(sys, db, step), Apply(sys, db, step);
    assert ReadIsCurrent(db, t, step.call);
    StoredHashes(sys.p, step.content, step.stored, row.prevHash);
    SameTenant(step.content, step.stored);
    assert Visible(next, t) == Visible(db, t) + [row];
    CurrentRead(db, t, step.call);
    forall tenant
      ensures Linked(sys, Visible(next, t), tenant)
    {
      RowKeepsLinked(sys, Visible(db, t), row, tenant);
    }
    forall d | d in next.open[t].calls
      ensures ReadIsCurrent(next, t, d)
    {
      OtherCallsUndisturbed(sys, db, step, d);
    }
  }

  lemma CurrentRead(db: Db, t: nat, c: nat)
    requires UnderWay(db, t, c) && ReadIsCurrent(db, t, c) && db.open[t].calls[c].HasRead?
    ensures db.open[t].calls[c].prevHash == LastHash(Of(Visible(db, t), db.open[t].calls[c].tenantId))
  {
  }

  // A step that leaves a transaction and what it sees alone keeps what holds of it.
  lemma OthersKeep(sys: System, db: Db, next: Db, u: nat)
    requires u in db.open && u in next.open && next.open[u] == db.open[u] && next.committed == db.committed
    requires db.nextSeq <= next.nextSeq && TxInvariant(sys, db, u)
    ensures TxInvariant(sys, next, u)
  {
    hide Linked, Of, LastHash;
    assert Visible(next, u) == Visible(db, u);
    forall c | c in next.open[u].calls
      ensures ReadIsCurrent(next, u, c)
    {
      assert ReadIsCurrent(db, u, c);
    }
  }

  lemma InsertKeeps(sys: System, db: Db, step: Step)
    requires Ideal(sys.p) && sys.heldToEnd && Invariant(sys, db) && step.Insert? && Enabled(sys, db, step)
    ensures Invariant(sys, Apply(sys, db, step))
  {
    hide Linked, ComputeHash, Ideal, SameContent, ContentWellFormed, Of, LastHash, TxInvariant;
    var next := Apply(sys, db, step);
    WriterKeeps(sys, db, step);
    forall u | u in next.open && u != step.tx
      ensures TxInvariant(sys, next, u)
    {
      OthersKeep(sys, db, next, u);
    }
  }

  lemma SameTenant(a: Content, b: Content)
    requires SameContent(a, b)
    ensures a.tenantId == b.tenantId
  {
  }

  // Two transactions holding different locks have written for different tenants.
  lemma OthersDoNotShow(sys: System, db: Db, t: nat, u: nat, tenant: string)
    requires LocksExclusive(db) && t in db.open && u in db.open && t != u
    requires HoldsItsLocks(sys, db.open[t]) && HoldsItsLocks(sys, db.open[u])
    ensures Of(db.open[t].rows, tenant) == [] || Of(db.open[u].rows, tenant) == []
    ensures sys.lockKey(tenant) in db.open[u].keys ==> Of(db.open[t].rows, tenant) == []
  {
    if sys.lockKey(tenant) in db.open[t].keys {
      assert sys.lockKey(tenant) !in db.open[u].keys;
      NoneOf(db.open[u].rows, tenant);
    } else {
      NoneOf(db.open[t].rows, tenant);
    }
  }

  // What u sees of a tenant once t has committed.
  lemma SeenAfterCommit(sys: System, db: Db, t: nat, u: nat, tenant: string)
    requires LocksExclusive(db) && t in db.open && u in db.open && t != u
    requires HoldsItsLocks(sys, db.open[t]) && HoldsItsLocks(sys, db.open[u])
    ensures var seen := Of(Visible(db, t) + db.open[u].rows, tenant);
            && (seen == Of(Visible(db, t), tenant) || seen == Of(Visible(db, u), tenant))
            && (sys.lockKey(tenant) in db.open[u].keys ==> seen == Of(Visible(db, u), tenant))
  {
    hide Of;
    OthersDoNotShow(sys, db, t, u, tenant);
    OfConcat(Visible(db, t), db.open[u].rows, tenant);
    OfConcat(db.committed, db.open[t].rows, tenant);
    OfConcat(db.committed, db.open[u].rows, tenant);
  }

  lemma CommitKeepsOther(sys: System, db: Db, t: nat, u: nat)
    requires LocksExclusive(db) && Enabled(sys, db, Commit(t)) && u in db.open && u != t
    requires TxInvariant(sys, db, t) && TxInvariant(sys, db, u)
    ensures TxInvariant(sys, Apply(sys, db, Commit(t)), u)
  {
    hide Of, LastHash, IsChain, Ascending;
    var next := Apply(sys, db, Commit(t));
    forall tenant
      ensures Linked(sys, Visible(next, u), tenant)
    {
      SeenAfterCommit(sys, db, t, u, tenant);
      assert Linked(sys, Visible(db, t), tenant) && Linked(sys, Visible(db, u), tenant);
    }
    forall c | c in next.open[u].calls
      ensures ReadIsCurrent(next, u, c)
    {
      assert ReadIsCurrent(db, u, c);
      SeenAfterCommit(sys, db, t, u, db.open[u].calls[c].tenantId);
    }
  }

  lemma CommitKeeps(sys: System, db: Db, t: nat)
    requires Invariant(sys, db) && Enabled(sys, db, Commit(t))
    ensures Invariant(sys, Apply(sys, db, Commit(t)))
  {
    hide Of, LastHash, Linked, CallsApart;
    var next := Apply(sys, db, Commit(t));
    assert TxInvariant(sys, db, t);
    forall u | u in next.open
      ensures TxInvariant(sys, next, u)
    {
      CommitKeepsOther(sys, db, t, u);
    }
  }

  lemma ReaderKeeps(sys: System, db: Db, t: nat, c: nat)
    requires Enabled(sys, db, ReadLast(t, c)) && TxInvariant(sys, db, t)
    ensures TxInvariant(sys, Apply(sys, db, ReadLast(t, c)), t)
  {
    hide Linked, Of, LastHash, Select;
    var next := Apply(sys, db, ReadLast(t, c));
    SelectIsOf(sys, Visible(db, t), db.open[t].calls[c].tenantId);
    assert Visible(next, t) == Visible(db, t);
    forall d | d in next.open[t].calls
      ensures ReadIsCurrent(next, t, d)
    {
      assert ReadIsCurrent(db, t, d);
    }
  }

  lemma ReadKeeps(sys: System, db: Db, t: nat, c: nat)
    requires Invariant(sys, db) && Enabled(sys, db, ReadLast(t, c))
    ensures Invariant(sys, Apply(sys, db, ReadLast(t, c)))
  {
    hide Linked, Of, LastHash, Select, TxInvariant;
    var next := Apply(sys, db, ReadLast(t, c));
    ReaderKeeps(sys, db, t, c);
    forall u | u in next.open && u != t
      ensures TxInvariant(sys, next, u)
    {
      OthersKeep(sys, db, next, u);
    }
  }

  lemma LockerKeeps(sys: System, db: Db, t: nat, c: nat, tenant: string)
    requires sys.serial && Enabled(sys, db, Lock(t, c, tenant)) && TxInvariant(sys, db, t)
    ensures TxInvariant(sys, Apply(sys, db, Lock(t, c, tenant)), t)
  {
    hide Linked, Of, LastHash;
    var next := Apply(sys, db, Lock(t, c, tenant));
    assert Visible(next, t) == Visible(db, t);
    forall d | d in next.open[t].calls
      ensures ReadIsCurrent(next, t, d)
    {
      if d != c {
        assert ReadIsCurrent(db, t, d);
      }
    }
  }

  lemma LockKeeps(sys: System, db: Db, t: nat, c: nat, tenant: string)
    requires sys.serial && Invariant(sys, db) && Enabled(sys, db, Lock(t, c, tenant))
    ensures Invariant(sys, Apply(sys, db, Lock(t, c, tenant)))
  {
    hide Linked, TxInvariant, NoCallFor;
    var next := Apply(sys, db, Lock(t, c, tenant));
    LockerKeeps(sys, db, t, c, tenant);
    forall u | u in next.open && u != t
      ensures TxInvariant(sys, next, u)
    {
      OthersKeep(sys, db, next, u);
    }
  }

  // The steps that change no transaction's state: they begin or abort one, or lose a number.
  lemma OtherStepsKeep(sys: System, db: Db, step: Step)
    requires Invariant(sys, db) && Enabled(sys, db, step)
    requires step.Begin? || step.Abort? || step.SkipNumber?
    ensures Invariant(sys, Apply(sys, db, step))
  {
    hide Linked, Of, LastHash, TxInvariant;
    var next := Apply(sys, db, step);
    forall u | u in next.open
      ensures TxInvariant(sys, next, u)
    {
      if u in db.open {
        OthersKeep(sys, db, next, u);
      } else {
        NewTxHolds(sys, next, u);
      }
    }
  }

  lemma NewTxHolds(sys: System, db: Db, t: nat)
    requires t in db.open && db.open[t] == Tx([], {}, map[])
    requires Numbered(db, db.committed) && forall tenant :: Linked(sys, db.committed, tenant)
    ensures TxInvariant(sys, db, t)
  {
    hide Linked;
    assert Visible(db, t) == db.committed;
  }

  /** Every step keeps the invariant. */
  lemma StepKeeps(sys: System, db: Db, step: Step)
    requires Ideal(sys.p) && sys.heldToEnd && sys.serial && Invariant(sys, db) && Enabled(sys, db, step)
    ensures Invariant(sys, Apply(sys, db, step))
  {
    hide Invariant, Apply, Enabled, Ideal;
    match step {
      case Insert(_, _, _, _, _) => InsertKeeps(sys, db, step);
      case Commit(t) => CommitKeeps(sys, db, t);
      case ReadLast(t, c) => ReadKeeps(sys, db, t, c);
      case Lock(t, c, tenant) => LockKeeps(sys, db, t, c, tenant);
      case _ => OtherStepsKeep(sys, db, step);
    }
  }

  lemma {:induction false} RunKeeps(sys: System, db: Db, steps: seq<Step>)
    requires Ideal(sys.p) && sys.heldToEnd && sys.serial && Invariant(sys, db) && IsRun(sys, db, steps)
    ensures Invariant(sys, After(sys, db, steps))
    decreases |steps|
  {
    hide Invariant, Apply, Enabled, Ideal;
    if steps != [] {
      StepKeeps(sys, db, steps[0]);
      RunKeeps(sys, Apply(sys, db, steps[0]), steps[1..]);
    }
  }

  /**
   * Whatever transactions run, however the statements of their calls interleave,
   * and whether they commit or abort, the verifier accepts every tenant's
   * committed rows, under any limit, even where two tenants share a lock key.
   */
  lemma EveryRunVerifies(sys: System, steps: seq<Step>, tenant: string, limit: nat)
    requires Ideal(sys.p) && sys.heldToEnd && sys.serial && IsRun(sys, START, steps)
    ensures IsChain(sys.p, tenant, Limited(Select(After(sys, START, steps).committed, tenant), limit))
  {
    hide IsChain, Select, Ideal;
    StartHolds(sys);
    RunKeeps(sys, START, steps);
    var rows := After(sys, START, steps).committed;
    assert Linked(sys, rows, tenant);
    SelectIsOf(sys, rows, tenant);
    if limit < |Select(rows, tenant)| {
      TruncationVerifies(sys.p, tenant, Select(rows, tenant), limit);
    }
  }

  lemma StartHolds(sys: System)
    ensures Invariant(sys, START)
  {
  }
}
