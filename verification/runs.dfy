/** Whole runs: write transactions on one collection with their catalog row, cached
    descriptor and flush, committed or rolled back as their closures decide. */
module Runs {
  import opened ByteOrder
  import opened Outcomes
  import opened IndexKey
  import opened IndexExtract
  import opened IndexMaint
  import opened Collection
  import opened Agreement
  import opened Steps
  import IndexCatalog

  /** What transactions of a process share: the catalog row with its trees, and the
      versions whose index specifications need no reconciling again. */
  datatype Base = Base(row: State, reconciled: set<nat>)

  /** An open transaction. `row` is the catalog row as staged so far, `cache` the
      descriptor that document writes work on; the first of them loads it from the
      row, or the storing of a schema before. */
  datatype Session = Session(row: State, cache: Option<State>, shared: set<nat>, staged: set<nat>)

  /** The descriptor a commit would leave. */
  function Current(x: Session): State {
    if x.cache.Some? then x.cache.value else x.row
  }

  function Begun(b: Base): Session {
    Session(b.row, None, b.reconciled, {})
  }

  predicate Skipped(x: Session, op: Op) {
    op.ReconcileOp? && op.version in x.shared + x.staged
  }

  /** Declarations, drops and reconciliations go to the catalog row, whatever is
      cached. */
  function Take(x: Session, op: Op): (r: (Session, Result<()>)) {
    if OnCache(op) then
      var w := Step(Current(x), op);
      (x.(cache := Some(w.0)), w.1)
    else if Skipped(x, op) then (x, Ok(()))
    else
      var w := Step(x.row, op);
      (x.(row := w.0, staged := if op.ReconcileOp? && w.1.Ok? then x.staged + {op.version} else x.staged), w.1)
  }

  /** The operations of a closure, which may go on after one that failed. */
  function TakeAll(x: Session, ops: seq<Op>): Session
    decreases |ops|
  {
    if ops == [] then x else TakeAll(Take(x, ops[0]).0, ops[1..])
  }

  function Reports(x: Session, ops: seq<Op>): (rs: seq<Result<()>>)
    ensures |rs| == |ops|
    decreases |ops|
  {
    if ops == [] then [] else [Take(x, ops[0]).1] + Reports(Take(x, ops[0]).0, ops[1..])
  }

  /** The cached descriptor, if any, overwrites the row. */
  function Flushed(x: Session): Base {
    Base(Current(x), x.shared + x.staged)
  }

  /** The operations a closure performed, and whether it returned Ok in the end. */
  datatype Txn = Txn(ops: seq<Op>, commits: bool)

  function Transaction(b: Base, txn: Txn): Base {
    if txn.commits then Flushed(TakeAll(Begun(b), txn.ops)) else b
  }

  function Run(b: Base, txns: seq<Txn>): Base
    decreases |txns|
  {
    if txns == [] then b else Run(Transaction(b, txns[0]), txns[1..])
  }

  // ---- What reaches the commit ----

  /** The operation moves the descriptor that a commit would leave. */
  predicate Reaches(x: Session, op: Op) {
    OnCache(op) || (x.cache.None? && !Skipped(x, op))
  }

  lemma TakeIsStep(x: Session, op: Op)
    ensures Current(Take(x, op).0) == if Reaches(x, op) then Step(Current(x), op).0 else Current(x)
  {}

  lemma {:induction false} TakeAllSplit(x: Session, a: seq<Op>, b: seq<Op>)
    ensures TakeAll(x, a + b) == TakeAll(TakeAll(x, a), b)
    decreases |a|
  {
    if a == [] {
      assert a + b == b;
    } else {
      assert (a + b)[0] == a[0] && (a + b)[1..] == a[1..] + b;
      TakeAllSplit(Take(x, a[0]).0, a[1..], b);
    }
  }

  function OnCacheOnly(ops: seq<Op>): seq<Op> {
    if ops == [] then []
    else if OnCache(ops[0]) then [ops[0]] + OnCacheOnly(ops[1..])
    else OnCacheOnly(ops[1..])
  }

  /** The operations without the declarations, drops and reconciliations that come
      after one that goes through the cache. */
  function Kept(ops: seq<Op>): seq<Op> {
    if ops == [] then []
    else if OnCache(ops[0]) then OnCacheOnly(ops)
    else [ops[0]] + Kept(ops[1..])
  }

  /** Each operation committed by itself. */
  function Singly(ops: seq<Op>): (txns: seq<Txn>)
    ensures |txns| == |ops|
  {
    seq(|ops|, i requires 0 <= i < |ops| => Txn([ops[i]], true))
  }

  lemma SinglyNext(b: Base, op: Op, ops: seq<Op>)
    ensures Run(b, Singly([op] + ops)) == Run(Flushed(Take(Begun(b), op).0), Singly(ops))
  {
    var txns := Singly([op] + ops);
    assert txns[0] == Txn([op], true) && txns[1..] == Singly(ops);
    assert [op][1..] == [];
    assert TakeAll(Begun(b), [op]) == Take(Begun(b), op).0;
  }

  lemma {:induction false} OnCacheAlone(x: Session, ops: seq<Op>, reconciled: set<nat>)
    requires x.cache.Some?
    ensures Flushed(TakeAll(x, ops)).row == Run(Base(Current(x), reconciled), Singly(OnCacheOnly(ops))).row
    decreases |ops|
  {
    if ops != [] {
      var y := Take(x, ops[0]).0;
      OnCacheAlone(y, ops[1..], reconciled);
      if OnCache(ops[0]) {
        SinglyNext(Base(Current(x), reconciled), ops[0], OnCacheOnly(ops[1..]));
        assert reconciled + {} == reconciled;
      }
    }
  }

  /** As long as nothing is cached, an operation does to the row and the skipped
      versions what it would do committed by itself. */
  lemma TakeThenFlush(x: Session, op: Op)
    requires x.cache.None? && !OnCache(op)
    ensures Flushed(Take(Begun(Flushed(x)), op).0) == Flushed(Take(x, op).0)
  {
    var all := x.shared + x.staged;
    assert all + {} == all;
    if op.ReconcileOp? {
      assert all + ({} + {op.version}) == x.shared + (x.staged + {op.version});
    }
  }

  /** What a transaction leaves in the row is what its kept operations leave, each
      committed by itself. */
  lemma {:induction false} CommitIsSequential(x: Session, ops: seq<Op>)
    requires x.cache.None?
    ensures Flushed(TakeAll(x, ops)).row == Run(Flushed(x), Singly(Kept(ops))).row
    decreases |ops|
  {
    if ops != [] {
      var y := Take(x, ops[0]).0;
      if OnCache(ops[0]) {
        OnCacheAlone(y, ops[1..], x.shared + x.staged);
        SinglyNext(Flushed(x), ops[0], OnCacheOnly(ops[1..]));
        assert x.shared + x.staged + {} == x.shared + x.staged;
      } else {
        CommitIsSequential(y, ops[1..]);
        TakeThenFlush(x, ops[0]);
        SinglyNext(Flushed(x), ops[0], Kept(ops[1..]));
      }
    }
  }

  // ---- Roster operations that are lost ----

  /** A roster without its trees. */
  function Shape(ixs: IndexCatalog.Roster): (sh: seq<(nat, IndexSpec, IndexStatus)>)
    ensures |sh| == |ixs|
  {
    seq(|ixs|, i requires 0 <= i < |ixs| => (ixs[i].indexId, ixs[i].spec, ixs[i].status))
  }

  lemma OnCacheKeepsShape(s: State, op: Op)
    requires OnCache(op)
    ensures Shape(Step(s, op).0.indexes) == Shape(s.indexes)
  {
    var w := Target(s, op);
    TargetIsWritten(s, op);
    if w.Some? { WriteKeepsRoster(s, w.value.0, w.value.1); }
  }

  lemma ShapeAntisymmetric(a: IndexCatalog.Roster, b: IndexCatalog.Roster, c: IndexCatalog.Roster)
    requires IndexCatalog.Later(a, b) && IndexCatalog.Later(b, c) && Shape(a) == Shape(c)
    ensures Shape(b) == Shape(c)
  {
    assert |a| == |b| == |c|;
    forall i | 0 <= i < |b| ensures Shape(b)[i] == Shape(c)[i] {
      assert Shape(a)[i] == Shape(c)[i];
    }
  }

  /** The rosters of row and cached descriptor are in order, the row's being ahead. */
  ghost predicate Ordered(x: Session) {
    && IndexCatalog.WellFormed(x.row.indexes) && IndexCatalog.WellFormed(Current(x).indexes)
    && IndexCatalog.Later(Current(x).indexes, x.row.indexes)
  }

  lemma LaterByShape(a: IndexCatalog.Roster, b: IndexCatalog.Roster, c: IndexCatalog.Roster)
    requires Shape(a) == Shape(b) && IndexCatalog.Later(a, c)
    ensures IndexCatalog.Later(b, c)
  {
    assert |a| == |b|;
    forall i | 0 <= i < |b|
      ensures c[i].indexId == b[i].indexId && c[i].spec == b[i].spec
      ensures b[i].status.DroppedPending? ==> c[i].status.DroppedPending?
    {
      assert Shape(a)[i] == Shape(b)[i];
    }
  }

  lemma TakeKeepsOrdered(x: Session, op: Op)
    requires Ordered(x)
    ensures Ordered(Take(x, op).0)
    ensures IndexCatalog.Later(x.row.indexes, Take(x, op).0.row.indexes)
    ensures IndexCatalog.Later(Current(x).indexes, Current(Take(x, op).0).indexes)
  {
    var y := Take(x, op).0;
    TakeIsStep(x, op);
    StepKeepsRoster(Current(x), op);
    StepKeepsRoster(x.row, op);
    IndexCatalog.LaterTransitive(x.row.indexes, x.row.indexes, x.row.indexes);
    if OnCache(op) {
      OnCacheKeepsShape(Current(x), op);
      LaterByShape(Current(x).indexes, Current(y).indexes, x.row.indexes);
    } else {
      IndexCatalog.LaterTransitive(Current(x).indexes, x.row.indexes, y.row.indexes);
    }
  }

  lemma {:induction false} TakeAllKeepsOrdered(x: Session, ops: seq<Op>)
    requires Ordered(x)
    ensures Ordered(TakeAll(x, ops))
    ensures IndexCatalog.Later(Current(x).indexes, Current(TakeAll(x, ops)).indexes)
    decreases |ops|
  {
    if ops == [] {
    } else {
      var y := Take(x, ops[0]).0;
      TakeKeepsOrdered(x, ops[0]);
      TakeAllKeepsOrdered(y, ops[1..]);
      IndexCatalog.LaterTransitive(Current(x).indexes, Current(y).indexes, Current(TakeAll(y, ops[1..])).indexes);
    }
  }

  /** Once it is cached, nothing changes the roster that a commit would leave. */
  lemma {:induction false} CachedShapeFixed(x: Session, ops: seq<Op>)
    requires x.cache.Some?
    ensures Shape(Current(TakeAll(x, ops)).indexes) == Shape(Current(x).indexes)
    decreases |ops|
  {
    if ops != [] {
      TakeIsStep(x, ops[0]);
      if OnCache(ops[0]) { OnCacheKeepsShape(Current(x), ops[0]); }
      CachedShapeFixed(Take(x, ops[0]).0, ops[1..]);
    }
  }

  lemma {:induction false} OnCacheOpsKeepShape(x: Session, ops: seq<Op>)
    requires AllOnCache(ops)
    ensures Shape(Current(TakeAll(x, ops)).indexes) == Shape(Current(x).indexes)
    decreases |ops|
  {
    if ops != [] {
      OnCacheKeepsShape(Current(x), ops[0]);
      assert forall i | 0 <= i < |ops[1..]| :: ops[1..][i] == ops[i + 1];
      OnCacheOpsKeepShape(Take(x, ops[0]).0, ops[1..]);
    }
  }

  predicate AllOnCache(ops: seq<Op>) {
    forall i | 0 <= i < |ops| :: OnCache(ops[i])
  }

  predicate NoneOnCache(ops: seq<Op>) {
    forall i | 0 <= i < |ops| :: !OnCache(ops[i])
  }

  lemma {:induction false} CachedExactly(x: Session, ops: seq<Op>)
    ensures TakeAll(x, ops).cache.None? <==> x.cache.None? && NoneOnCache(ops)
    decreases |ops|
  {
    if ops != [] {
      CachedExactly(Take(x, ops[0]).0, ops[1..]);
      assert forall i | 0 < i < |ops| :: ops[i] == ops[1..][i - 1];
      assert NoneOnCache(ops) <==> !OnCache(ops[0]) && NoneOnCache(ops[1..]);
    }
  }

  /** What a session sees of the row, step by step, up to an operation and after it. */
  lemma TakeAround(b: Base, before: seq<Op>, op: Op, after: seq<Op>)
    ensures var x := TakeAll(Begun(b), before);
            TakeAll(Begun(b), before + [op] + after) == TakeAll(Take(x, op).0, after)
  {
    TakeAllSplit(Begun(b), before + [op], after);
    TakeAllSplit(Begun(b), before, [op]);
    assert [op][1..] == [];
  }

  lemma BegunIsOrdered(b: Base)
    requires IndexCatalog.WellFormed(b.row.indexes)
    ensures Ordered(Begun(b))
  {}

  /** A declaration, drop or reconciliation that did change the row survives the
      commit if and only if nothing that goes through the cache came before it in its
      transaction, whatever comes after. */
  lemma RosterChangeSurvivesExactly(b: Base, before: seq<Op>, op: Op, after: seq<Op>)
    requires IndexCatalog.WellFormed(b.row.indexes) && !OnCache(op)
    requires var x := TakeAll(Begun(b), before); Shape(Take(x, op).0.row.indexes) != Shape(x.row.indexes)
    ensures var changed := Take(TakeAll(Begun(b), before), op).0.row.indexes;
            var committed := Transaction(b, Txn(before + [op] + after, true)).row.indexes;
            && (NoneOnCache(before) <==> IndexCatalog.Later(changed, committed))
            && (AllOnCache(after) ==> (NoneOnCache(before) <==> Shape(committed) == Shape(changed)))
  {
    var x := TakeAll(Begun(b), before);
    var y := Take(x, op).0;
    TakeAround(b, before, op, after);
    BegunIsOrdered(b);
    TakeAllKeepsOrdered(Begun(b), before);
    TakeKeepsOrdered(x, op);
    CachedExactly(Begun(b), before);
    TakeIsStep(x, op);
    if x.cache.None? {
      TakeAllKeepsOrdered(y, after);
      if AllOnCache(after) { OnCacheOpsKeepShape(y, after); }
    } else {
      CachedShapeFixed(y, after);
      LostChangeIsBehind(x, y, Current(TakeAll(y, after)).indexes);
    }
  }

  lemma LostChangeIsBehind(x: Session, y: Session, committed: IndexCatalog.Roster)
    requires IndexCatalog.Later(Current(x).indexes, x.row.indexes)
    requires IndexCatalog.Later(x.row.indexes, y.row.indexes) && Shape(y.row.indexes) != Shape(x.row.indexes)
    requires Shape(committed) == Shape(Current(x).indexes)
    ensures !IndexCatalog.Later(y.row.indexes, committed) && Shape(committed) != Shape(y.row.indexes)
  {
    LaterByShape(Current(x).indexes, committed, x.row.indexes);
    if IndexCatalog.Later(y.row.indexes, committed) {
      LaterBothWays(x.row.indexes, y.row.indexes, committed);
    }
    if Shape(committed) == Shape(y.row.indexes) {
      ShapeAntisymmetric(committed, x.row.indexes, y.row.indexes);
    }
  }

  lemma LaterBothWays(a: IndexCatalog.Roster, b: IndexCatalog.Roster, c: IndexCatalog.Roster)
    requires IndexCatalog.Later(c, a) && IndexCatalog.Later(a, b) && IndexCatalog.Later(b, c)
    ensures Shape(a) == Shape(b)
  {}

  /** No roster operation changes the row once the descriptor is cached. */
  predicate IdleOnceCached(x: Session, ops: seq<Op>)
    decreases |ops|
  {
    ops == [] ||
    ((x.cache.Some? ==> Shape(Take(x, ops[0]).0.row.indexes) == Shape(x.row.indexes)) &&
     IdleOnceCached(Take(x, ops[0]).0, ops[1..]))
  }

  /** What a transaction saw of its roster in the end is what it commits if and only
      if no roster operation changed the row once the descriptor was cached. */
  lemma {:induction false} RosterSeenIsCommittedExactly(x: Session, ops: seq<Op>)
    requires Ordered(x)
    ensures var y := TakeAll(x, ops);
            Shape(y.row.indexes) == Shape(Current(y).indexes) <==>
              Shape(x.row.indexes) == Shape(Current(x).indexes) && IdleOnceCached(x, ops)
    decreases |ops|
  {
    if ops != [] {
      var next := Take(x, ops[0]).0;
      TakeKeepsOrdered(x, ops[0]);
      RosterSeenIsCommittedExactly(next, ops[1..]);
      if OnCache(ops[0]) {
        OnCacheKeepsShape(Current(x), ops[0]);
      } else if x.cache.Some? && Shape(next.row.indexes) == Shape(Current(x).indexes) {
        ShapeAntisymmetric(Current(x).indexes, x.row.indexes, next.row.indexes);
      }
    }
  }

  lemma RosterOpAfterLoadIsLost(b: Base, load: Op, op: Op)
    requires OnCache(load) && !OnCache(op)
    ensures var x, t := Take(Begun(b), load).0, Transaction(b, Txn([load, op], true));
            && x.row == b.row
            && Shape(t.row.indexes) == Shape(b.row.indexes)
            && t.reconciled == b.reconciled + Take(x, op).0.staged
  {
    var x := Take(Begun(b), load).0;
    assert [load, op][1..] == [op] && [op][1..] == [];
    assert TakeAll(Begun(b), [load, op]) == TakeAll(x, [op]) == Take(x, op).0;
    OnCacheKeepsShape(b.row, load);
  }

  lemma {:induction false} ReconciledGrows(b: Base, txns: seq<Txn>)
    ensures b.reconciled <= Run(b, txns).reconciled
    decreases |txns|
  {
    if txns != [] {
      SharedFixed(Begun(b), txns[0].ops);
      ReconciledGrows(Transaction(b, txns[0]), txns[1..]);
    }
  }

  lemma {:induction false} SharedFixed(x: Session, ops: seq<Op>)
    ensures TakeAll(x, ops).shared == x.shared
    decreases |ops|
  {
    if ops != [] {
      SharedFixed(Take(x, ops[0]).0, ops[1..]);
    }
  }

  /** A reconciliation after an operation that loads the descriptor reports success,
      leaves no trace in the committed roster and is skipped ever after in this
      process. */
  lemma LostReconciliation(b: Base, load: Op, version: nat, specs: seq<IndexSpec>, later: seq<Txn>)
    requires OnCache(load) && version !in b.reconciled
    requires IndexCatalog.Reconcile(b.row.indexes, specs).1.Ok?
    ensures var op := ReconcileOp(version, specs);
            var x, t := Take(Begun(b), load).0, Transaction(b, Txn([load, op], true));
            && Take(x, op).1 == Ok(()) && Take(x, op).0.row.indexes == IndexCatalog.Reconcile(b.row.indexes, specs).0
            && Shape(t.row.indexes) == Shape(b.row.indexes)
            && Skipped(Begun(Run(t, later)), op)
  {
    var op := ReconcileOp(version, specs);
    RosterOpAfterLoadIsLost(b, load, op);
    ReconciledGrows(Transaction(b, Txn([load, op], true)), later);
  }

  /** Storing a schema is enough: no document is written, the row is committed as it
      was, and the reconciliation is gone. */
  lemma PutSchemaLosesReconciliation(b: Base, outcome: SchemaOutcome, version: nat, specs: seq<IndexSpec>)
    requires version !in b.reconciled && IndexCatalog.Reconcile(b.row.indexes, specs).1.Ok?
    ensures Transaction(b, Txn([PutSchemaOp(outcome), ReconcileOp(version, specs)], true)) ==
            Base(b.row, b.reconciled + {version})
    ensures Transaction(b, Txn([ReconcileOp(version, specs), PutSchemaOp(outcome)], true)) ==
            Base(b.row.(indexes := IndexCatalog.Reconcile(b.row.indexes, specs).0), b.reconciled + {version})
  {
    var load, op := PutSchemaOp(outcome), ReconcileOp(version, specs);
    TakeAround(b, [], load, [op]);
    TakeAround(b, [], op, [load]);
    assert [] + [load] + [op] == [load, op] && [] + [op] + [load] == [op, load];
    assert [op][1..] == [] && [load][1..] == [] && {} + {version} == {version};
  }

  /** A reconciliation after an operation that loads the descriptor makes tombstones
      that the commit revives. */
  lemma LostDropRevives(b: Base, load: Op, version: nat, specs: seq<IndexSpec>, i: nat)
    requires OnCache(load) && version !in b.reconciled && IndexCatalog.WellFormed(b.row.indexes)
    requires i < |b.row.indexes| && b.row.indexes[i].status.Active?
    requires IndexCatalog.Reconcile(b.row.indexes, specs).1.Ok?
    requires !IndexCatalog.Named(specs, b.row.indexes[i].spec.name)
    ensures var op := ReconcileOp(version, specs);
            var x, t := Take(Begun(b), load).0, Transaction(b, Txn([load, op], true));
            && Take(x, op).1 == Ok(())
            && i < |Take(x, op).0.row.indexes| && Take(x, op).0.row.indexes[i].status.DroppedPending?
            && i < |t.row.indexes| && t.row.indexes[i].status.Active?
  {
    var op := ReconcileOp(version, specs);
    RosterOpAfterLoadIsLost(b, load, op);
    IndexCatalog.DeclareEachKeepsWellFormed(b.row.indexes, specs);
    var t := Transaction(b, Txn([load, op], true));
    assert Shape(t.row.indexes)[i] == Shape(b.row.indexes)[i];
  }

  lemma MaxIdByShape(a: IndexCatalog.Roster, b: IndexCatalog.Roster)
    requires Shape(a) == Shape(b)
    ensures |a| == |b| && IndexCatalog.MaxId(a) == IndexCatalog.MaxId(b)
  {
    assert |a| == |b|;
    assert forall i | 0 <= i < |a| :: Shape(a)[i] == Shape(b)[i] && a[i].indexId == b[i].indexId;
    if a == [] { assert b == []; }
  }

  /** The first index a reconciliation adds gets the id after the largest so far. */
  lemma {:induction false} FirstNewId(ixs: IndexCatalog.Roster, specs: seq<IndexSpec>)
    requires IndexCatalog.WellFormed(ixs) && |IndexCatalog.DeclareEach(ixs, specs).0| > |ixs|
    ensures IndexCatalog.DeclareEach(ixs, specs).0[|ixs|].indexId == IndexCatalog.MaxId(ixs) + 1
    decreases |specs|
  {
    var d := IndexCatalog.Declare(ixs, specs[0]);
    IndexCatalog.DeclareKeepsWellFormed(ixs, specs[0]);
    if d.1.Ok? {
      IndexCatalog.DeclareEachKeepsWellFormed(d.0, specs[1..]);
      if d.0 == ixs { FirstNewId(ixs, specs[1..]); }
    }
  }

  lemma ReconciledNewId(ixs: IndexCatalog.Roster, specs: seq<IndexSpec>)
    requires IndexCatalog.WellFormed(ixs) && IndexCatalog.Reconcile(ixs, specs).1.Ok?
    requires |IndexCatalog.Reconcile(ixs, specs).0| > |ixs|
    ensures IndexCatalog.Reconcile(ixs, specs).0[|ixs|].indexId == IndexCatalog.MaxId(ixs) + 1
  {
    FirstNewId(ixs, specs);
  }

  /** The id of an index declared and lost that way is issued a second time. */
  lemma LostIdIsIssuedAgain(b: Base, load: Op, version: nat, lost: seq<IndexSpec>, next: seq<IndexSpec>)
    requires OnCache(load) && version !in b.reconciled && IndexCatalog.WellFormed(b.row.indexes)
    requires IndexCatalog.Reconcile(b.row.indexes, lost).1.Ok?
    requires |IndexCatalog.Reconcile(b.row.indexes, lost).0| > |b.row.indexes|
    requires var t := Transaction(b, Txn([load, ReconcileOp(version, lost)], true));
             && IndexCatalog.Reconcile(t.row.indexes, next).1.Ok?
             && |IndexCatalog.Reconcile(t.row.indexes, next).0| > |b.row.indexes|
    ensures var n, t := |b.row.indexes|, Transaction(b, Txn([load, ReconcileOp(version, lost)], true));
            && |t.row.indexes| == n
            && IndexCatalog.Reconcile(t.row.indexes, next).0[n].indexId ==
               IndexCatalog.Reconcile(b.row.indexes, lost).0[n].indexId
  {
    var op := ReconcileOp(version, lost);
    RosterOpAfterLoadIsLost(b, load, op);
    var t := Transaction(b, Txn([load, op], true));
    RosterStaysWellFormed(b, Txn([load, op], true));
    MaxIdByShape(b.row.indexes, t.row.indexes);
    ReconciledNewId(b.row.indexes, lost);
    ReconciledNewId(t.row.indexes, next);
  }

  lemma RosterStaysWellFormed(b: Base, txn: Txn)
    requires IndexCatalog.WellFormed(b.row.indexes)
    ensures IndexCatalog.WellFormed(Transaction(b, txn).row.indexes)
  {
    BegunIsOrdered(b);
    TakeAllKeepsOrdered(Begun(b), txn.ops);
  }

  // ---- Agreement along a transaction ----

  /** Now and after each operation, no Active index of the descriptor holds an entry
      without its document. */
  ghost predicate GoodAlong(x: Session, ops: seq<Op>)
    decreases |ops|
  {
    Good(Current(x)) && (ops == [] || GoodAlong(Take(x, ops[0]).0, ops[1..]))
  }

  predicate HarmlessAlong(x: Session, ops: seq<Op>)
    decreases |ops|
  {
    ops == [] || (Harmless(Current(x), ops[0]) && HarmlessAlong(Take(x, ops[0]).0, ops[1..]))
  }

  /** Now and after each operation, index i is exact if Active. */
  ghost predicate IntactAlong(x: Session, ops: seq<Op>, i: nat)
    decreases |ops|
  {
    IntactAt(Current(x), i) && (ops == [] || IntactAlong(Take(x, ops[0]).0, ops[1..], i))
  }

  predicate SparesAlong(x: Session, ops: seq<Op>, i: nat)
    decreases |ops|
  {
    ops == [] || (SparesIndex(Current(x), ops[0], i) && SparesAlong(Take(x, ops[0]).0, ops[1..], i))
  }

  lemma {:induction false} GoodAlongExactly(x: Session, ops: seq<Op>)
    requires Good(Current(x))
    ensures GoodAlong(x, ops) <==> HarmlessAlong(x, ops)
    ensures GoodAlong(x, ops) ==> Good(Current(TakeAll(x, ops)))
    decreases |ops|
  {
    if ops != [] {
      var y := Take(x, ops[0]).0;
      TakeIsStep(x, ops[0]);
      StepGoodExactly(Current(x), ops[0]);
      if Good(Current(y)) {
        GoodAlongExactly(y, ops[1..]);
      }
    }
  }

  /** What index i needs of the state around it, whatever becomes of the others. */
  ghost predicate Orderly(s: State) {
    Keyed(s.primary) && IndexCatalog.WellFormed(s.indexes)
  }

  lemma TakeKeepsOrderly(x: Session, op: Op)
    requires Orderly(Current(x))
    ensures Orderly(Current(Take(x, op).0))
  {
    TakeIsStep(x, op);
    StepKeepsRoster(Current(x), op);
    StepKeepsKeyed(Current(x), op);
  }

  lemma {:induction false} IntactAlongExactly(x: Session, ops: seq<Op>, i: nat)
    requires Orderly(Current(x)) && IntactAt(Current(x), i)
    ensures IntactAlong(x, ops, i) <==> SparesAlong(x, ops, i)
    ensures Orderly(Current(TakeAll(x, ops)))
    ensures IntactAlong(x, ops, i) ==> IntactAt(Current(TakeAll(x, ops)), i)
    decreases |ops|
  {
    if ops != [] {
      var y := Take(x, ops[0]).0;
      TakeIsStep(x, ops[0]);
      TakeKeepsOrderly(x, ops[0]);
      StepExactExactly(Current(x), ops[0], i);
      if IntactAt(Current(y), i) {
        IntactAlongExactly(y, ops[1..], i);
      } else {
        OrderlyAlong(y, ops[1..]);
      }
    }
  }

  lemma {:induction false} OrderlyAlong(x: Session, ops: seq<Op>)
    requires Orderly(Current(x))
    ensures Orderly(Current(TakeAll(x, ops)))
    decreases |ops|
  {
    if ops != [] {
      TakeKeepsOrderly(x, ops[0]);
      OrderlyAlong(Take(x, ops[0]).0, ops[1..]);
    }
  }

  // ---- Agreement over runs ----

  /** Good at every moment of every transaction that commits. */
  ghost predicate GoodThroughout(b: Base, txns: seq<Txn>)
    decreases |txns|
  {
    && Good(b.row)
    && (txns == [] ||
        ((txns[0].commits ==> GoodAlong(Begun(b), txns[0].ops)) && GoodThroughout(Transaction(b, txns[0]), txns[1..])))
  }

  predicate HarmlessThroughout(b: Base, txns: seq<Txn>)
    decreases |txns|
  {
    txns == [] ||
    ((txns[0].commits ==> HarmlessAlong(Begun(b), txns[0].ops)) &&
     HarmlessThroughout(Transaction(b, txns[0]), txns[1..]))
  }

  ghost predicate IntactThroughout(b: Base, txns: seq<Txn>, i: nat)
    decreases |txns|
  {
    && IntactAt(b.row, i)
    && (txns == [] ||
        ((txns[0].commits ==> IntactAlong(Begun(b), txns[0].ops, i)) &&
         IntactThroughout(Transaction(b, txns[0]), txns[1..], i)))
  }

  predicate SparesThroughout(b: Base, txns: seq<Txn>, i: nat)
    decreases |txns|
  {
    txns == [] ||
    ((txns[0].commits ==> SparesAlong(Begun(b), txns[0].ops, i)) &&
     SparesThroughout(Transaction(b, txns[0]), txns[1..], i))
  }

  /** Over any run, with failing operations kept or rolled back as the closures
      decide, no Active index ever holds an entry without its document if and only if
      every operation that a transaction committed was harmless. */
  lemma {:induction false} RunGoodExactly(b: Base, txns: seq<Txn>)
    requires Good(b.row)
    ensures GoodThroughout(b, txns) <==> HarmlessThroughout(b, txns)
    ensures HarmlessThroughout(b, txns) ==> Good(Run(b, txns).row)
    decreases |txns|
  {
    if txns != [] {
      var t := Transaction(b, txns[0]);
      if txns[0].commits { GoodAlongExactly(Begun(b), txns[0].ops); }
      if txns[0].commits ==> HarmlessAlong(Begun(b), txns[0].ops) {
        RunGoodExactly(t, txns[1..]);
      }
    }
  }

  /** An exact index stays exact all along a run for as long as it is Active if and
      only if no committed operation that failed before or at it changed the keys of
      its document there. Nothing is asked of the other indexes. */
  lemma {:induction false} RunIntactExactly(b: Base, txns: seq<Txn>, i: nat)
    requires Orderly(b.row) && IntactAt(b.row, i)
    ensures IntactThroughout(b, txns, i) <==> SparesThroughout(b, txns, i)
    ensures SparesThroughout(b, txns, i) ==> Orderly(Run(b, txns).row) && IntactAt(Run(b, txns).row, i)
    decreases |txns|
  {
    if txns != [] {
      var t := Transaction(b, txns[0]);
      if txns[0].commits { IntactAlongExactly(Begun(b), txns[0].ops, i); }
      if txns[0].commits ==> SparesAlong(Begun(b), txns[0].ops, i) {
        RunIntactExactly(t, txns[1..], i);
      }
    }
  }

  /** The committed rosters of a run only grow: positions, ids and specifications
      stay, and no tombstone comes back. */
  lemma {:induction false} RunKeepsRoster(b: Base, txns: seq<Txn>)
    requires IndexCatalog.WellFormed(b.row.indexes)
    ensures IndexCatalog.WellFormed(Run(b, txns).row.indexes)
    ensures IndexCatalog.Later(b.row.indexes, Run(b, txns).row.indexes)
    decreases |txns|
  {
    IndexCatalog.LaterTransitive(b.row.indexes, b.row.indexes, b.row.indexes);
    if txns != [] {
      var t := Transaction(b, txns[0]);
      if txns[0].commits { TakeAllKeepsOrdered(Begun(b), txns[0].ops); }
      RunKeepsRoster(t, txns[1..]);
      IndexCatalog.LaterTransitive(b.row.indexes, t.row.indexes, Run(b, txns).row.indexes);
    }
  }

  // ---- Closures that give up at the first error ----

  /** Everything a committing transaction did succeeded. */
  predicate Propagates(b: Base, txn: Txn) {
    txn.commits ==> forall i | 0 <= i < |txn.ops| :: Reports(Begun(b), txn.ops)[i].Ok?
  }

  predicate AllPropagate(b: Base, txns: seq<Txn>)
    decreases |txns|
  {
    txns == [] || (Propagates(b, txns[0]) && AllPropagate(Transaction(b, txns[0]), txns[1..]))
  }

  lemma {:induction false} SuccessesAlong(x: Session, ops: seq<Op>, i: nat)
    requires Good(Current(x))
    requires forall j | 0 <= j < |ops| :: Reports(x, ops)[j].Ok?
    ensures HarmlessAlong(x, ops) && SparesAlong(x, ops, i)
    decreases |ops|
  {
    if ops != [] {
      var y := Take(x, ops[0]).0;
      assert Reports(x, ops)[0].Ok?;
      assert forall j | 0 <= j < |ops| - 1 :: Reports(y, ops[1..])[j] == Reports(x, ops)[j + 1];
      if OnCache(ops[0]) { SuccessesAndInsertsAreHarmless(Current(x), ops[0], i); }
      TakeIsStep(x, ops[0]);
      StepGoodExactly(Current(x), ops[0]);
      SuccessesAlong(y, ops[1..], i);
    }
  }

  /** Where every error is propagated the conditions are met. */
  lemma {:induction false} PropagatingRunsAreHarmless(b: Base, txns: seq<Txn>, i: nat)
    requires Good(b.row) && AllPropagate(b, txns)
    ensures HarmlessThroughout(b, txns) && SparesThroughout(b, txns, i)
    decreases |txns|
  {
    if txns != [] {
      if txns[0].commits {
        SuccessesAlong(Begun(b), txns[0].ops, i);
        GoodAlongExactly(Begun(b), txns[0].ops);
      }
      PropagatingRunsAreHarmless(Transaction(b, txns[0]), txns[1..], i);
    }
  }

  // ---- What follows for indexes ----

  /** The derived structure over whole runs: an index exact at the start and
      still Active at the end is the map its primary calls for. */
  lemma RunAgreement(b: Base, txns: seq<Txn>, i: nat)
    requires Orderly(b.row) && ExactAt(b.row, i) && SparesThroughout(b, txns, i)
    ensures var t := Run(b, txns).row;
            && i < |t.indexes| && t.indexes[i].spec == b.row.indexes[i].spec
            && (t.indexes[i].status.Active? ==> t.indexes[i].tree.Items == Derived(t.indexes[i].spec, t.primary))
  {
    var t := Run(b, txns).row;
    RunIntactExactly(b, txns, i);
    RunKeepsRoster(b, txns);
    AgreementIsEquality(t.indexes[i], t.primary);
  }

  /** In particular for every index declared while the collection is empty. */
  lemma RunFromEmptyAgreement(b: Base, txns: seq<Txn>, i: nat)
    requires Good(b.row) && b.row.primary == map[] && i < |b.row.indexes| && SparesThroughout(b, txns, i)
    ensures var t := Run(b, txns).row;
            i < |t.indexes| && (t.indexes[i].status.Active? ==>
                                  t.indexes[i].tree.Items == Derived(b.row.indexes[i].spec, t.primary))
  {
    EmptyIsExact(b.row);
    RunKeepsRoster(b, txns);
    if b.row.indexes[i].status.Active? {
      assert ExactAt(b.row, i);
      RunAgreement(b, txns, i);
    }
  }

  /** Over every such run no two documents share a key of an exact Unique index. */
  lemma RunKeepsUnique(b: Base, txns: seq<Txn>, i: nat, one: Bytes, other: Bytes, k: Bytes)
    requires Orderly(b.row) && ExactAt(b.row, i) && SparesThroughout(b, txns, i)
    requires b.row.indexes[i].spec.kind.Unique?
    requires i < |Run(b, txns).row.indexes| && Run(b, txns).row.indexes[i].status.Active?
    requires var docs, spec := Run(b, txns).row.primary, b.row.indexes[i].spec;
             && one in docs && k in UserKeys(spec, docs[one])
             && other in docs && k in UserKeys(spec, docs[other])
    ensures one == other
  {
    var t := Run(b, txns).row;
    RunIntactExactly(b, txns, i);
    RunKeepsRoster(b, txns);
    NoSharedUniqueKey(t.indexes[i], t.primary, one, other, k);
  }

  /** Every Active index was exact, the run spared them all and added none. */
  ghost predicate NothingLost(b: Base, txns: seq<Txn>) {
    && AllExact(b.row) && |Run(b, txns).row.indexes| == |b.row.indexes|
    && forall i | 0 <= i < |b.row.indexes| :: SparesThroughout(b, txns, i)
  }

  /** As long as no index is added, a collection whose Active indexes are all
      exact stays so. */
  lemma NoNewIndexStaysExact(b: Base, txns: seq<Txn>)
    requires Good(b.row) && NothingLost(b, txns)
    ensures AllExact(Run(b, txns).row)
  {
    var t := Run(b, txns).row;
    RunKeepsRoster(b, txns);
    forall i | 0 <= i < |t.indexes| && t.indexes[i].status.Active? ensures ExactAt(t, i) {
      assert b.row.indexes[i].status.Active?;
      assert ExactAt(b.row, i);
      RunIntactExactly(b, txns, i);
    }
  }

  // ---- The documents alone ----

  function StoreRun(d: Store, ops: seq<Op>): Store
    decreases |ops|
  {
    if ops == [] then d else StoreRun(StoreStep(d, ops[0]), ops[1..])
  }

  /** All operations of the transactions that commit, in order. */
  function CommittedOps(txns: seq<Txn>): seq<Op> {
    if txns == [] then [] else (if txns[0].commits then txns[0].ops else []) + CommittedOps(txns[1..])
  }

  lemma {:induction false} TakeAllIsStoreRun(x: Session, ops: seq<Op>)
    ensures StoreOf(Current(TakeAll(x, ops))) == StoreRun(StoreOf(Current(x)), ops)
    decreases |ops|
  {
    if ops != [] {
      TakeIsStep(x, ops[0]);
      StepIsStoreStep(Current(x), ops[0]);
      TakeAllIsStoreRun(Take(x, ops[0]).0, ops[1..]);
    }
  }

  lemma {:induction false} StoreRunConcat(d: Store, a: seq<Op>, b: seq<Op>)
    ensures StoreRun(d, a + b) == StoreRun(StoreRun(d, a), b)
    decreases |a|
  {
    if a == [] {
      assert a + b == b;
    } else {
      assert (a + b)[0] == a[0] && (a + b)[1..] == a[1..] + b;
      StoreRunConcat(StoreStep(d, a[0]), a[1..], b);
    }
  }

  /** After any run the stored documents and the watermark are those of a plain map
      under all operations of the transactions that committed, the failing ones
      included, and of those alone. */
  lemma {:induction false} RunIsStoreRun(b: Base, txns: seq<Txn>)
    ensures StoreOf(Run(b, txns).row) == StoreRun(StoreOf(b.row), CommittedOps(txns))
    decreases |txns|
  {
    if txns != [] {
      var done := if txns[0].commits then txns[0].ops else [];
      if txns[0].commits { TakeAllIsStoreRun(Begun(b), txns[0].ops); }
      RunIsStoreRun(Transaction(b, txns[0]), txns[1..]);
      StoreRunConcat(StoreOf(b.row), done, CommittedOps(txns[1..]));
    }
  }

  // ---- Inserts over runs ----

  function Inserts(ops: seq<Op>): nat {
    if ops == [] then 0
    else Inserts(ops[..|ops| - 1]) + if ops[|ops| - 1].InsertOp? then 1 else 0
  }

  /** The watermark after so many inserts, succeeding or failing. */
  function WatermarkAfter(next: uint64, inserts: nat): uint64 {
    if next == 0 || next + inserts >= TWO64 then 0 else next + inserts
  }

  /** Of the upserts and deletes of the id the last is an upsert. */
  predicate LeftByUpsert(ops: seq<Op>, id: Bytes) {
    ops != [] &&
    var last := ops[|ops| - 1];
    if last.UpsertOp? && last.id == id then true
    else if last.DeleteOp? && last.id == id then false
    else LeftByUpsert(ops[..|ops| - 1], id)
  }

  lemma StoreRunSnoc(d: Store, ops: seq<Op>)
    requires ops != []
    ensures StoreRun(d, ops) == StoreStep(StoreRun(d, ops[..|ops| - 1]), ops[|ops| - 1])
  {
    var init, last := ops[..|ops| - 1], [ops[|ops| - 1]];
    assert ops == init + last && last[1..] == [];
    StoreRunConcat(d, init, last);
  }

  lemma {:induction false} WatermarkOfRun(d: Store, ops: seq<Op>)
    ensures StoreRun(d, ops).next == WatermarkAfter(d.next, Inserts(ops))
    decreases |ops|
  {
    if ops != [] {
      StoreRunSnoc(d, ops);
      WatermarkOfRun(d, ops[..|ops| - 1]);
    }
  }

  /** Above the watermark only upserts leave documents. */
  lemma {:induction false} StoredAboveExactly(d: Store, ops: seq<Op>, id: Bytes)
    requires Below(d) && StoreRun(d, ops).next != 0 && FromBe(id) >= StoreRun(d, ops).next
    ensures id in StoreRun(d, ops).docs <==> LeftByUpsert(ops, id)
    decreases |ops|
  {
    WatermarkOfRun(d, ops);
    if ops != [] {
      var before := StoreRun(d, ops[..|ops| - 1]);
      StoreRunSnoc(d, ops);
      WatermarkOfRun(d, ops[..|ops| - 1]);
      StoredAboveExactly(d, ops[..|ops| - 1], id);
      WordBounds();
      FromBeOfToBe(before.next, 8);
    }
  }

  /** Where an insert stands in a run: after whole transactions, and some operations of
      its own, committing in the end or not. */
  function StandingAt(b: Base, txns: seq<Txn>, ops: seq<Op>): State {
    Current(TakeAll(Begun(Run(b, txns)), ops))
  }

  /** Wherever an insert stands in a run, its id is the watermark at the start plus the
      inserts so far, and it is taken if and only if the last upsert or delete of that
      id so far is an upsert. What was rolled back does not count. */
  lemma InsertMeetsOccupiedExactly(b: Base, txns: seq<Txn>, ops: seq<Op>)
    requires BelowWatermark(b.row)
    ensures var s, done := StandingAt(b, txns, ops), CommittedOps(txns) + ops;
            && s.nextId == WatermarkAfter(b.row.nextId, Inserts(done))
            && (Occupied(s) <==> s.nextId != 0 && LeftByUpsert(done, Be64(s.nextId)))
  {
    var s, done := StandingAt(b, txns, ops), CommittedOps(txns) + ops;
    var d := StoreOf(b.row);
    RunIsStoreRun(b, txns);
    TakeAllIsStoreRun(Begun(Run(b, txns)), ops);
    StoreRunConcat(d, CommittedOps(txns), ops);
    assert StoreOf(s) == StoreRun(d, done);
    WatermarkOfRun(d, done);
    if s.nextId != 0 {
      WordBounds();
      FromBeOfToBe(s.nextId, 8);
      StoredAboveExactly(d, done, Be64(s.nextId));
    }
  }

  /** No insert of the run meets an occupied id. */
  ghost predicate InsertsStayFresh(b: Base, txns: seq<Txn>) {
    forall n, k | 0 <= n < |txns| && 0 <= k < |txns[n].ops| && txns[n].ops[k].InsertOp? ::
      !Occupied(StandingAt(b, txns[..n], txns[n].ops[..k]))
  }

  /** No insert of the run reaches an id that an upsert ahead of the watermark left. */
  ghost predicate NoUpsertIsReached(next: uint64, txns: seq<Txn>) {
    forall n, k | 0 <= n < |txns| && 0 <= k < |txns[n].ops| && txns[n].ops[k].InsertOp? ::
      var done := CommittedOps(txns[..n]) + txns[n].ops[..k];
      var at := WatermarkAfter(next, Inserts(done));
      at == 0 || !LeftByUpsert(done, Be64(at))
  }

  /** Over a run that starts with ids below the watermark no insert meets an occupied
      id if and only if none reaches an id left by an upsert, which the operations and
      the first watermark tell alone. */
  lemma InsertsStayFreshExactly(b: Base, txns: seq<Txn>)
    requires BelowWatermark(b.row)
    ensures InsertsStayFresh(b, txns) <==> NoUpsertIsReached(b.row.nextId, txns)
  {
    forall n, k | 0 <= n < |txns| && 0 <= k < |txns[n].ops| && txns[n].ops[k].InsertOp?
      ensures var done := CommittedOps(txns[..n]) + txns[n].ops[..k];
              var at := WatermarkAfter(b.row.nextId, Inserts(done));
              Occupied(StandingAt(b, txns[..n], txns[n].ops[..k])) <==> at != 0 && LeftByUpsert(done, Be64(at))
    {
      InsertMeetsOccupiedExactly(b, txns[..n], txns[n].ops[..k]);
    }
  }

  /** No upsert has left a document at or above this watermark. */
  ghost predicate NothingLeftAhead(ops: seq<Op>, next: uint64) {
    next != 0 ==> forall id | LeftByUpsert(ops, id) :: FromBe(id) < next
  }

  /** Over a run stored ids stay below the watermark, so that the next insert is fresh,
      if and only if no upsert has left a document at or above where the watermark ends. */
  lemma RunKeepsWatermarkExactly(b: Base, txns: seq<Txn>)
    requires BelowWatermark(b.row)
    ensures BelowWatermark(Run(b, txns).row) <==> NothingLeftAhead(CommittedOps(txns), Run(b, txns).row.nextId)
    ensures BelowWatermark(Run(b, txns).row) ==> !Occupied(Run(b, txns).row)
  {
    var t, done := Run(b, txns).row, CommittedOps(txns);
    RunIsStoreRun(b, txns);
    if t.nextId != 0 {
      forall id | FromBe(id) >= t.nextId ensures id in t.primary <==> LeftByUpsert(done, id) {
        StoredAboveExactly(StoreOf(b.row), done, id);
      }
      if BelowWatermark(t) {
        forall id | FromBe(id) >= t.nextId ensures !LeftByUpsert(done, id) {
          assert id !in t.primary;
        }
      } else {
        var id :| id in t.primary && FromBe(id) >= t.nextId;
        assert LeftByUpsert(done, id);
      }
    }
    if BelowWatermark(t) { FreshIdUnderWatermark(t); }
  }

  // ---- The transaction object and the connection ----

  class OpenTransaction {
    var row: State
    var handle: Handle?
    var shared: set<nat>
    var staged: set<nat>

    ghost function View(): Session
      reads this, handle
    {
      Session(row, if handle == null then None else Some(handle.View()), shared, staged)
    }

    constructor (b: Base)
      ensures View() == Begun(b) && handle == null
    {
      row, handle, shared, staged := b.row, null, b.reconciled, {};
    }

    /** The live cached descriptor, loaded from the row on first touch. */
    method CachedDescriptor() returns (h: Handle)
      modifies this`handle
      ensures handle == h && h.View() == Current(old(View()))
      ensures old(handle) == null ==> fresh(h)
      ensures old(handle) != null ==> h == old(handle)
    {
      if handle == null {
        handle := new Handle(row);
      }
      h := handle;
    }

    method TakeOnCache(op: Op) returns (r: Result<()>)
      requires OnCache(op)
      modifies this, handle
      ensures (View(), r) == Take(old(View()), op)
      ensures handle != null && (fresh(handle) || handle == old(handle))
    {
      var h := CachedDescriptor();
      match op {
        case InsertOp(doc) =>
          var inserted := h.DoInsert(doc);
          r := Discard(inserted);
        case UpdateOp(id, f) =>
          r := h.DoUpdate(id, f);
        case UpsertOp(id, doc) =>
          r := h.DoUpsert(id, doc);
        case DeleteOp(id) =>
          var deleted := h.DoDelete(id);
          r := Discard(deleted);
        case PutSchemaOp(outcome) =>
          r := outcome;
      }
    }

    method TakeRosterOp(op: Op) returns (r: Result<()>)
      requires !OnCache(op) && IndexCatalog.WellFormed(row.indexes)
      modifies this
      ensures (View(), r) == Take(old(View()), op) && handle == old(handle)
    {
      if op.ReconcileOp? && (op.version in staged || op.version in shared) {
        return Ok(());
      }
      var catalog := new IndexCatalog.CatalogRow(row.indexes);
      match op {
        case DeclareOp(spec) =>
          var declared := catalog.DeclareIndex(spec);
          r := Discard(declared);
        case DropOp(name) =>
          r := catalog.DropIndex(name);
        case ReconcileOp(version, specs) =>
          r := catalog.ReconcileIndexes(specs);
          if r.Ok? {
            staged := staged + {version};
          }
      }
      row := row.(indexes := catalog.roster);
    }

    method TakeOne(op: Op) returns (r: Result<()>)
      requires Ordered(View())
      modifies this, handle
      ensures (View(), r) == Take(old(View()), op) && Ordered(View())
      ensures handle == old(handle) || fresh(handle)
    {
      TakeKeepsOrdered(View(), op);
      if OnCache(op) {
        r := TakeOnCache(op);
      } else {
        r := TakeRosterOp(op);
      }
    }

    method TakeOps(ops: seq<Op>) returns (reports: seq<Result<()>>)
      requires Ordered(View())
      modifies this, handle
      ensures View() == TakeAll(old(View()), ops) && Ordered(View())
      ensures reports == Reports(old(View()), ops)
    {
      ghost var x := View();
      reports := [];
      for i := 0 to |ops|
        invariant handle == old(handle) || fresh(handle)
        invariant Ordered(View()) && TakeAll(x, ops) == TakeAll(View(), ops[i..])
        invariant Reports(x, ops) == reports + Reports(View(), ops[i..])
      {
        assert ops[i..][0] == ops[i] && ops[i..][1..] == ops[i + 1..];
        var r := TakeOne(ops[i]);
        reports := reports + [r];
      }
    }

    /** Writes the cached descriptor over the row. */
    method FlushDescriptors()
      modifies this`row
      ensures row == Current(old(View()))
    {
      if handle != null {
        row := State(handle.nextId, handle.primary, handle.indexes);
      }
    }
  }

  class Connection {
    var row: State
    var reconciled: set<nat>

    ghost function View(): Base
      reads this
    {
      Base(row, reconciled)
    }

    constructor ()
      ensures View() == Base(State(1, map[], []), {}) && Good(row)
    {
      row, reconciled := State(1, map[], []), {};
    }

    /** Takes the closure's operations on a transaction of its own and commits or
        abandons it. */
    method RunTransaction(txn: Txn) returns (reports: seq<Result<()>>)
      requires IndexCatalog.WellFormed(row.indexes)
      modifies this
      ensures View() == Transaction(old(View()), txn) && IndexCatalog.WellFormed(row.indexes)
      ensures reports == Reports(Begun(old(View())), txn.ops)
    {
      var open := new OpenTransaction(Base(row, reconciled));
      IndexCatalog.LaterTransitive(row.indexes, row.indexes, row.indexes);
      reports := open.TakeOps(txn.ops);
      if txn.commits {
        open.FlushDescriptors();
        row, reconciled := open.row, open.shared + open.staged;
      }
    }
  }
}
