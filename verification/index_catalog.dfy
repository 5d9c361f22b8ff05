/** The index roster of a collection: declaration, tombstoning and reconciliation. */
module IndexCatalog {
  import opened Outcomes
  import opened IndexKey
  import opened IndexExtract
  import opened IndexMaint

  type Roster = seq<IndexDescriptor>

  function Find(ixs: Roster, name: string): (i: Option<nat>)
    ensures i.Some? ==> i.value < |ixs| && ixs[i.value].spec.name == name
    ensures i.Some? ==> forall j | 0 <= j < i.value :: ixs[j].spec.name != name
    ensures i.None? ==> forall j | 0 <= j < |ixs| :: ixs[j].spec.name != name
  {
    if ixs == [] then None
    else if ixs[0].spec.name == name then Some(0)
    else
      var r := Find(ixs[1..], name);
      assert forall j | 1 <= j < |ixs| :: ixs[j] == ixs[1..][j - 1];
      if r.None? then None else Some(r.value + 1)
  }

  function MaxId(ixs: Roster): (m: nat)
    ensures forall i | 0 <= i < |ixs| :: ixs[i].indexId <= m
    ensures ixs != [] ==> exists i | 0 <= i < |ixs| :: ixs[i].indexId == m
  {
    if ixs == [] then 0 else
    var n := |ixs| - 1;
    var m := MaxId(ixs[..n]);
    assert forall i | 0 <= i < n :: ixs[i] == ixs[..n][i];
    if ixs[n].indexId > m then ixs[n].indexId else m
  }

  function ReconcileExisting(found: IndexDescriptor, spec: IndexSpec): (r: Result<nat>) {
    if found.spec.kind != spec.kind then Err(IndexKindMismatch(spec.name))
    else if found.spec.keyPaths != spec.keyPaths then Err(IndexKeyPathsMismatch(spec.name))
    else Ok(found.indexId)
  }

  /** A new name gets a fresh id and an empty tree, whatever the collection
      holds; a known name, tombstoned or not, must match and changes nothing. */
  function Declare(ixs: Roster, spec: IndexSpec): (r: (Roster, Result<nat>)) {
    if !ValidSpec(spec) then (ixs, Err(InvalidArgument)) else
    var found := Find(ixs, spec.name);
    if found.Some? then (ixs, ReconcileExisting(ixs[found.value], spec))
    else if MaxId(ixs) + 1 >= TWO32 then (ixs, Err(IdSpaceExhausted))
    else (ixs + [IndexDescriptor(MaxId(ixs) + 1, spec, map[], Active)], Ok(MaxId(ixs) + 1))
  }

  function Tombstone(ixs: Roster, i: nat): Roster
    requires i < |ixs|
  {
    ixs[i := ixs[i].(status := DroppedPending)]
  }

  function Drop(ixs: Roster, name: string): (r: (Roster, Result<()>)) {
    var found := Find(ixs, name);
    if found.None? then (ixs, Err(IndexNotFound(name))) else (Tombstone(ixs, found.value), Ok(()))
  }

  predicate AllValid(specs: seq<IndexSpec>) {
    forall s | s in specs :: ValidSpec(s)
  }

  predicate Named(specs: seq<IndexSpec>, name: string) {
    exists s | s in specs :: s.name == name
  }

  /** The declaration pass: stops at the first mismatch with the earlier
      declarations staged. */
  function DeclareEach(ixs: Roster, specs: seq<IndexSpec>): (r: (Roster, Result<()>))
    decreases |specs|
  {
    if specs == [] then (ixs, Ok(())) else
    var d := Declare(ixs, specs[0]);
    if d.1.Err? then (d.0, Err(d.1.error)) else DeclareEach(d.0, specs[1..])
  }

  /** Every Active descriptor without a spec of its name becomes a tombstone. */
  function DropUnnamed(ixs: Roster, specs: seq<IndexSpec>): (r: Roster)
    ensures |r| == |ixs|
    ensures forall i | 0 <= i < |ixs| ::
              r[i] == if Named(specs, ixs[i].spec.name) then ixs[i] else ixs[i].(status := DroppedPending)
  {
    seq(|ixs|, i requires 0 <= i < |ixs| =>
      if Named(specs, ixs[i].spec.name) then ixs[i] else ixs[i].(status := DroppedPending))
  }

  function Reconcile(ixs: Roster, specs: seq<IndexSpec>): (r: (Roster, Result<()>)) {
    if !AllValid(specs) then (ixs, Err(InvalidArgument)) else
    var d := DeclareEach(ixs, specs);
    if d.1.Err? then d else (DropUnnamed(d.0, specs), Ok(()))
  }

  lemma {:induction false} DeclareEachErrors(ixs: Roster, specs: seq<IndexSpec>)
    ensures DeclareEach(ixs, specs).1 != Err(BTreeKeyExists)
    decreases |specs|
  {
    if specs != [] {
      DeclareEachErrors(Declare(ixs, specs[0]).0, specs[1..]);
    }
  }

  /** Reconciling touches no tree, so it cannot meet an occupied key. */
  lemma ReconcileErrors(ixs: Roster, specs: seq<IndexSpec>)
    ensures Reconcile(ixs, specs).1 != Err(BTreeKeyExists)
  {
    DeclareEachErrors(ixs, specs);
  }

  // ---- Invariants of every roster ----

  ghost predicate WellFormed(ixs: Roster) {
    && (forall i | 0 <= i < |ixs| :: 0 < ixs[i].indexId < TWO32 && ValidSpec(ixs[i].spec))
    && (forall i, j | 0 <= i < j < |ixs| :: ixs[i].indexId < ixs[j].indexId)
    && (forall i, j | 0 <= i < j < |ixs| :: ixs[i].spec.name != ixs[j].spec.name)
  }

  /** Later is a later roster of the same collection: descriptors keep their
      position, id and specification, and a tombstone stays a tombstone. */
  ghost predicate Later(ixs: Roster, later: Roster) {
    && |ixs| <= |later|
    && forall i | 0 <= i < |ixs| ::
         && later[i].indexId == ixs[i].indexId
         && later[i].spec == ixs[i].spec
         && (ixs[i].status.DroppedPending? ==> later[i].status.DroppedPending?)
  }

  lemma LaterTransitive(a: Roster, b: Roster, c: Roster)
    requires Later(a, b) && Later(b, c)
    ensures Later(a, c)
  {}

  lemma DeclareKeepsWellFormed(ixs: Roster, spec: IndexSpec)
    requires WellFormed(ixs)
    ensures WellFormed(Declare(ixs, spec).0) && Later(ixs, Declare(ixs, spec).0)
    ensures Declare(ixs, spec).1.Ok? ==> Find(Declare(ixs, spec).0, spec.name).Some?
  {
    var later := Declare(ixs, spec).0;
    if later != ixs {
      assert later[|ixs|].spec == spec;
    }
  }

  lemma DropKeepsWellFormed(ixs: Roster, name: string)
    requires WellFormed(ixs)
    ensures WellFormed(Drop(ixs, name).0) && Later(ixs, Drop(ixs, name).0)
  {}

  lemma {:induction false} DeclareEachKeepsWellFormed(ixs: Roster, specs: seq<IndexSpec>)
    requires WellFormed(ixs)
    ensures WellFormed(DeclareEach(ixs, specs).0) && Later(ixs, DeclareEach(ixs, specs).0)
    decreases |specs|
  {
    if specs != [] {
      DeclareKeepsWellFormed(ixs, specs[0]);
      var d := Declare(ixs, specs[0]);
      if d.1.Ok? {
        DeclareEachKeepsWellFormed(d.0, specs[1..]);
        LaterTransitive(ixs, d.0, DeclareEach(d.0, specs[1..]).0);
      }
    }
  }

  lemma DropUnnamedKeepsWellFormed(ixs: Roster, specs: seq<IndexSpec>)
    requires WellFormed(ixs)
    ensures WellFormed(DropUnnamed(ixs, specs)) && Later(ixs, DropUnnamed(ixs, specs))
  {}

  lemma ReconcileKeepsWellFormed(ixs: Roster, specs: seq<IndexSpec>)
    requires WellFormed(ixs)
    ensures WellFormed(Reconcile(ixs, specs).0) && Later(ixs, Reconcile(ixs, specs).0)
  {
    if AllValid(specs) {
      var declared := DeclareEach(ixs, specs).0;
      DeclareEachKeepsWellFormed(ixs, specs);
      DropUnnamedKeepsWellFormed(declared, specs);
      LaterTransitive(ixs, declared, DropUnnamed(declared, specs));
    }
  }

  // ---- What a successful reconciliation establishes ----

  predicate Matches(ixs: Roster, spec: IndexSpec) {
    var found := Find(ixs, spec.name);
    found.Some? && ixs[found.value].spec == spec
  }

  function Names(ixs: Roster, status: IndexStatus): set<string> {
    set i | 0 <= i < |ixs| && ixs[i].status == status :: ixs[i].spec.name
  }

  function SpecNames(specs: seq<IndexSpec>): set<string> {
    set s | s in specs :: s.name
  }

  lemma FindStable(ixs: Roster, later: Roster, name: string)
    requires WellFormed(ixs) && WellFormed(later) && Later(ixs, later) && Find(ixs, name).Some?
    ensures Find(later, name) == Find(ixs, name)
  {
    var i := Find(ixs, name).value;
    assert later[i].spec.name == name;
    assert Find(later, name).Some?;
  }

  lemma DeclareResult(ixs: Roster, spec: IndexSpec)
    requires WellFormed(ixs) && Declare(ixs, spec).1.Ok?
    ensures var later := Declare(ixs, spec).0;
            && Matches(later, spec)
            && (later == ixs ||
                (later == ixs + [later[|ixs|]] && later[|ixs|].spec == spec && later[|ixs|].status.Active?))
  {
    var later := Declare(ixs, spec).0;
    if later != ixs {
      assert later[|ixs|].spec == spec;
      assert Find(later, spec.name).Some?;
    }
  }

  /** later extends ixs by Active descriptors that specs name. */
  ghost predicate Extended(ixs: Roster, later: Roster, specs: seq<IndexSpec>) {
    && |ixs| <= |later| && later[..|ixs|] == ixs
    && forall i | |ixs| <= i < |later| :: later[i].status.Active? && Named(specs, later[i].spec.name)
  }

  /** After the declaration pass each spec is on the roster, every descriptor was
      there before with its status or is new, Active and named by a spec. */
  lemma {:induction false} DeclareEachResult(ixs: Roster, specs: seq<IndexSpec>)
    requires WellFormed(ixs) && DeclareEach(ixs, specs).1.Ok?
    ensures Extended(ixs, DeclareEach(ixs, specs).0, specs)
    ensures forall s | s in specs :: Matches(DeclareEach(ixs, specs).0, s)
    decreases |specs|
  {
    if specs != [] {
      var d := Declare(ixs, specs[0]);
      DeclareKeepsWellFormed(ixs, specs[0]);
      DeclareResult(ixs, specs[0]);
      DeclareEachResult(d.0, specs[1..]);
      DeclareEachKeepsWellFormed(d.0, specs[1..]);
      var later := DeclareEach(d.0, specs[1..]).0;
      FindStable(d.0, later, specs[0].name);
      assert forall s :: s in specs <==> s == specs[0] || s in specs[1..];
      assert later[..|ixs|] == later[..|d.0|][..|ixs|];
      forall i | |ixs| <= i < |later| ensures later[i].status.Active? && Named(specs, later[i].spec.name) {
        if i < |d.0| {
          assert later[i] == later[..|d.0|][i];
          assert specs[0] in specs;
        }
      }
    }
  }

  /** Declaring specs that all match is a no-op. */
  lemma {:induction false} DeclareEachIdle(ixs: Roster, specs: seq<IndexSpec>)
    requires AllValid(specs) && forall s | s in specs :: Matches(ixs, s)
    ensures DeclareEach(ixs, specs) == (ixs, Ok(()))
  {
    if specs != [] {
      assert specs[0] in specs;
      assert forall s | s in specs[1..] :: s in specs;
      DeclareEachIdle(ixs, specs[1..]);
    }
  }

  /** A successful reconciliation is idempotent and leaves Active exactly the
      spec names that were not tombstoned before. */
  lemma ReconcileResult(ixs: Roster, specs: seq<IndexSpec>)
    requires WellFormed(ixs) && Reconcile(ixs, specs).1.Ok?
    ensures Reconcile(Reconcile(ixs, specs).0, specs) == Reconcile(ixs, specs)
    ensures Names(Reconcile(ixs, specs).0, Active) == SpecNames(specs) - Names(ixs, DroppedPending)
  {
    var declared := DeclareEach(ixs, specs).0;
    var final := Reconcile(ixs, specs).0;
    DeclareEachResult(ixs, specs);
    DeclareEachKeepsWellFormed(ixs, specs);
    ReconcileKeepsWellFormed(ixs, specs);
    forall s | s in specs ensures Matches(final, s) {
      assert Matches(declared, s);
      var i := Find(declared, s.name).value;
      assert final[i].spec == declared[i].spec;
      assert Find(final, s.name).Some?;
    }
    DeclareEachIdle(final, specs);
    assert DropUnnamed(final, specs) == final;
    ActiveAfterReconcile(ixs, specs);
  }

  lemma ActiveAfterReconcile(ixs: Roster, specs: seq<IndexSpec>)
    requires WellFormed(ixs) && Reconcile(ixs, specs).1.Ok?
    ensures Names(Reconcile(ixs, specs).0, Active) == SpecNames(specs) - Names(ixs, DroppedPending)
  {
    DeclareEachResult(ixs, specs);
    DeclareEachKeepsWellFormed(ixs, specs);
    ActiveAfterDrop(ixs, DeclareEach(ixs, specs).0, specs);
  }

  lemma ActiveAfterDrop(ixs: Roster, declared: Roster, specs: seq<IndexSpec>)
    requires WellFormed(declared) && Extended(ixs, declared, specs)
    requires forall s | s in specs :: Matches(declared, s)
    ensures Names(DropUnnamed(declared, specs), Active) == SpecNames(specs) - Names(ixs, DroppedPending)
  {
    var final := DropUnnamed(declared, specs);
    forall n | n in Names(final, Active) ensures n in SpecNames(specs) && n !in Names(ixs, DroppedPending) {
      var i :| 0 <= i < |final| && final[i].status == Active && final[i].spec.name == n;
      ActiveIsClaimed(ixs, declared, specs, i);
    }
    forall s | s in specs && s.name !in Names(ixs, DroppedPending) ensures s.name in Names(final, Active) {
      ClaimedIsActive(ixs, declared, specs, s);
    }
  }

  lemma ActiveIsClaimed(ixs: Roster, declared: Roster, specs: seq<IndexSpec>, i: nat)
    requires WellFormed(declared) && Extended(ixs, declared, specs)
    requires i < |declared| && DropUnnamed(declared, specs)[i].status.Active?
    ensures DropUnnamed(declared, specs)[i] == declared[i]
    ensures declared[i].spec.name in SpecNames(specs) && declared[i].spec.name !in Names(ixs, DroppedPending)
  {
    assert Named(specs, declared[i].spec.name);
    forall j | 0 <= j < |ixs| && ixs[j].status.DroppedPending? ensures ixs[j].spec.name != declared[i].spec.name {
      assert declared[..|ixs|][j] == declared[j];
    }
  }

  lemma ClaimedIsActive(ixs: Roster, declared: Roster, specs: seq<IndexSpec>, s: IndexSpec)
    requires WellFormed(declared) && Extended(ixs, declared, specs)
    requires s in specs && Matches(declared, s) && s.name !in Names(ixs, DroppedPending)
    ensures s.name in Names(DropUnnamed(declared, specs), Active)
  {
    var i := Find(declared, s.name).value;
    assert Named(specs, declared[i].spec.name);
    if i < |ixs| {
      assert declared[..|ixs|][i] == declared[i];
    }
    assert DropUnnamed(declared, specs)[i] == declared[i];
  }

  // ---- The catalog's routines ----

  /** The catalog row of one collection. */
  class CatalogRow {
    var roster: Roster

    constructor (ixs: Roster)
      ensures roster == ixs
    {
      roster := ixs;
    }

    method DeclareIndex(spec: IndexSpec) returns (r: Result<nat>)
      modifies this
      ensures (roster, r) == Declare(old(roster), spec)
    {
      if !ValidSpec(spec) {
        return Err(InvalidArgument);
      }
      var found := Find(roster, spec.name);
      if found.Some? {
        return ReconcileExisting(roster[found.value], spec);
      }
      var id := MaxId(roster) + 1;
      if id >= TWO32 {
        return Err(IdSpaceExhausted);
      }
      roster := roster + [IndexDescriptor(id, spec, map[], Active)];
      return Ok(id);
    }

    method DropIndex(name: string) returns (r: Result<()>)
      modifies this
      ensures (roster, r) == Drop(old(roster), name)
    {
      var found := Find(roster, name);
      if found.None? {
        return Err(IndexNotFound(name));
      }
      if roster[found.value].status.Active? {
        roster := Tombstone(roster, found.value);
      }
      assert roster == Tombstone(old(roster), found.value);
      return Ok(());
    }

    /** Drops the names one by one, each found afresh. */
    method DropEach(names: seq<string>)
      modifies this
      requires forall i, j | 0 <= i < j < |roster| :: roster[i].spec.name != roster[j].spec.name
      ensures |roster| == |old(roster)|
      ensures forall j | 0 <= j < |roster| ::
                roster[j] == if old(roster)[j].spec.name in names then old(roster)[j].(status := DroppedPending)
                             else old(roster)[j]
    {
      for i := 0 to |names|
        invariant |roster| == |old(roster)|
        invariant forall j | 0 <= j < |roster| ::
                    roster[j] == if old(roster)[j].spec.name in names[..i]
                        then old(roster)[j].(status := DroppedPending)
                                 else old(roster)[j]
      {
        var _ := DropIndex(names[i]);
        assert names[..i + 1] == names[..i] + [names[i]];
      }
      assert names[..|names|] == names;
    }

    /** Declares every spec, then tombstones by name each Active descriptor that
        no spec names. */
    method ReconcileIndexes(specs: seq<IndexSpec>) returns (r: Result<()>)
      requires WellFormed(roster)
      modifies this
      ensures (roster, r) == Reconcile(old(roster), specs)
    {
      if !AllValid(specs) {
        return Err(InvalidArgument);
      }
      for i := 0 to |specs|
        invariant DeclareEach(old(roster), specs) == DeclareEach(roster, specs[i..])
        invariant WellFormed(roster)
      {
        DeclareKeepsWellFormed(roster, specs[i]);
        assert specs[i..][0] == specs[i] && specs[i..][1..] == specs[i + 1..];
        var declared := DeclareIndex(specs[i]);
        if declared.Err? {
          return Err(declared.error);
        }
      }
      DropUnclaimed(specs);
      return Ok(());
    }

    method DropUnclaimed(specs: seq<IndexSpec>)
      requires WellFormed(roster)
      modifies this
      ensures roster == DropUnnamed(old(roster), specs)
    {
      ghost var declared := roster;
      var toDrop: seq<string> := [];
      for i := 0 to |roster|
        invariant roster == declared
        invariant forall n :: n in toDrop <==>
                                exists j | 0 <= j < i :: roster[j].spec.name == n && Unclaimed(roster[j], specs)
      {
        if Unclaimed(roster[i], specs) {
          toDrop := toDrop + [roster[i].spec.name];
        }
      }
      DropEach(toDrop);
      assert roster == DropUnnamed(declared, specs);
    }
  }

  predicate Unclaimed(ix: IndexDescriptor, specs: seq<IndexSpec>) {
    ix.status.Active? && !Named(specs, ix.spec.name)
  }
}
