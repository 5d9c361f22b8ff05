/** When declarations, drops and reconciliations of indexes succeed, what they leave of
    the roster, and with which error they fail otherwise. */
module RosterOutcomes {
  import opened Outcomes
  import opened IndexKey
  import opened IndexExtract
  import opened IndexMaint
  import opened IndexCatalog

  predicate At(ixs: Roster, i: nat, name: string) {
    i < |ixs| && ixs[i].spec.name == name
  }

  /** Dropping makes a tombstone of the index of that name and touches nothing else. */
  lemma DropExactly(ixs: Roster, name: string)
    requires WellFormed(ixs)
    ensures var (later, r) := Drop(ixs, name);
            && (r == Ok(()) <==> exists i :: At(ixs, i, name))
            && (r.Err? ==> r.error == IndexNotFound(name) && later == ixs)
            && |later| == |ixs|
            && forall i: nat | i < |ixs| ::
                 later[i] == if ixs[i].spec.name == name then ixs[i].(status := DroppedPending) else ixs[i]
  {
    if Find(ixs, name).Some? {
      assert At(ixs, Find(ixs, name).value, name);
    }
  }

  /** A known name answers with its id where kind and key paths match, a new one with an
      id larger than any before, at the end of the roster and with an empty tree. */
  lemma DeclareKnown(ixs: Roster, spec: IndexSpec, i: nat)
    requires WellFormed(ixs) && At(ixs, i, spec.name) && ValidSpec(spec)
    ensures var (later, r) := Declare(ixs, spec);
            && later == ixs
            && r == if ixs[i].spec.kind != spec.kind then Err(IndexKindMismatch(spec.name))
                    else if ixs[i].spec.keyPaths != spec.keyPaths then Err(IndexKeyPathsMismatch(spec.name))
                    else Ok(ixs[i].indexId)
  {
    assert Find(ixs, spec.name) == Some(i);
  }

  lemma DeclareNew(ixs: Roster, spec: IndexSpec)
    requires WellFormed(ixs) && ValidSpec(spec) && forall i :: !At(ixs, i, spec.name)
    ensures var (later, r) := Declare(ixs, spec);
            && (r.Err? <==> exists i: nat | i < |ixs| :: ixs[i].indexId == TWO32 - 1)
            && (r.Err? ==> r.error == IdSpaceExhausted && later == ixs)
            && (r.Ok? ==>
                  && later == ixs + [IndexDescriptor(r.value, spec, map[], Active)]
                  && (forall i: nat | i < |ixs| :: ixs[i].indexId < r.value)
                  && (r.value == 1 || exists i: nat | i < |ixs| :: ixs[i].indexId == r.value - 1))
  {
    var found := Find(ixs, spec.name);
    assert found.Some? ==> At(ixs, found.value, spec.name);
  }

  // ---- Reconciliation ----

  function RosterSpecs(ixs: Roster): set<IndexSpec> {
    set i | 0 <= i < |ixs| :: ixs[i].spec
  }

  /** What is on the roster and what is asked for. */
  function AllSpecs(ixs: Roster, specs: seq<IndexSpec>): set<IndexSpec> {
    RosterSpecs(ixs) + set s | s in specs
  }

  /** No two of them have the same name. */
  predicate NamesTell(all: set<IndexSpec>) {
    forall a, b | a in all && b in all && a.name == b.name :: a == b
  }

  /** Neither contradicts the other, and there are ids for what is new. */
  predicate Declarable(ixs: Roster, specs: seq<IndexSpec>) {
    NamesTell(AllSpecs(ixs, specs)) && MaxId(ixs) + (|AllSpecs(ixs, specs)| - |ixs|) < TWO32
  }

  lemma RosterSpecsSnoc(ixs: Roster, ix: IndexDescriptor)
    ensures RosterSpecs(ixs + [ix]) == RosterSpecs(ixs) + {ix.spec}
    ensures MaxId(ixs + [ix]) == if ix.indexId > MaxId(ixs) then ix.indexId else MaxId(ixs)
  {
    var later := ixs + [ix];
    assert later[..|ixs|] == ixs && later[|ixs|] == ix;
    forall s | s in RosterSpecs(ixs) ensures s in RosterSpecs(later) {
      var i :| 0 <= i < |ixs| && ixs[i].spec == s;
      assert later[i].spec == s;
    }
    assert later[|ixs|].spec in RosterSpecs(later);
  }

  /** Distinct names make distinct specs. */
  lemma {:induction false} RosterSpecsCount(ixs: Roster)
    requires forall i, j | 0 <= i < j < |ixs| :: ixs[i].spec.name != ixs[j].spec.name
    ensures |RosterSpecs(ixs)| == |ixs|
  {
    if ixs != [] {
      var n := |ixs| - 1;
      assert ixs == ixs[..n] + [ixs[n]];
      RosterSpecsCount(ixs[..n]);
      RosterSpecsSnoc(ixs[..n], ixs[n]);
      assert ixs[n].spec !in RosterSpecs(ixs[..n]);
    }
  }

  lemma NothingToDeclare(ixs: Roster)
    requires WellFormed(ixs)
    ensures Declarable(ixs, [])
  {
    RosterSpecsCount(ixs);
    assert AllSpecs(ixs, []) == RosterSpecs(ixs);
  }

  lemma InSpecs(specs: seq<IndexSpec>)
    requires specs != []
    ensures (set s | s in specs) == {specs[0]} + set s | s in specs[1..]
  {}

  /** A spec under a known name has to be the one on the roster. */
  lemma DeclarableKnown(ixs: Roster, specs: seq<IndexSpec>, i: nat)
    requires specs != [] && At(ixs, i, specs[0].name)
    ensures Declarable(ixs, specs) <==> ixs[i].spec == specs[0] && Declarable(ixs, specs[1..])
  {
    InSpecs(specs);
    assert ixs[i].spec in RosterSpecs(ixs);
    if ixs[i].spec == specs[0] { assert AllSpecs(ixs, specs) == AllSpecs(ixs, specs[1..]); }
  }

  lemma Regroup<T>(a: set<T>, x: T, b: set<T>)
    ensures a + ({x} + b) == (a + {x}) + b
  {}

  lemma SpecsMoveOver(ixs: Roster, specs: seq<IndexSpec>, ix: IndexDescriptor)
    requires specs != [] && ix.spec == specs[0]
    ensures AllSpecs(ixs + [ix], specs[1..]) == AllSpecs(ixs, specs)
  {
    RosterSpecsSnoc(ixs, ix);
    InSpecs(specs);
    Regroup(RosterSpecs(ixs), specs[0], set s | s in specs[1..]);
  }

  /** One under a new name takes the next id. */
  lemma DeclarableNew(ixs: Roster, specs: seq<IndexSpec>, ix: IndexDescriptor)
    requires specs != [] && ix.spec == specs[0] && ix.indexId == MaxId(ixs) + 1
    ensures Declarable(ixs, specs) <==> Declarable(ixs + [ix], specs[1..])
  {
    SpecsMoveOver(ixs, specs, ix);
    RosterSpecsSnoc(ixs, ix);
  }

  /** There has to be one. */
  lemma NoIdLeft(ixs: Roster, specs: seq<IndexSpec>)
    requires WellFormed(ixs) && specs != [] && MaxId(ixs) + 1 >= TWO32
    requires forall i :: !At(ixs, i, specs[0].name)
    ensures !Declarable(ixs, specs)
  {
    RosterSpecsCount(ixs);
    InSpecs(specs);
    forall i: nat | i < |ixs| ensures ixs[i].spec != specs[0] { assert !At(ixs, i, specs[0].name); }
    var atLeast := RosterSpecs(ixs) + {specs[0]};
    assert |atLeast| == |ixs| + 1;
    Larger(atLeast, AllSpecs(ixs, specs));
  }

  lemma Larger<T>(a: set<T>, b: set<T>)
    requires a <= b
    ensures |a| <= |b|
  {
    assert b == a + (b - a);
  }

  lemma {:induction false} DeclareEachExactly(ixs: Roster, specs: seq<IndexSpec>)
    requires WellFormed(ixs) && AllValid(specs)
    ensures DeclareEach(ixs, specs).1.Ok? <==> Declarable(ixs, specs)
    decreases |specs|
  {
    if specs == [] {
      NothingToDeclare(ixs);
    } else {
      assert specs[0] in specs && forall s | s in specs[1..] :: s in specs;
      DeclareKeepsWellFormed(ixs, specs[0]);
      DeclareEachExactly(Declare(ixs, specs[0]).0, specs[1..]);
      DeclareFirst(ixs, specs);
    }
  }

  lemma DeclareFirst(ixs: Roster, specs: seq<IndexSpec>)
    requires WellFormed(ixs) && specs != [] && ValidSpec(specs[0])
    ensures Declarable(ixs, specs) <==>
              Declare(ixs, specs[0]).1.Ok? && Declarable(Declare(ixs, specs[0]).0, specs[1..])
  {
    if i :| At(ixs, i, specs[0].name) {
      DeclareKnown(ixs, specs[0], i);
      DeclarableKnown(ixs, specs, i);
    } else {
      DeclareFirstNew(ixs, specs);
    }
  }

  lemma DeclareFirstNew(ixs: Roster, specs: seq<IndexSpec>)
    requires WellFormed(ixs) && specs != [] && ValidSpec(specs[0]) && forall i :: !At(ixs, i, specs[0].name)
    ensures Declarable(ixs, specs) <==>
              Declare(ixs, specs[0]).1.Ok? && Declarable(Declare(ixs, specs[0]).0, specs[1..])
  {
    FindMisses(ixs, specs[0].name);
    if MaxId(ixs) + 1 >= TWO32 {
      NoIdLeft(ixs, specs);
    } else {
      DeclarableNew(ixs, specs, IndexDescriptor(MaxId(ixs) + 1, specs[0], map[], Active));
    }
  }

  lemma FindMisses(ixs: Roster, name: string)
    requires forall i :: !At(ixs, i, name)
    ensures Find(ixs, name).None?
  {
    var found := Find(ixs, name);
    assert found.Some? ==> At(ixs, found.value, name);
  }

  /** A reconciliation succeeds exactly when every spec is valid, none contradicts the
      roster or another, and there are ids for the new names. */
  lemma ReconcileExactly(ixs: Roster, specs: seq<IndexSpec>)
    requires WellFormed(ixs)
    ensures Reconcile(ixs, specs).1.Ok? <==> AllValid(specs) && Declarable(ixs, specs)
    ensures !AllValid(specs) ==> Reconcile(ixs, specs) == (ixs, Err(InvalidArgument))
  {
    if AllValid(specs) { DeclareEachExactly(ixs, specs); }
  }
}
