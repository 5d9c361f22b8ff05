/** The operations of a transaction on one collection's descriptor, and what each
    does to the agreement of documents and indexes, failing ones included. */
module Steps {
  import opened ByteOrder
  import opened Outcomes
  import opened OrderedMap
  import opened IndexKey
  import opened IndexExtract
  import opened IndexMaint
  import opened Collection
  import opened Agreement
  import IndexCatalog

  type Id = b: Bytes | IsId(b) witness [0, 0, 0, 0, 0, 0, 0, 1]

  type SchemaOutcome = r: Result<()> | r.Err? ==> r.error.FromSchema() witness Ok(())

  /** The schema row that PutSchemaOp stores is no part of the descriptor; its outcome
      is whatever the catalog made of it. */
  datatype Op =
    | InsertOp(doc: Doc)
    | UpdateOp(id: Id, f: Doc -> Doc)
    | UpsertOp(id: Id, doc: Doc)
    | DeleteOp(id: Id)
    | PutSchemaOp(outcome: SchemaOutcome)
    | DeclareOp(spec: IndexSpec)
    | DropOp(name: string)
    | ReconcileOp(version: nat, specs: seq<IndexSpec>)

  /** The operations that go through the cached descriptor, loading it if need be:
      document writes and the storing of a schema. The others go to the catalog row. */
  predicate OnCache(op: Op) {
    op.InsertOp? || op.UpdateOp? || op.UpsertOp? || op.DeleteOp? || op.PutSchemaOp?
  }

  function Discard<T>(r: Result<T>): (u: Result<()>)
    ensures u.Ok? <==> r.Ok?
    ensures u.Err? ==> u.error == r.error
  {
    if r.Ok? then Ok(()) else Err(r.error)
  }

  /** The operation on a descriptor: new state and outcome. An error leaves what was
      staged before it. */
  function Step(s: State, op: Op): (r: (State, Result<()>)) {
    match op
    case InsertOp(doc) => var w := Insert(s, doc); (w.0, Discard(w.1))
    case UpdateOp(id, f) => Update(s, id, f)
    case UpsertOp(id, doc) => Upsert(s, id, doc)
    case DeleteOp(id) => var w := Delete(s, id); (w.0, Discard(w.1))
    case PutSchemaOp(outcome) => (s, outcome)
    case DeclareOp(spec) => var d := IndexCatalog.Declare(s.indexes, spec); (s.(indexes := d.0), Discard(d.1))
    case DropOp(name) => var d := IndexCatalog.Drop(s.indexes, name); (s.(indexes := d.0), d.1)
    case ReconcileOp(_, specs) => var d := IndexCatalog.Reconcile(s.indexes, specs); (s.(indexes := d.0), d.1)
  }

  // ---- Agreement, index by index ----

  ghost predicate Good(s: State) {
    && Keyed(s.primary)
    && IndexCatalog.WellFormed(s.indexes)
    && forall i | 0 <= i < |s.indexes| && s.indexes[i].status.Active? :: Sound(s.indexes[i], s.primary)
  }

  ghost predicate ExactAt(s: State, i: nat) {
    i < |s.indexes| && s.indexes[i].status.Active? && Exact(s.indexes[i], s.primary)
  }

  ghost predicate AllExact(s: State) {
    forall i | 0 <= i < |s.indexes| && s.indexes[i].status.Active? :: ExactAt(s, i)
  }

  /** Index i, if still Active, is exact. */
  ghost predicate IntactAt(s: State, i: nat) {
    i < |s.indexes| && (s.indexes[i].status.Active? ==> Exact(s.indexes[i], s.primary))
  }

  lemma BeIsId(n: nat)
    requires 0 < n < TWO64
    ensures IsId(Be64(n))
  {
    Be64Order(n, 0);
    assert ToBe(0, 1) == [0] && ToBe(0, 2) == [0, 0] && ToBe(0, 3) == [0, 0, 0];
    assert ToBe(0, 4) == [0, 0, 0, 0] && ToBe(0, 5) == [0, 0, 0, 0, 0];
    assert ToBe(0, 6) == [0, 0, 0, 0, 0, 0] && ToBe(0, 7) == [0, 0, 0, 0, 0, 0, 0];
    WordBounds();
    assert Be64(0) == NO_ID;
  }

  function OptKeys(spec: IndexSpec, doc: Option<Doc>): set<Bytes> {
    if doc.None? then {} else UserKeys(spec, doc.value)
  }

  /** Every entry of the index for document id is one the new version calls for. */
  predicate StillCalledFor(ix: IndexDescriptor, id: Bytes, next: Option<Doc>) {
    forall k | k in ix.tree && ix.tree[k] == id :: StripIdSuffix(ix.spec.kind, k) in OptKeys(ix.spec, next)
  }

  /** Old and new version have the same keys, and both can be indexed. */
  predicate SameKeys(spec: IndexSpec, prior: Option<Doc>, next: Option<Doc>) {
    KeysOfOpt(spec, next).Ok? && OptKeys(spec, prior) == OptKeys(spec, next)
  }

  /** The document moved under an index that did not. */
  lemma LeftBehind(ix: IndexDescriptor, primary: map<Bytes, Doc>, id: Bytes, next: Option<Doc>)
    requires Keyed(primary) && IsId(id) && Sound(ix, primary)
    ensures Sound(ix, Put(primary, id, next)) <==> StillCalledFor(ix, id, next)
  {
    var primary' := Put(primary, id, next);
    if StillCalledFor(ix, id, next) {
      forall k | k in ix.tree ensures Demands(ix.spec, primary', k, ix.tree[k]) {
        assert Demands(ix.spec, primary, k, ix.tree[k]);
        if ix.tree[k] != id { OthersUnmoved(ix.spec, primary, id, next, k, ix.tree[k]); }
      }
    }
    if Sound(ix, primary') {
      forall k | k in ix.tree && ix.tree[k] == id ensures StripIdSuffix(ix.spec.kind, k) in OptKeys(ix.spec, next) {
        assert Demands(ix.spec, primary', k, id);
      }
    }
  }

  /** The keys under which an exact index files a document. */
  lemma FiledKeys(ix: IndexDescriptor, primary: map<Bytes, Doc>, id: Bytes, u: Bytes)
    requires Keyed(primary) && IsId(id) && Exact(ix, primary)
    ensures u in OptKeys(ix.spec, Lookup(primary, id)) <==> Has(ix.tree, StorageKey(ix.spec.kind, u, id), id)
  {
    StripOfStorage(ix.spec.kind, u, id);
    var k := StorageKey(ix.spec.kind, u, id);
    if u in OptKeys(ix.spec, Lookup(primary, id)) {
      assert Demands(ix.spec, primary, k, id);
    }
    if Has(ix.tree, k, id) {
      assert Demands(ix.spec, primary, k, ix.tree[k]);
    }
  }

  /** In an exact index the condition can be read off the two versions. */
  lemma CalledForByKeys(ix: IndexDescriptor, primary: map<Bytes, Doc>, id: Bytes, next: Option<Doc>)
    requires Keyed(primary) && IsId(id) && Exact(ix, primary)
    ensures StillCalledFor(ix, id, next) <==> OptKeys(ix.spec, Lookup(primary, id)) <= OptKeys(ix.spec, next)
  {
    var prior, after := OptKeys(ix.spec, Lookup(primary, id)), OptKeys(ix.spec, next);
    if StillCalledFor(ix, id, next) {
      forall u | u in prior ensures u in after {
        FiledKeys(ix, primary, id, u);
        StripOfStorage(ix.spec.kind, u, id);
        assert StorageKey(ix.spec.kind, u, id) in ix.tree;
      }
    }
    if prior <= after {
      forall k | k in ix.tree && ix.tree[k] == id ensures StripIdSuffix(ix.spec.kind, k) in after {
        assert Demands(ix.spec, primary, k, ix.tree[k]);
      }
    }
  }

  lemma LeftBehindExact(ix: IndexDescriptor, primary: map<Bytes, Doc>, id: Bytes, next: Option<Doc>)
    requires Keyed(primary) && IsId(id) && Exact(ix, primary)
    ensures Exact(ix, Put(primary, id, next)) <==> SameKeys(ix.spec, Lookup(primary, id), next)
  {
    var primary' := Put(primary, id, next);
    assert Lookup(primary', id) == next;
    LeftBehind(ix, primary, id, next);
    CalledForByKeys(ix, primary, id, next);
    if Exact(ix, primary') {
      assert Keyed(primary');
      forall u ensures u in OptKeys(ix.spec, Lookup(primary, id)) <==> u in OptKeys(ix.spec, next) {
        FiledKeys(ix, primary, id, u);
        FiledKeys(ix, primary', id, u);
      }
    }
    if SameKeys(ix.spec, Lookup(primary, id), next) {
      forall k, v | Demands(ix.spec, primary', k, v) ensures Has(ix.tree, k, v) {
        if v != id { OthersUnmoved(ix.spec, primary, id, next, k, v); }
        assert Demands(ix.spec, primary, k, v);
      }
      forall other | other in primary' ensures ExtractKeys(ix.spec, primary'[other]).Ok? {
        assert other != id ==> other in primary && primary'[other] == primary[other];
      }
    }
  }

  // ---- One operation ----

  /** The document an operation stages, under which id, before it turns to the
      indexes. */
  function Target(s: State, op: Op): (t: Option<(Bytes, Option<Doc>)>)
    ensures t.Some? ==> IsId(t.value.0)
  {
    match op
    case InsertOp(doc) =>
      if s.nextId == 0 || Be64(s.nextId) in s.primary then None
      else
        BeIsId(s.nextId);
        Some((Be64(s.nextId), Some(doc)))
    case UpdateOp(id, f) => if id in s.primary then Some((id, Some(f(s.primary[id])))) else None
    case UpsertOp(id, doc) => Some((id, Some(doc)))
    case DeleteOp(id) => Some((id, None))
    case _ => None
  }

  /** How many of the indexes, in order, the operation gets to maintain. */
  function Maintained(s: State, op: Op): (n: nat)
    ensures n <= |s.indexes|
  {
    var t := Target(s, op);
    if t.None? then |s.indexes|
    else FirstFailure(s.indexes, 0, Lookup(s.primary, t.value.0), t.value.1, t.value.0)
  }

  /** An Active index the operation does not get to. */
  predicate PassedOver(s: State, op: Op, i: nat) {
    Maintained(s, op) <= i < |s.indexes| && s.indexes[i].status.Active?
  }

  /** The operation leaves no entry without its document: whatever index it does not
      get to files the document only under keys it still has. */
  predicate Harmless(s: State, op: Op) {
    var t := Target(s, op);
    t.Some? ==>
      forall i: nat | i < |s.indexes| && PassedOver(s, op, i) :: StillCalledFor(s.indexes[i], t.value.0, t.value.1)
  }

  /** The operation gets to index i, or leaves the document's keys in it alone. */
  predicate SparesIndex(s: State, op: Op, i: nat) {
    var t := Target(s, op);
    t.Some? && PassedOver(s, op, i) ==>
      SameKeys(s.indexes[i].spec, Lookup(s.primary, t.value.0), t.value.1)
  }

  /** The effect of a write on one Active index. */
  lemma WriteAt(s: State, id: Bytes, next: Option<Doc>, i: nat)
    requires IsId(id) && Keyed(s.primary) && i < |s.indexes| && s.indexes[i].status.Active?
    ensures var t, n := Write(s, id, next).0, FirstFailure(s.indexes, 0, Lookup(s.primary, id), next, id);
            && (n <= i ==> t.indexes[i] == s.indexes[i])
            && (i < n && Sound(s.indexes[i], s.primary) ==> Sound(t.indexes[i], t.primary))
            && (i < n && Exact(s.indexes[i], s.primary) ==> Exact(t.indexes[i], t.primary))
  {
    var t, n := Write(s, id, next).0, FirstFailure(s.indexes, 0, Lookup(s.primary, id), next, id);
    if i < n && Sound(s.indexes[i], s.primary) {
      assert After(s.indexes[i], Lookup(s.primary, id), next, id) == Ok(t.indexes[i]);
      OneWriteKeepsAgreement(s.indexes[i], s.primary, id, next, t.indexes[i]);
    }
  }

  lemma WriteSoundAt(s: State, id: Bytes, next: Option<Doc>, i: nat)
    requires IsId(id) && Keyed(s.primary) && i < |s.indexes| && s.indexes[i].status.Active?
    requires Sound(s.indexes[i], s.primary)
    ensures var t, n := Write(s, id, next).0, FirstFailure(s.indexes, 0, Lookup(s.primary, id), next, id);
            Sound(t.indexes[i], t.primary) <==> (n <= i ==> StillCalledFor(s.indexes[i], id, next))
  {
    WriteAt(s, id, next, i);
    LeftBehind(s.indexes[i], s.primary, id, next);
  }

  lemma WriteExactAt(s: State, id: Bytes, next: Option<Doc>, i: nat)
    requires IsId(id) && Keyed(s.primary) && i < |s.indexes| && s.indexes[i].status.Active?
    requires Exact(s.indexes[i], s.primary)
    ensures var t, n := Write(s, id, next).0, FirstFailure(s.indexes, 0, Lookup(s.primary, id), next, id);
            Exact(t.indexes[i], t.primary) <==> (n <= i ==> SameKeys(s.indexes[i].spec, Lookup(s.primary, id), next))
  {
    WriteAt(s, id, next, i);
    LeftBehindExact(s.indexes[i], s.primary, id, next);
  }

  /** An operation with a target is a write there, whatever it does to the watermark. */
  lemma TargetIsWritten(s: State, op: Op)
    ensures var w, t := Target(s, op), Step(s, op).0;
            && (w.Some? ==> var u := Write(s, w.value.0, w.value.1).0; t.primary == u.primary && t.indexes == u.indexes)
            && (w.None? ==> t.primary == s.primary && (OnCache(op) ==> t.indexes == s.indexes))
  {}

  // ---- Declarations, drops and reconciliations ----

  /** What the roster operations do to agreement: nothing on the indexes there are,
      and new ones are empty. */
  ghost predicate RosterOnly(s: State, t: State) {
    && t == s.(indexes := t.indexes)
    && |s.indexes| <= |t.indexes|
    && (forall i | 0 <= i < |s.indexes| && t.indexes[i].status.Active? :: t.indexes[i] == s.indexes[i])
    && forall i | |s.indexes| <= i < |t.indexes| && t.indexes[i].status.Active? :: t.indexes[i].tree == map[]
  }

  lemma {:induction false} DeclareEachOnly(s: State, specs: seq<IndexSpec>)
    ensures RosterOnly(s, s.(indexes := IndexCatalog.DeclareEach(s.indexes, specs).0))
    decreases |specs|
  {
    if specs != [] {
      var d := IndexCatalog.Declare(s.indexes, specs[0]);
      assert RosterOnly(s, s.(indexes := d.0));
      if d.1.Ok? { DeclareEachOnly(s.(indexes := d.0), specs[1..]); }
    }
  }

  lemma DeclareOnly(s: State, spec: IndexSpec)
    ensures RosterOnly(s, s.(indexes := IndexCatalog.Declare(s.indexes, spec).0))
  {}

  lemma DropOnly(s: State, name: string)
    ensures RosterOnly(s, s.(indexes := IndexCatalog.Drop(s.indexes, name).0))
  {}

  lemma ReconcileOnly(s: State, specs: seq<IndexSpec>)
    ensures RosterOnly(s, s.(indexes := IndexCatalog.Reconcile(s.indexes, specs).0))
  {
    DeclareEachOnly(s, specs);
  }

  lemma RosterStep(s: State, op: Op)
    requires !OnCache(op)
    ensures RosterOnly(s, Step(s, op).0)
  {
    match op {
      case DeclareOp(spec) => DeclareOnly(s, spec);
      case DropOp(name) => DropOnly(s, name);
      case ReconcileOp(_, specs) => ReconcileOnly(s, specs);
    }
  }

  lemma RosterStepKeeps(s: State, op: Op)
    requires !OnCache(op) && IndexCatalog.WellFormed(s.indexes)
    ensures IndexCatalog.WellFormed(Step(s, op).0.indexes) && IndexCatalog.Later(s.indexes, Step(s, op).0.indexes)
  {
    match op {
      case DeclareOp(spec) => IndexCatalog.DeclareKeepsWellFormed(s.indexes, spec);
      case DropOp(name) => IndexCatalog.DropKeepsWellFormed(s.indexes, name);
      case ReconcileOp(_, specs) => IndexCatalog.ReconcileKeepsWellFormed(s.indexes, specs);
    }
  }

  // ---- What every operation does to agreement, exactly ----

  /** A write moves index trees, never the roster. */
  lemma WriteKeepsRoster(s: State, id: Bytes, next: Option<Doc>)
    ensures var t := Write(s, id, next).0;
            && |t.indexes| == |s.indexes|
            && forall i | 0 <= i < |s.indexes| :: t.indexes[i] == s.indexes[i].(tree := t.indexes[i].tree)
  {}

  lemma SameRoster(ixs: IndexCatalog.Roster, later: IndexCatalog.Roster)
    requires IndexCatalog.WellFormed(ixs) && |later| == |ixs|
    requires forall i | 0 <= i < |ixs| :: later[i] == ixs[i].(tree := later[i].tree)
    ensures IndexCatalog.WellFormed(later) && IndexCatalog.Later(ixs, later)
  {}

  lemma StepKeepsRoster(s: State, op: Op)
    requires IndexCatalog.WellFormed(s.indexes)
    ensures IndexCatalog.WellFormed(Step(s, op).0.indexes) && IndexCatalog.Later(s.indexes, Step(s, op).0.indexes)
  {
    if OnCache(op) {
      var w := Target(s, op);
      TargetIsWritten(s, op);
      if w.Some? {
        WriteKeepsRoster(s, w.value.0, w.value.1);
        SameRoster(s.indexes, Write(s, w.value.0, w.value.1).0.indexes);
      }
    } else {
      RosterStepKeeps(s, op);
    }
  }

  lemma StepKeepsKeyed(s: State, op: Op)
    requires Keyed(s.primary)
    ensures Keyed(Step(s, op).0.primary)
  {
    TargetIsWritten(s, op);
  }

  /** The target's effect on soundness, index by index. */
  lemma TargetSoundAt(s: State, op: Op, i: nat)
    requires Good(s) && i < |s.indexes| && s.indexes[i].status.Active? && Target(s, op).Some?
    ensures var t, w := Step(s, op).0, Target(s, op).value;
            && i < |t.indexes| && t.indexes[i].status.Active?
            && (Sound(t.indexes[i], t.primary) <==>
                  (Maintained(s, op) <= i ==> StillCalledFor(s.indexes[i], w.0, w.1)))
  {
    var w := Target(s, op).value;
    TargetIsWritten(s, op);
    WriteKeepsRoster(s, w.0, w.1);
    WriteSoundAt(s, w.0, w.1, i);
  }

  /** After an operation, succeeding or failing, no Active index holds an entry
      without its document if and only if the operation was harmless. */
  lemma StepGoodExactly(s: State, op: Op)
    requires Good(s)
    ensures Good(Step(s, op).0) <==> Harmless(s, op)
  {
    var t, w := Step(s, op).0, Target(s, op);
    StepKeepsRoster(s, op);
    StepKeepsKeyed(s, op);
    if w.Some? {
      GoodByTarget(s, op);
    } else if OnCache(op) {
      TargetIsWritten(s, op);
    } else {
      RosterStep(s, op);
    }
  }

  lemma GoodByTarget(s: State, op: Op)
    requires Good(s) && Target(s, op).Some?
    requires Keyed(Step(s, op).0.primary) && IndexCatalog.WellFormed(Step(s, op).0.indexes)
    ensures Good(Step(s, op).0) <==> Harmless(s, op)
  {
    var t, w := Step(s, op).0, Target(s, op).value;
    TargetIsWritten(s, op);
    WriteKeepsRoster(s, w.0, w.1);
    forall i: nat | i < |s.indexes| && s.indexes[i].status.Active?
      ensures Sound(t.indexes[i], t.primary) <==> (PassedOver(s, op, i) ==> StillCalledFor(s.indexes[i], w.0, w.1))
    {
      TargetSoundAt(s, op, i);
    }
    assert Harmless(s, op) <==>
        forall i: nat | i < |s.indexes| && PassedOver(s, op, i) :: StillCalledFor(s.indexes[i], w.0, w.1);
  }

  /** An exact index stays exact if and only if the operation gets to it or leaves
      its keys alone. */
  lemma StepExactExactly(s: State, op: Op, i: nat)
    requires Keyed(s.primary) && IndexCatalog.WellFormed(s.indexes) && IntactAt(s, i)
    ensures IntactAt(Step(s, op).0, i) <==> SparesIndex(s, op, i)
  {
    var t, w := Step(s, op).0, Target(s, op);
    if OnCache(op) {
      TargetIsWritten(s, op);
      if w.Some? {
        WriteKeepsRoster(s, w.value.0, w.value.1);
        if s.indexes[i].status.Active? { WriteExactAt(s, w.value.0, w.value.1, i); }
      }
    } else {
      RosterStep(s, op);
    }
  }

  /** What succeeds harms nothing, and neither does a failing insert: what it leaves
      behind is a document without entries. */
  lemma SuccessesAndInsertsAreHarmless(s: State, op: Op, i: nat)
    requires Good(s)
    ensures Step(s, op).1.Ok? ==> Harmless(s, op) && SparesIndex(s, op, i)
    ensures op.InsertOp? ==> Harmless(s, op)
  {
    var w := Target(s, op);
    if op.InsertOp? && w.Some? {
      forall i: nat | i < |s.indexes| && PassedOver(s, op, i)
        ensures StillCalledFor(s.indexes[i], w.value.0, w.value.1)
      {
        forall k | k in s.indexes[i].tree ensures s.indexes[i].tree[k] != w.value.0 {
          assert Demands(s.indexes[i].spec, s.primary, k, s.indexes[i].tree[k]);
        }
      }
    }
  }

  /** As long as every Active index is exact, a caller can tell from the two versions
      of the document: none of the old keys may be gone in an index not maintained. */
  lemma HarmlessByKeys(s: State, op: Op)
    requires Good(s) && AllExact(s)
    ensures var w := Target(s, op);
            Harmless(s, op) <==> (w.Some? ==> forall i: nat | i < |s.indexes| && PassedOver(s, op, i) ::
                OptKeys(s.indexes[i].spec, Lookup(s.primary, w.value.0)) <= OptKeys(s.indexes[i].spec, w.value.1))
  {
    var w := Target(s, op);
    if w.Some? {
      forall i: nat | i < |s.indexes| && PassedOver(s, op, i)
        ensures StillCalledFor(s.indexes[i], w.value.0, w.value.1) <==>
            OptKeys(s.indexes[i].spec, Lookup(s.primary, w.value.0)) <= OptKeys(s.indexes[i].spec, w.value.1)
      {
        assert ExactAt(s, i);
        CalledForByKeys(s.indexes[i], s.primary, w.value.0, w.value.1);
      }
    }
  }

  // ---- The documents alone ----

  /** A collection without its indexes: what a caller sees of it by id. */
  datatype Store = Store(next: uint64, docs: map<Bytes, Doc>)

  function StoreOf(s: State): Store {
    Store(s.nextId, s.primary)
  }

  /** What an operation means to the documents, whether it succeeds or not. */
  function StoreStep(d: Store, op: Op): Store {
    match op
    case InsertOp(doc) =>
      if d.next == 0 then d else
      var next: uint64 := if d.next == TWO64 - 1 then 0 else d.next + 1;
      Store(next, if Be64(d.next) in d.docs then d.docs else d.docs[Be64(d.next) := doc])
    case UpdateOp(id, f) => if id in d.docs then d.(docs := d.docs[id := f(d.docs[id])]) else d
    case UpsertOp(id, doc) => d.(docs := d.docs[id := doc])
    case DeleteOp(id) => d.(docs := d.docs - {id})
    case _ => d
  }

  /** What single calls report: a fresh id, a missing document, a removal. */
  lemma CallsReport(s: State, doc: Doc, id: Bytes, f: Doc -> Doc)
    ensures Insert(s, doc).1.Ok? ==> Insert(s, doc).1.value == Be64(s.nextId) && Be64(s.nextId) !in s.primary
    ensures Insert(s, doc).1 == Err(IdSpaceExhausted) <==> s.nextId == 0
    ensures Update(s, id, f).1 == Err(DocumentNotFound) <==> id !in s.primary
    ensures Delete(s, id).1.Ok? ==> (Delete(s, id).1.value <==> id in s.primary)
  {
    WriteErrors(s.(nextId := Bump(s.nextId)), Be64(s.nextId), Some(doc));
    if id in s.primary { WriteErrors(s, id, Some(f(s.primary[id]))); }
  }

  lemma WriteErrors(s: State, id: Bytes, next: Option<Doc>)
    ensures Write(s, id, next).1 != Err(DocumentNotFound) && Write(s, id, next).1 != Err(IdSpaceExhausted)
  {
    var n := FirstFailure(s.indexes, 0, Lookup(s.primary, id), next, id);
    if n < |s.indexes| {
      var ix := s.indexes[n];
      assert ExtractionErrors(ix, Lookup(s.primary, id), next);
    }
  }

  predicate ExtractionErrors(ix: IndexDescriptor, prior: Option<Doc>, next: Option<Doc>) {
    && (KeysOfOpt(ix.spec, prior).Err? ==> KeysOfOpt(ix.spec, prior).error.FromExtraction())
    && (KeysOfOpt(ix.spec, next).Err? ==> KeysOfOpt(ix.spec, next).error.FromExtraction())
  }

  /** Whatever comes of the indexes, the documents move as those of a plain map. */
  lemma StepIsStoreStep(s: State, op: Op)
    ensures StoreOf(Step(s, op).0) == StoreStep(StoreOf(s), op)
  {}

  // ---- From declaration to exactness ----

  /** With nothing stored, every sound index is exact. */
  lemma EmptyIsExact(s: State)
    requires Good(s) && s.primary == map[]
    ensures AllExact(s)
  {
    forall i | 0 <= i < |s.indexes| && s.indexes[i].status.Active? ensures ExactAt(s, i) {
      assert Sound(s.indexes[i], s.primary);
    }
  }

  /** Declaring an index does not backfill it: it starts out exact just when no
      stored document has a key for it, for other than Each indexes just when
      nothing is stored. */
  lemma FreshIndexExactness(s: State, spec: IndexSpec)
    requires Good(s) && IndexCatalog.Find(s.indexes, spec.name).None? && Step(s, DeclareOp(spec)).1.Ok?
    ensures var t := Step(s, DeclareOp(spec)).0;
            && |t.indexes| == |s.indexes| + 1
            && (ExactAt(t, |s.indexes|) <==> forall id | id in s.primary :: ExtractKeys(spec, s.primary[id]) == Ok([]))
            && (!spec.kind.Each? ==> (ExactAt(t, |s.indexes|) <==> s.primary == map[]))
  {
    var t := Step(s, DeclareOp(spec)).0;
    var ix := t.indexes[|s.indexes|];
    assert ix.spec == spec && ix.tree == map[] && ix.status.Active?;
    if ExactAt(t, |s.indexes|) {
      forall id | id in s.primary ensures ExtractKeys(spec, s.primary[id]) == Ok([]) {
        var keys := ExtractKeys(spec, s.primary[id]).value;
        if keys != [] {
          var u := keys[0];
          StripOfStorage(spec.kind, u, id);
          assert u in UserKeys(spec, s.primary[id]);
          assert Demands(spec, s.primary, StorageKey(spec.kind, u, id), id);
          assert false;
        }
      }
    }
    if forall id | id in s.primary :: ExtractKeys(spec, s.primary[id]) == Ok([]) {
      assert Complete(ix, s.primary);
    }
    if !spec.kind.Each? && ExactAt(t, |s.indexes|) {
      forall id ensures id !in s.primary {}
    }
  }

  // ---- Which steps can meet an occupied key ----

  lemma WriteNeverKeyExists(s: State, id: Bytes, next: Option<Doc>)
    requires IsId(id) && Good(s)
    ensures Write(s, id, next).1 != Err(BTreeKeyExists)
  {
    var n := FirstFailure(s.indexes, 0, Lookup(s.primary, id), next, id);
    if n < |s.indexes| {
      NeverKeyExists(s.indexes[n], s.primary, id, next);
    }
  }

  /** Index maintenance never fails on an occupied key; an insert does exactly
      when the watermark points at a stored document. */
  lemma KeyExistsExactly(s: State, op: Op)
    requires Good(s)
    ensures Step(s, op).1 == Err(BTreeKeyExists) <==>
              op.InsertOp? && s.nextId != 0 && Be64(s.nextId) in s.primary
  {
    match op {
      case InsertOp(doc) =>
        if s.nextId != 0 {
          BeIsId(s.nextId);
          WriteNeverKeyExists(s.(nextId := Bump(s.nextId)), Be64(s.nextId), Some(doc));
        }
      case UpdateOp(id, f) => if id in s.primary { WriteNeverKeyExists(s, id, Some(f(s.primary[id]))); }
      case UpsertOp(id, doc) => WriteNeverKeyExists(s, id, Some(doc));
      case DeleteOp(id) => WriteNeverKeyExists(s, id, None);
      case PutSchemaOp(_) =>
      case DeclareOp(spec) =>
      case DropOp(name) =>
      case ReconcileOp(_, specs) => IndexCatalog.ReconcileErrors(s.indexes, specs);
    }
  }

  /** Every stored id lies below the watermark. */
  predicate Below(d: Store) {
    d.next != 0 ==> forall id | id in d.docs :: FromBe(id) < d.next
  }

  predicate BelowWatermark(s: State) {
    Below(StoreOf(s))
  }

  /** Whatever is no upsert keeps ids below the watermark. An upsert does exactly when
      its id already was. */
  lemma WatermarkKept(s: State, op: Op)
    requires Good(s) && BelowWatermark(s)
    ensures !op.UpsertOp? ==> BelowWatermark(Step(s, op).0)
    ensures op.UpsertOp? ==> (BelowWatermark(Step(s, op).0) <==> s.nextId == 0 || FromBe(op.id) < s.nextId)
  {
    match op {
      case InsertOp(doc) =>
        if s.nextId != 0 {
          WordBounds();
          FromBeOfToBe(s.nextId, 8);
          var t := Step(s, op).0;
          forall id | id in t.primary && t.nextId != 0 ensures FromBe(id) < t.nextId {
            if id in s.primary { assert FromBe(id) < s.nextId; }
          }
        }
      case UpsertOp(id, doc) =>
        var t := Step(s, op).0;
        assert id in t.primary;
        forall other | other in t.primary && other != id ensures other in s.primary {}
      case _ =>
        var t := Step(s, op).0;
        forall id | id in t.primary ensures id in s.primary {}
    }
  }

  /** The next insert would find its id taken. */
  predicate Occupied(s: State) {
    s.nextId != 0 && Be64(s.nextId) in s.primary
  }

  /** It does not while stored ids lie below the watermark. */
  lemma FreshIdUnderWatermark(s: State)
    requires BelowWatermark(s)
    ensures !Occupied(s)
  {
    if s.nextId != 0 {
      WordBounds();
      FromBeOfToBe(s.nextId, 8);
    }
  }

  /** upsert does not move the watermark: one at the next id makes the following
      insert fail. */
  lemma UpsertAtWatermarkBlocksInsert(s: State, first: Doc, second: Doc)
    requires s.nextId != 0 && Upsert(s, Be64(s.nextId), first).1.Ok?
    ensures Insert(Upsert(s, Be64(s.nextId), first).0, second).1 == Err(BTreeKeyExists)
  {}

  // ---- Errors and atomicity ----

  /** The document in whose favour an exact Unique index rejects another. */
  lemma HolderOf(ix: IndexDescriptor, primary: map<Bytes, Doc>, id: Bytes, doc: Doc) returns (other: Bytes)
    requires Keyed(primary) && IsId(id) && id !in primary && Exact(ix, primary)
    requires var r := MaintainOne(ix, None, Some(doc), id); r.Err? && r.error.UniqueConstraintViolation?
    ensures ix.spec.kind.Unique? && other != id && other in primary
    ensures UserKeys(ix.spec, primary[other]) == UserKeys(ix.spec, doc) != {}
    ensures !Complete(ix, primary[id := doc])
  {
    var k := ExtractKeys(ix.spec, doc).value[0];
    UniqueRejectsExactlyTaken(ix, primary, id, doc);
    TakenIsFiled(ix, primary, id, k);
    other := ix.tree[k];
    assert Demands(ix.spec, primary, k, other);
    OneKeyUnlessEach(ix.spec, doc);
    OneKeyUnlessEach(ix.spec, primary[other]);
    assert Demands(ix.spec, primary[id := doc], k, id) && !Has(ix.tree, k, id);
  }

  /** A unique violation inside a single call leaves the document staged: an Active
      Unique index lacks its entry, and another document has the same key. A commit
      would keep both. */
  lemma ViolationLeavesStagedDocument(s: State, doc: Doc) returns (i: nat, other: Bytes)
    requires Good(s) && AllExact(s) && s.nextId != 0
    requires Insert(s, doc).1.Err? && Insert(s, doc).1.error.UniqueConstraintViolation?
    ensures var t, id := Insert(s, doc).0, Be64(s.nextId);
            && id in t.primary && id !in s.primary
            && i < |t.indexes| && t.indexes[i].status.Active? && t.indexes[i].spec.kind.Unique?
            && !Complete(t.indexes[i], t.primary)
            && other != id && other in t.primary
            && UserKeys(t.indexes[i].spec, t.primary[other]) == UserKeys(t.indexes[i].spec, t.primary[id]) != {}
  {
    var id := Be64(s.nextId);
    BeIsId(s.nextId);
    i := FirstFailure(s.indexes, 0, None, Some(doc), id);
    assert ExactAt(s, i) && After(s.indexes[i], None, Some(doc), id).Err?;
    WriteAt(s.(nextId := Bump(s.nextId)), id, Some(doc), i);
    other := HolderOf(s.indexes[i], s.primary, id, doc);
  }
}
