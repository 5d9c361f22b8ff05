/** The logical half of the integrity check: index entries against primary ids in
    both directions, and why the engine's own states pass it. */
module CrossCheck {
  import opened ByteOrder
  import opened Outcomes
  import opened OrderedMap
  import opened IndexKey
  import opened IndexExtract
  import opened IndexMaint
  import opened Collection
  import opened Agreement
  import opened PageWalk
  import Query
  import Runs
  import Steps

  /** Why a scan ends before the end of its tree. */
  datatype ScanStop = CorruptAt(page: nat) | Failed(error: Error)

  /** A stored tree as a full scan finds it. A root of 0 stands for no tree. */
  datatype StoredTree<V> = StoredTree(root: nat, entries: seq<Entry<V>>, stop: Option<ScanStop>)

  predicate ScanFails<V>(t: StoredTree<V>) {
    t.root != 0 && t.stop.Some? && t.stop.value.Failed?
  }

  datatype IndexRow = IndexRow(name: string, kind: IndexKind, status: IndexStatus, tree: StoredTree<Bytes>)

  datatype CollectionRow = CollectionRow(name: string, primary: StoredTree<Doc>, indexes: seq<IndexRow>)

  // ---- Primary ids ----

  function IdsIn(es: seq<Entry<Doc>>): (ids: set<Bytes>) {
    set e | e in es && IsId(e.key) :: e.key
  }

  function PrimaryIds(t: StoredTree<Doc>): (ids: set<Bytes>) {
    if t.root == 0 then {} else IdsIn(t.entries)
  }

  /** A corrupt page ends the collection of ids without a word. */
  method CollectPrimaryIds(t: StoredTree<Doc>) returns (r: Result<nat>, ids: set<Bytes>)
    ensures ids == PrimaryIds(t)
    ensures r.Err? <==> t.root != 0 && t.stop.Some? && t.stop.value.Failed?
    ensures r.Err? ==> r.error == t.stop.value.error
  {
    ids := {};
    if t.root == 0 {
      return Ok(0), ids;
    }
    for i := 0 to |t.entries|
      invariant ids == IdsIn(t.entries[..i])
    {
      assert t.entries[..i + 1] == t.entries[..i] + [t.entries[i]];
      if IsId(t.entries[i].key) {
        ids := ids + {t.entries[i].key};
      }
    }
    assert t.entries[..|t.entries|] == t.entries;
    if t.stop.Some? && t.stop.value.Failed? {
      return Err(t.stop.value.error), ids;
    }
    return Ok(|t.entries|), ids;
  }

  // ---- Index entries ----

  predicate PointsHome(kind: IndexKind, e: Entry<Bytes>, ids: set<Bytes>) {
    Query.EntryId(kind, e).Ok? && Query.EntryId(kind, e).value in ids
  }

  function OrphanOf(collection: string, ix: IndexRow, e: Entry<Bytes>): Failure {
    var id := Query.EntryId(ix.kind, e);
    OrphanIndexEntry(collection, ix.name, if id.Ok? then id.value else NO_ID)
  }

  /** One report for each entry that names no primary id. */
  function Orphans(collection: string, ix: IndexRow, es: seq<Entry<Bytes>>, ids: set<Bytes>): (fs: seq<Failure>)
    ensures fs == [] <==> forall e | e in es :: PointsHome(ix.kind, e, ids)
  {
    if es == [] then [] else
    var n := |es| - 1;
    assert forall e :: e in es <==> e in es[..n] || e == es[n];
    Orphans(collection, ix, es[..n], ids) + if PointsHome(ix.kind, es[n], ids) then []
        else [OrphanOf(collection, ix, es[n])]
  }

  /** The id an entry carries: its value in a Unique index, elsewhere the end of its key. */
  predicate Names(kind: IndexKind, e: Entry<Bytes>, id: Bytes) {
    IsId(id) && if kind.Unique? then e.val == id else |e.key| >= 8 && e.key[|e.key| - 8..] == id
  }

  /** An entry that names no primary id is reported under the id it names, or under the
      zero id if it names none. */
  ghost predicate Misses(kind: IndexKind, e: Entry<Bytes>, ids: set<Bytes>, id: Bytes) {
    (Names(kind, e, id) && id !in ids) || (id == NO_ID && forall x :: !Names(kind, e, x))
  }

  /** What a scan of the index reports: entries that miss, and the corrupt page that
      ends it. */
  ghost predicate EntryFault(collection: string, ix: IndexRow, ids: set<Bytes>, f: Failure) {
    ix.tree.root != 0 &&
    match f
    case OrphanIndexEntry(c, name, id) =>
      c == collection && name == ix.name && exists e | e in ix.tree.entries :: Misses(ix.kind, e, ids, id)
    case ChecksumMismatch(page) => ix.tree.stop == Some(CorruptAt(page))
    case _ => false
  }

  lemma EntryIdIsNamed(kind: IndexKind, e: Entry<Bytes>, id: Bytes)
    ensures Names(kind, e, id) <==> Query.EntryId(kind, e) == Ok(id)
  {}

  lemma MissesIsOrphan(collection: string, ix: IndexRow, e: Entry<Bytes>, ids: set<Bytes>, id: Bytes)
    ensures Misses(ix.kind, e, ids, id) <==>
              !PointsHome(ix.kind, e, ids) && OrphanOf(collection, ix, e) == OrphanIndexEntry(collection, ix.name, id)
  {
    var read := Query.EntryId(ix.kind, e);
    if read.Ok? {
      assert Names(ix.kind, e, read.value);
    } else {
      assert forall x :: !Names(ix.kind, e, x);
    }
  }

  lemma {:induction false} OrphansAre(collection: string, ix: IndexRow, es: seq<Entry<Bytes>>, ids: set<Bytes>,
          f: Failure)
    ensures f in Orphans(collection, ix, es, ids) <==>
              exists e | e in es :: !PointsHome(ix.kind, e, ids) && f == OrphanOf(collection, ix, e)
  {
    if es != [] {
      var n := |es| - 1;
      assert forall e :: e in es <==> e in es[..n] || e == es[n];
      OrphansAre(collection, ix, es[..n], ids, f);
    }
  }

  lemma OrphansAreFaults(collection: string, ix: IndexRow, ids: set<Bytes>, f: Failure)
    requires ix.tree.root != 0 && f.OrphanIndexEntry?
    ensures f in Orphans(collection, ix, ix.tree.entries, ids) <==> EntryFault(collection, ix, ids, f)
  {
    OrphansAre(collection, ix, ix.tree.entries, ids, f);
    forall e | e in ix.tree.entries
      ensures !PointsHome(ix.kind, e, ids) && f == OrphanOf(collection, ix, e) <==>
              f.collection == collection && f.index == ix.name && Misses(ix.kind, e, ids, f.id)
    {
      MissesIsOrphan(collection, ix, e, ids, f.id);
    }
  }

  function Referenced(kind: IndexKind, es: seq<Entry<Bytes>>, ids: set<Bytes>): set<Bytes> {
    set e | e in es && PointsHome(kind, e, ids) :: Query.EntryId(kind, e).value
  }

  function ReferencedBy(ix: IndexRow, ids: set<Bytes>): set<Bytes> {
    if ix.tree.root == 0 then {} else Referenced(ix.kind, ix.tree.entries, ids)
  }

  predicate EntriesPointHome(ix: IndexRow, ids: set<Bytes>) {
    ix.tree.root != 0 ==> ix.tree.stop.None? && forall e | e in ix.tree.entries :: PointsHome(ix.kind, e, ids)
  }

  lemma CrossReferenceStep(collection: string, ix: IndexRow, es: seq<Entry<Bytes>>, i: nat, ids: set<Bytes>)
    requires i < |es|
    ensures PointsHome(ix.kind, es[i], ids) ==>
              && Orphans(collection, ix, es[..i + 1], ids) == Orphans(collection, ix, es[..i], ids)
              && Referenced(ix.kind, es[..i + 1], ids) == Referenced(ix.kind, es[..i],
                  ids) + {Query.EntryId(ix.kind, es[i]).value}
    ensures !PointsHome(ix.kind, es[i], ids) ==>
              && Orphans(collection, ix, es[..i + 1], ids) == Orphans(collection, ix, es[..i],
                  ids) + [OrphanOf(collection, ix, es[i])]
              && Referenced(ix.kind, es[..i + 1], ids) == Referenced(ix.kind, es[..i], ids)
  {
    assert es[..i + 1] == es[..i] + [es[i]] && es[..i + 1][..i] == es[..i];
  }

  method CrossReferenceIndex(collection: string, ix: IndexRow, ids: set<Bytes>)
    returns (r: Result<nat>, referenced: set<Bytes>, found: seq<Failure>)
    ensures referenced == ReferencedBy(ix, ids)
    ensures ix.tree.root != 0 ==> Orphans(collection, ix, ix.tree.entries, ids) <= found
    ensures r.Ok? && found == [] <==> EntriesPointHome(ix, ids)
    ensures r.Ok? ==> forall f :: f in found <==> EntryFault(collection, ix, ids, f)
    ensures r.Err? <==> ScanFails(ix.tree)
    ensures r.Err? ==> ix.tree.stop == Some(Failed(r.error))
  {
    referenced, found := {}, [];
    if ix.tree.root == 0 {
      return Ok(0), referenced, found;
    }
    var es := ix.tree.entries;
    for i := 0 to |es|
      invariant referenced == Referenced(ix.kind, es[..i], ids)
      invariant found == Orphans(collection, ix, es[..i], ids)
    {
      CrossReferenceStep(collection, ix, es, i, ids);
      if !PointsHome(ix.kind, es[i], ids) {
        found := found + [OrphanOf(collection, ix, es[i])];
      } else {
        referenced := referenced + {Query.EntryId(ix.kind, es[i]).value};
      }
    }
    assert es[..|es|] == es;
    forall f: Failure | f.OrphanIndexEntry? ensures f in found <==> EntryFault(collection, ix, ids, f) {
      OrphansAreFaults(collection, ix, ids, f);
    }
    forall f | f in found ensures f.OrphanIndexEntry? { OrphansAre(collection, ix, es, ids, f); }
    match ix.tree.stop {
      case None => r := Ok(|es|);
      case Some(CorruptAt(page)) => r, found := Ok(|es|), found + [ChecksumMismatch(page)];
      case Some(Failed(e)) => r := Err(e);
    }
  }

  // ---- Primary ids against index entries ----

  predicate Unreferenced(ix: IndexRow, ids: set<Bytes>, id: Bytes) {
    !ix.kind.Each? && id in ids && id !in ReferencedBy(ix, ids)
  }

  method CheckPrimaryToIndex(collection: string, ix: IndexRow, ids: set<Bytes>, referenced: set<Bytes>)
    returns (found: seq<Failure>)
    requires referenced == ReferencedBy(ix, ids)
    ensures forall f :: f in found <==>
                          exists id :: f == MissingIndexEntry(collection, ix.name, id) && Unreferenced(ix, ids, id)
  {
    found := [];
    if ix.kind.Each? {
      return;
    }
    var rest := ids - referenced;
    while rest != {}
      invariant rest <= ids - referenced
      invariant forall f :: f in found <==>
                  exists id :: f == MissingIndexEntry(collection, ix.name, id) && id in ids - referenced && id !in rest
    {
      var id :| id in rest;
      rest := rest - {id};
      found := found + [MissingIndexEntry(collection, ix.name, id)];
    }
  }

  predicate AllReferenced(ix: IndexRow, ids: set<Bytes>) {
    forall id | id in ids :: !Unreferenced(ix, ids, id)
  }

  // ---- The engine's states pass ----

  /** The trees of the row hold exactly the state, and can be read to the end. */
  ghost predicate Stores(row: CollectionRow, s: State) {
    && row.primary.root != 0 && row.primary.stop.None?
    && row.primary.entries == Range(s.primary, Unbounded, Unbounded)
    && |row.indexes| == |s.indexes|
    && forall i | 0 <= i < |s.indexes| :: StoresIndex(row.indexes[i], s.indexes[i])
  }

  ghost predicate StoresIndex(row: IndexRow, ix: IndexDescriptor) {
    && row.name == ix.spec.name && row.kind == ix.spec.kind && row.status == ix.status
    && row.tree.root != 0 && row.tree.stop.None?
    && row.tree.entries == Range(ix.tree, Unbounded, Unbounded)
  }

  lemma IdsOfPrimary(primary: map<Bytes, Doc>)
    requires Keyed(primary)
    ensures IdsIn(Range(primary, Unbounded, Unbounded)) == primary.Keys
  {
    var es := Range(primary, Unbounded, Unbounded);
    forall id | id in primary ensures id in IdsIn(es) {
      assert Entry(id, primary[id]) in es;
    }
    forall id | id in IdsIn(es) ensures id in primary {
      var e :| e in es && e.key == id;
    }
  }

  /** Recovering the id from an entry undoes filing it, so in a sound index every
      entry names a document. */
  lemma SoundEntriesPointHome(row: IndexRow, ix: IndexDescriptor, primary: map<Bytes, Doc>)
    requires Keyed(primary) && StoresIndex(row, ix) && Sound(ix, primary)
    ensures forall e | e in row.tree.entries ::
              Query.EntryId(row.kind, e) == Ok(e.val) && PointsHome(row.kind, e, primary.Keys)
  {
    forall e | e in row.tree.entries ensures Query.EntryId(row.kind, e) == Ok(e.val) &&
        PointsHome(row.kind, e, primary.Keys) {
      assert e.key in ix.tree && e == Entry(e.key, e.val);
      Query.SoundEntryId(ix, primary, e.key, e.val);
    }
  }

  lemma StoredEntry(row: IndexRow, ix: IndexDescriptor, k: Bytes, id: Bytes)
    requires StoresIndex(row, ix)
    ensures Entry(k, id) in row.tree.entries <==> Has(ix.tree, k, id)
  {}

  /** A sound index references exactly the documents it has an entry for. */
  lemma SoundIndexReferences(row: IndexRow, ix: IndexDescriptor, primary: map<Bytes, Doc>, id: Bytes)
    requires Keyed(primary) && StoresIndex(row, ix) && Sound(ix, primary)
    ensures id in ReferencedBy(row, primary.Keys) <==> exists k :: Has(ix.tree, k, id)
  {
    SoundEntriesPointHome(row, ix, primary);
    if k :| Has(ix.tree, k, id) {
      StoredEntry(row, ix, k, id);
    }
    if id in ReferencedBy(row, primary.Keys) {
      var e :| e in row.tree.entries && PointsHome(row.kind, e, primary.Keys) && Query.EntryId(row.kind, e).value == id;
      assert e == Entry(e.key, e.val);
      StoredEntry(row, ix, e.key, e.val);
    }
  }

  /** In an exact index every document that has a key is referenced; outside Each
      that is every document. */
  lemma ExactIndexHasNoGap(row: IndexRow, ix: IndexDescriptor, primary: map<Bytes, Doc>)
    requires Keyed(primary) && StoresIndex(row, ix) && Exact(ix, primary)
    ensures AllReferenced(row, primary.Keys)
  {
    forall id | id in primary && !ix.spec.kind.Each? ensures id in ReferencedBy(row, primary.Keys) {
      var u := ExtractKeys(ix.spec, primary[id]).value[0];
      OneKeyUnlessEach(ix.spec, primary[id]);
      StripOfStorage(ix.spec.kind, u, id);
      assert Demands(ix.spec, primary, StorageKey(ix.spec.kind, u, id), id);
      assert Has(ix.tree, StorageKey(ix.spec.kind, u, id), id);
      SoundIndexReferences(row, ix, primary, id);
    }
  }

  ghost predicate NoOrphan(row: CollectionRow) {
    forall i | 0 <= i < |row.indexes| && row.indexes[i].status.Active? ::
      EntriesPointHome(row.indexes[i], PrimaryIds(row.primary))
  }

  ghost predicate NoGap(row: CollectionRow) {
    forall i | 0 <= i < |row.indexes| && row.indexes[i].status.Active? ::
      AllReferenced(row.indexes[i], PrimaryIds(row.primary))
  }

  /** After any run whose committed operations were harmless the stored collection
      passes the cross-check: no orphan entry from any consistent start, and no
      missing entry either if every Active index was exact and spared and none added. */
  lemma RunsPassCrossCheck(b: Runs.Base, txns: seq<Runs.Txn>, row: CollectionRow)
    requires Steps.Good(b.row) && Runs.HarmlessThroughout(b, txns) && Stores(row, Runs.Run(b, txns).row)
    ensures NoOrphan(row)
    ensures Runs.NothingLost(b, txns) ==> NoGap(row)
  {
    var t := Runs.Run(b, txns).row;
    Runs.RunGoodExactly(b, txns);
    if Runs.NothingLost(b, txns) { Runs.NoNewIndexStaysExact(b, txns); }
    IdsOfPrimary(t.primary);
    forall i | 0 <= i < |row.indexes| && row.indexes[i].status.Active?
      ensures EntriesPointHome(row.indexes[i], PrimaryIds(row.primary))
      ensures Steps.AllExact(t) ==> AllReferenced(row.indexes[i], PrimaryIds(row.primary))
    {
      assert StoresIndex(row.indexes[i], t.indexes[i]);
      SoundEntriesPointHome(row.indexes[i], t.indexes[i], t.primary);
      if Steps.AllExact(t) {
        assert Steps.ExactAt(t, i);
        ExactIndexHasNoGap(row.indexes[i], t.indexes[i], t.primary);
      }
    }
  }
}
