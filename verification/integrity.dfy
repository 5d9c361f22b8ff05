/** The full integrity check: catalog tree, every collection's trees, the freelist
    and the pages none of them accounts for. */
module Integrity {
  import opened ByteOrder
  import opened Outcomes
  import opened OrderedMap
  import opened IndexMaint
  import opened PageWalk
  import opened FreelistWalk
  import opened CrossCheck
  import opened PageAccounting
  import opened IntegrityReport
  import Query

  /** Reading past the end of the file fails. */
  ghost predicate Confined(db: Database) {
    forall p: nat | p >= db.pageCount :: db.pages(p).ReadFails?
  }

  // ---- What a clean report means ----

  predicate PointersOk(db: Database, row: CollectionRow) {
    && InFile(db, row.primary.root)
    && forall i | 0 <= i < |row.indexes| && row.indexes[i].status.Active? :: InFile(db, row.indexes[i].tree.root)
  }

  /** One Active index: its pages form a tree, its entries all name documents. */
  ghost predicate CleanIndex(db: Database, row: CollectionRow, ix: IndexRow) {
    CleanTree(db.pages, ix.tree.root) && EntriesPointHome(ix, PrimaryIds(row.primary))
  }

  ghost predicate CleanIndexes(db: Database, row: CollectionRow, n: nat)
    requires n <= |row.indexes|
  {
    forall i | 0 <= i < n && row.indexes[i].status.Active? :: CleanIndex(db, row, row.indexes[i])
  }

  ghost predicate GapFree(row: CollectionRow, n: nat)
    requires n <= |row.indexes|
  {
    forall i | 0 <= i < n && row.indexes[i].status.Active? :: AllReferenced(row.indexes[i], PrimaryIds(row.primary))
  }

  predicate PrimaryReadable(row: CollectionRow) {
    row.primary.root != 0 && row.primary.stop.Some? ==> !row.primary.stop.value.Failed?
  }

  ghost predicate CleanButForGaps(db: Database, row: CollectionRow) {
    && CleanTree(db.pages, row.primary.root)
    && PrimaryReadable(row)
    && CleanIndexes(db, row, |row.indexes|)
  }

  ghost predicate CleanRow(db: Database, row: CollectionRow) {
    PointersOk(db, row) && CleanButForGaps(db, row) && GapFree(row, |row.indexes|)
  }

  /** The page belongs to the primary tree or an Active index of the row. */
  ghost predicate InIndexes(db: Database, row: CollectionRow, n: nat, p: nat)
    requires n <= |row.indexes|
  {
    exists i | 0 <= i < n :: row.indexes[i].status.Active? && Reachable(db.pages, row.indexes[i].tree.root, p)
  }

  ghost predicate InRow(db: Database, row: CollectionRow, p: nat) {
    Reachable(db.pages, row.primary.root, p) || InIndexes(db, row, |row.indexes|, p)
  }

  ghost predicate InRows(db: Database, n: nat, p: nat)
    requires n <= |ListedRows(db)|
  {
    exists i | 0 <= i < n :: InRow(db, ListedRows(db)[i], p)
  }

  ghost predicate InCatalog(db: Database, p: nat) {
    db.rootCatalog != 0 && Reachable(db.pages, db.rootCatalog, p)
  }

  ghost predicate InFreelist(db: Database, p: nat) {
    exists n :: Chain(db.pages, db.pageCount, db.freelistHead, n) &&
        p in ChainPages(db.pages, db.pageCount, db.freelistHead, n)
  }

  ghost predicate CleanCatalog(db: Database) {
    db.rootCatalog != 0 ==> InFile(db, db.rootCatalog) && CleanTree(db.pages, db.rootCatalog)
  }

  ghost predicate CleanRows(db: Database, n: nat)
    requires n <= |ListedRows(db)|
  {
    forall i | 0 <= i < n :: CleanRow(db, ListedRows(db)[i])
  }

  ghost predicate Accounted(db: Database, p: nat) {
    InCatalog(db, p) || InRows(db, |ListedRows(db)|, p) || InFreelist(db, p)
  }

  ghost predicate CleanDatabase(db: Database) {
    && CleanCatalog(db)
    && !(db.rootCatalog != 0 && db.catalog.RowsFail?)
    && CleanRows(db, |ListedRows(db)|)
    && CleanFreelist(db.pages, db.pageCount, db.freelistHead)
    && AllAccounted(db)
  }

  ghost predicate AllAccounted(db: Database) {
    forall p: nat | 0 < p < db.pageCount :: Accounted(db, p)
  }

  predicate AllSeen(reachable: set<nat>, count: nat) {
    forall p: nat | 0 < p < count :: p in reachable
  }

  /** The first n indexes of the row that are Active. */
  function Actives(row: CollectionRow, n: nat): (ixs: seq<IndexRow>)
    requires n <= |row.indexes|
    ensures forall ix :: ix in ixs <==> exists i | 0 <= i < n :: row.indexes[i] == ix && ix.status.Active?
  {
    if n == 0 then [] else
    var ixs := Actives(row, n - 1);
    if row.indexes[n - 1].status.Active? then ixs + [row.indexes[n - 1]] else ixs
  }

  function WithReferences(ixs: seq<IndexRow>, ids: set<Bytes>): (refs: seq<(IndexRow, set<Bytes>)>)
    ensures |refs| == |ixs| && forall i | 0 <= i < |ixs| :: refs[i] == (ixs[i], ReferencedBy(ixs[i], ids))
  {
    seq(|ixs|, i requires 0 <= i < |ixs| => (ixs[i], ReferencedBy(ixs[i], ids)))
  }

  predicate NoneUnreferenced(ixs: seq<IndexRow>, ids: set<Bytes>) {
    forall ix | ix in ixs :: AllReferenced(ix, ids)
  }

  lemma NoneUnreferencedNext(ixs: seq<IndexRow>, i: nat, ids: set<Bytes>)
    requires i < |ixs|
    ensures NoneUnreferenced(ixs[..i + 1], ids) <==> NoneUnreferenced(ixs[..i], ids) && AllReferenced(ixs[i], ids)
  {
    assert ixs[..i + 1] == ixs[..i] + [ixs[i]];
    assert forall ix :: ix in ixs[..i + 1] <==> ix in ixs[..i] || ix == ixs[i];
  }

  lemma GapFreeActives(row: CollectionRow)
    ensures GapFree(row, |row.indexes|) <==> NoneUnreferenced(Actives(row, |row.indexes|), PrimaryIds(row.primary))
  {
    var n := |row.indexes|;
    forall j | 0 <= j < n && row.indexes[j].status.Active? ensures row.indexes[j] in Actives(row, n) {}
  }

  // ---- The page sets of a clean database ----

  lemma {:induction false} NonZeroMembers(children: seq<nat>)
    ensures 0 !in NonZero(children)
    decreases |children|
  {
    if children != [] { NonZeroMembers(children[..|children| - 1]); }
  }

  lemma KidsNonZero(pages: Pages, p: nat)
    ensures 0 !in Kids(pages, p)
  {
    if Decodes(pages, p) { NonZeroMembers(pages(p).node.value.children); }
  }

  lemma ReachableInFile(db: Database, root: nat, d: Descent, p: nat)
    requires Confined(db) && InFile(db, root) && CleanTree(db.pages, root) && Leads(db.pages, root, d, p)
    ensures InFile(db, p)
  {
    assert GoodPage(db.pages, p);
    if d != [] {
      KidsNonZero(db.pages, Follow(db.pages, root, d[..|d| - 1]).value);
    }
  }

  /** A clean tree keeps to the file: no child pointer leads past its end, or to the
      header. */
  lemma CleanTreeInFile(db: Database, root: nat, p: nat)
    requires Confined(db) && InFile(db, root) && CleanTree(db.pages, root) && Reachable(db.pages, root, p)
    ensures InFile(db, p)
    ensures forall k: nat | k < |Kids(db.pages, p)| :: InFile(db, Kids(db.pages, p)[k])
  {
    var d :| Leads(db.pages, root, d, p);
    ReachableInFile(db, root, d, p);
    forall k: nat | k < |Kids(db.pages, p)| ensures InFile(db, Kids(db.pages, p)[k]) {
      ExtensionLeads(db.pages, root, d, p, k);
      ReachableInFile(db, root, d + [k], Kids(db.pages, p)[k]);
    }
  }

  ghost function TreePages(db: Database, root: nat): set<nat> {
    set p: nat | p < db.pageCount && Reachable(db.pages, root, p)
  }

  lemma VisitedAreTreePages(db: Database, root: nat, visited: set<nat>)
    requires Confined(db) && CleanTree(db.pages, root)
    requires forall p :: Reachable(db.pages, root, p) <==> p in visited
    ensures visited == TreePages(db, root)
  {
    forall p | p in visited ensures p < db.pageCount {
      var d :| Leads(db.pages, root, d, p);
      assert GoodPage(db.pages, p);
    }
  }

  ghost function FreePages(db: Database): set<nat> {
    set p: nat | p < db.pageCount && InFreelist(db, p)
  }

  ghost function CatalogParts(db: Database): seq<set<nat>> {
    if db.rootCatalog == 0 then [] else [TreePages(db, db.rootCatalog)]
  }

  ghost function IndexParts(db: Database, row: CollectionRow, n: nat): seq<set<nat>>
    requires n <= |row.indexes|
  {
    if n == 0 then []
    else IndexParts(db, row, n - 1) +
         if row.indexes[n - 1].status.Active? then [TreePages(db, row.indexes[n - 1].tree.root)] else []
  }

  ghost function RowParts(db: Database, row: CollectionRow): seq<set<nat>> {
    [TreePages(db, row.primary.root)] + IndexParts(db, row, |row.indexes|)
  }

  ghost function RowsParts(db: Database, n: nat): seq<set<nat>>
    requires n <= |ListedRows(db)|
  {
    if n == 0 then [] else RowsParts(db, n - 1) + RowParts(db, ListedRows(db)[n - 1])
  }

  /** The pages of the catalog tree, of every primary and Active index tree, and of
      the freelist. */
  ghost function Parts(db: Database): seq<set<nat>> {
    CatalogParts(db) + RowsParts(db, |ListedRows(db)|) + [FreePages(db)]
  }

  lemma NextIndexTotal(db: Database, row: CollectionRow, i: nat)
    requires i < |row.indexes|
    ensures Total(IndexParts(db, row, i + 1)) == Total(IndexParts(db, row, i)) +
              if row.indexes[i].status.Active? then |TreePages(db, row.indexes[i].tree.root)| else 0
  {
    var part := if row.indexes[i].status.Active? then [TreePages(db, row.indexes[i].tree.root)] else [];
    TotalConcat(IndexParts(db, row, i), part);
  }

  lemma NextCleanIndex(db: Database, row: CollectionRow, i: nat)
    requires i < |row.indexes|
    ensures var ix := row.indexes[i];
            CleanIndexes(db, row, i + 1) <==>
              CleanIndexes(db, row, i) && (ix.status.Active? ==> CleanIndex(db, row, ix))
  {}

  lemma NextInIndexes(db: Database, row: CollectionRow, i: nat)
    requires i < |row.indexes|
    ensures var ix := row.indexes[i];
            forall p :: InIndexes(db, row, i + 1, p) <==>
              InIndexes(db, row, i, p) || (ix.status.Active? && Reachable(db.pages, ix.tree.root, p))
  {}

  lemma NextReference(row: CollectionRow, i: nat, ids: set<Bytes>)
    requires i < |row.indexes|
    ensures var ix := row.indexes[i];
            WithReferences(Actives(row, i + 1), ids) ==
              WithReferences(Actives(row, i), ids) +
              if ix.status.Active? then [(ix, ReferencedBy(ix, ids))] else []
  {}

  lemma NextIndex(db: Database, row: CollectionRow, i: nat, ids: set<Bytes>)
    requires i < |row.indexes|
    ensures var ix := row.indexes[i];
            && (CleanIndexes(db, row, i + 1) <==>
                  CleanIndexes(db, row, i) && (ix.status.Active? ==> CleanIndex(db, row, ix)))
            && (forall p :: InIndexes(db, row, i + 1, p) <==>
                  InIndexes(db, row, i, p) || (ix.status.Active? && Reachable(db.pages, ix.tree.root, p)))
            && WithReferences(Actives(row, i + 1), ids) ==
               WithReferences(Actives(row, i), ids) +
               if ix.status.Active? then [(ix, ReferencedBy(ix, ids))] else []
    ensures Total(IndexParts(db, row, i + 1)) == Total(IndexParts(db, row, i)) +
              if row.indexes[i].status.Active? then |TreePages(db, row.indexes[i].tree.root)| else 0
  {
    NextIndexTotal(db, row, i);
    NextCleanIndex(db, row, i);
    NextInIndexes(db, row, i);
    NextReference(row, i, ids);
  }

  lemma RowTotal(db: Database, row: CollectionRow)
    ensures Total(RowParts(db, row)) == |TreePages(db, row.primary.root)| + Total(IndexParts(db, row, |row.indexes|))
  {
    TotalConcat([TreePages(db, row.primary.root)], IndexParts(db, row, |row.indexes|));
  }

  lemma PartsTotal(db: Database)
    ensures Total(Parts(db)) ==
            Total(CatalogParts(db)) + Total(RowsParts(db, |ListedRows(db)|)) + |FreePages(db)|
  {
    TotalConcat(CatalogParts(db) + RowsParts(db, |ListedRows(db)|), [FreePages(db)]);
    TotalConcat(CatalogParts(db), RowsParts(db, |ListedRows(db)|));
  }

  lemma NextRow(db: Database, i: nat)
    requires i < |ListedRows(db)|
    ensures CleanRows(db, i + 1) <==> CleanRows(db, i) && CleanRow(db, ListedRows(db)[i])
    ensures forall p :: InRows(db, i + 1, p) <==> InRows(db, i, p) || InRow(db, ListedRows(db)[i], p)
    ensures Total(RowsParts(db, i + 1)) == Total(RowsParts(db, i)) + Total(RowParts(db, ListedRows(db)[i]))
  {
    TotalConcat(RowsParts(db, i), RowParts(db, ListedRows(db)[i]));
  }

  // ---- What the parts find ----

  ghost function CatalogTrees(db: Database): iset<Tree> {
    iset t | CatalogTree(db, t)
  }

  ghost function CatalogFaults(db: Database): iset<Failure> {
    iset f | DanglingCatalog(db, f)
  }

  ghost function DanglingRoots(db: Database, row: CollectionRow): iset<Failure> {
    iset f | DanglingRoot(db, row, f)
  }

  ghost function WithinFile(db: Database, tree: string, root: nat): iset<Tree> {
    if InFile(db, root) then iset{Tree(tree, root)} else iset{}
  }

  ghost function TreesAt(db: Database, row: CollectionRow, ix: IndexRow): iset<Tree> {
    iset t | IndexTree(db, row, ix, t)
  }

  ghost function EntryFaultsAt(row: CollectionRow, ix: IndexRow): iset<Failure> {
    iset f | EntryFaultIn(row, ix, f)
  }

  ghost function TreesOf(db: Database, row: CollectionRow): iset<Tree> {
    iset t | RowTree(db, row, t)
  }

  ghost function FaultsOf(db: Database, row: CollectionRow): iset<Failure> {
    iset f | RowFault(db, row, f)
  }

  ghost function IndexTrees(db: Database, row: CollectionRow, n: nat): iset<Tree>
    requires n <= |row.indexes|
  {
    iset t | AmongIndexTrees(db, row, n, t)
  }

  predicate AmongIndexTrees(db: Database, row: CollectionRow, n: nat, t: Tree)
    requires n <= |row.indexes|
  {
    exists i | 0 <= i < n :: IndexTree(db, row, row.indexes[i], t)
  }

  ghost function EntryFaults(row: CollectionRow, n: nat): iset<Failure>
    requires n <= |row.indexes|
  {
    iset f | AmongEntryFaults(row, n, f)
  }

  ghost predicate AmongEntryFaults(row: CollectionRow, n: nat, f: Failure)
    requires n <= |row.indexes|
  {
    exists i | 0 <= i < n :: EntryFaultIn(row, row.indexes[i], f)
  }

  ghost predicate EntryFaultIn(row: CollectionRow, ix: IndexRow, f: Failure) {
    ix.status.Active? && EntryFault(row.name, ix, PrimaryIds(row.primary), f)
  }

  ghost function Gaps(row: CollectionRow, ids: set<Bytes>, ixs: seq<IndexRow>): iset<Failure> {
    iset f | AmongGaps(row, ids, ixs, f)
  }

  predicate AmongGaps(row: CollectionRow, ids: set<Bytes>, ixs: seq<IndexRow>, f: Failure) {
    exists i | 0 <= i < |ixs| :: MissingEntry(row.name, ixs[i], ids, f)
  }

  ghost function IndexFaults(row: CollectionRow): iset<Failure> {
    iset f | SomeIndexFault(row, f)
  }

  ghost function RowTrees(db: Database, n: nat): iset<Tree>
    requires n <= |ListedRows(db)|
  {
    iset t | AmongRowTrees(db, n, t)
  }

  predicate AmongRowTrees(db: Database, n: nat, t: Tree)
    requires n <= |ListedRows(db)|
  {
    exists i | 0 <= i < n :: RowTree(db, ListedRows(db)[i], t)
  }

  ghost function RowFaults(db: Database, n: nat): iset<Failure>
    requires n <= |ListedRows(db)|
  {
    iset f | AmongRowFaults(db, n, f)
  }

  ghost predicate AmongRowFaults(db: Database, n: nat, f: Failure)
    requires n <= |ListedRows(db)|
  {
    exists i | 0 <= i < n :: RowFault(db, ListedRows(db)[i], f)
  }

  lemma NoIndexYet(db: Database, row: CollectionRow, trees: iset<Tree>, others: iset<Failure>)
    ensures trees + IndexTrees(db, row, 0) == trees && others + EntryFaults(row, 0) == others
  {}

  lemma NoRowYet(db: Database, trees: iset<Tree>, others: iset<Failure>)
    ensures trees + RowTrees(db, 0) == trees && others + RowFaults(db, 0) == others
  {}

  lemma NextIndexFaults(db: Database, row: CollectionRow, i: nat, trees: iset<Tree>, others: iset<Failure>)
    requires i < |row.indexes|
    ensures var ix := row.indexes[i];
            && trees + IndexTrees(db, row, i + 1) ==
               trees + IndexTrees(db, row, i) + TreesAt(db, row, ix)
            && others + EntryFaults(row, i + 1) ==
               others + EntryFaults(row, i) +
               EntryFaultsAt(row, ix)
  {}

  lemma NextRowFaults(db: Database, i: nat, trees: iset<Tree>, others: iset<Failure>)
    requires i < |ListedRows(db)|
    ensures var row := ListedRows(db)[i];
            && trees + RowTrees(db, i + 1) == trees + RowTrees(db, i) + TreesOf(db, row)
            && others + RowFaults(db, i + 1) == others + RowFaults(db, i) + FaultsOf(db, row)
  {}

  /** No entry refers to an id when none names it. */
  lemma UnreferencedByName(collection: string, ix: IndexRow, ids: set<Bytes>, id: Bytes)
    ensures Unreferenced(ix, ids, id) <==>
              MissingEntry(collection, ix, ids, MissingIndexEntry(collection, ix.name, id))
  {
    forall e ensures Names(ix.kind, e, id) && id in ids <==>
        PointsHome(ix.kind, e, ids) && Query.EntryId(ix.kind, e).value == id
    {
      EntryIdIsNamed(ix.kind, e, id);
    }
  }

  lemma NextGaps(row: CollectionRow, ids: set<Bytes>, ixs: seq<IndexRow>, i: nat, first: seq<Failure>,
          before: seq<Failure>, found: seq<Failure>)
    requires i < |ixs| && Adds(first, before, Gaps(row, ids, ixs[..i]))
    requires forall f :: f in found <==>
               exists id :: f == MissingIndexEntry(row.name, ixs[i].name, id) && Unreferenced(ixs[i], ids, id)
    ensures Adds(first, before + found, Gaps(row, ids, ixs[..i + 1]))
  {
    forall f ensures f in found <==> MissingEntry(row.name, ixs[i], ids, f) {
      if f.MissingIndexEntry? { UnreferencedByName(row.name, ixs[i], ids, f.id); }
    }
    forall f ensures f in Gaps(row, ids, ixs[..i + 1]) <==>
        f in Gaps(row, ids, ixs[..i]) || MissingEntry(row.name, ixs[i], ids, f)
    {
      assert ixs[..i + 1][i] == ixs[i] && forall j | 0 <= j < i :: ixs[..i + 1][j] == ixs[..i][j];
    }
  }

  lemma EntryFindings(row: CollectionRow, ix: IndexRow, before: seq<Failure>, found: seq<Failure>)
    requires ix.status.Active?
    requires forall f :: f in found <==> EntryFault(row.name, ix, PrimaryIds(row.primary), f)
    ensures Adds(before, before + found, EntryFaultsAt(row, ix))
  {}

  /** The trees of a row are its primary and its Active indexes. */
  lemma TreesOfRow(db: Database, row: CollectionRow, trees: iset<Tree>)
    ensures trees + WithinFile(db, "primary:" + row.name, row.primary.root) + IndexTrees(db, row, |row.indexes|) ==
            trees + TreesOf(db, row)
  {}

  /** Together the parts of a row find what is wrong with its indexes. */
  lemma RowFindings(row: CollectionRow, others: iset<Failure>)
    ensures var n := |row.indexes|;
            others + EntryFaults(row, n) + Gaps(row, PrimaryIds(row.primary), Actives(row, n)) ==
            others + IndexFaults(row)
  {
    var n, ids := |row.indexes|, PrimaryIds(row.primary);
    var ixs := Actives(row, n);
    forall f ensures f in Gaps(row, ids, ixs) <==>
        exists i | 0 <= i < n :: row.indexes[i].status.Active? && MissingEntry(row.name, row.indexes[i], ids, f)
    {
      if i :| 0 <= i < |ixs| && MissingEntry(row.name, ixs[i], ids, f) { assert ixs[i] in ixs; }
      if i :| 0 <= i < n && row.indexes[i].status.Active? && MissingEntry(row.name, row.indexes[i], ids, f) {
        assert row.indexes[i] in ixs;
      }
    }
  }

  lemma UnreadableIndex(db: Database, row: CollectionRow, i: nat, e: Error)
    requires i < |row.indexes| && row.indexes[i].status.Active?
    requires (InFile(db, row.indexes[i].tree.root) && TreeUnreadable(db, row.indexes[i].tree.root, e)) ||
               ScanUnreadable(row.indexes[i].tree, e)
    ensures RowUnreadable(db, row, e)
  {
    if InFile(db, row.indexes[i].tree.root) && TreeUnreadable(db, row.indexes[i].tree.root, e) {
      var t := Tree("index:" + row.name + "." + row.indexes[i].name, row.indexes[i].tree.root);
      assert IndexTree(db, row, row.indexes[i], t);
      assert RowTree(db, row, t) && TreeUnreadable(db, t.root, e);
    }
  }

  lemma UnreadablePrimary(db: Database, row: CollectionRow, e: Error)
    requires InFile(db, row.primary.root) && TreeUnreadable(db, row.primary.root, e)
    ensures RowUnreadable(db, row, e)
  {
    var t := Tree("primary:" + row.name, row.primary.root);
    assert PrimaryTree(db, row, t);
    assert RowTree(db, row, t) && TreeUnreadable(db, t.root, e);
  }

  lemma SweptPages(db: Database, seen: set<nat>)
    requires CleanFreelist(db.pages, db.pageCount, db.freelistHead) && forall p | p in seen :: 0 < p < db.pageCount
    requires forall n: nat | Chain(db.pages, db.pageCount, db.freelistHead, n) ::
               seen == ChainPages(db.pages, db.pageCount, db.freelistHead, n)
    ensures seen == FreePages(db) && forall p :: p in seen <==> InFreelist(db, p)
  {}

  /** Catalog, rows and freelist are the whole. */
  lemma WholeDatabase(db: Database)
    ensures var n := |ListedRows(db)|;
            && iset{} + CatalogTrees(db) + RowTrees(db, n) == AllTrees(db)
            && iset{} + CatalogFaults(db) + RowFaults(db, n) + ListFaults(db) ==
               AllOthers(db)
  {
    var n := |ListedRows(db)|;
    forall t ensures WalkedTree(db, t) <==> CatalogTree(db, t) || t in RowTrees(db, n) {}
    forall f ensures OtherFault(db, f) <==> DanglingCatalog(db, f) || f in RowFaults(db, n) || f in ListFaults(db) {}
  }

  // ---- The walk ----

  class IntegrityState {
    var failures: seq<Failure>
    var reachable: set<nat>
    var pagesChecked: nat

    /** The trees walked, the pages the freelist leads to, and what was found besides
        faults of trees. */
    ghost var trees: iset<Tree>
    ghost var listed: iset<nat>
    ghost var others: iset<Failure>

    constructor ()
      ensures failures == [] && reachable == {} && pagesChecked == 0
      ensures trees == iset{} && listed == iset{} && others == iset{}
    {
      failures, reachable, pagesChecked := [], {}, 0;
      trees, listed, others := iset{}, iset{}, iset{};
    }

    ghost predicate Explained(db: Database)
      reads this
    {
      Explains(db, failures, reachable, trees, others, listed)
    }

    /** Explained still, with more trees walked and more found besides. */
    twostate predicate ExplainedBy(db: Database, moreTrees: iset<Tree>, moreOthers: iset<Failure>)
      reads this
    {
      && Explained(db) && listed == old(listed)
      && trees == old(trees) + moreTrees && others == old(others) + moreOthers
    }

    method WalkTree(db: Database, tree: string, root: nat) returns (r: Result<()>)
      requires Explained(db)
      modifies this
      ensures r.Ok? ==> ExplainedBy(db, iset{Tree(tree, root)}, iset{})
      ensures r.Err? ==> TreeUnreadable(db, root, r.error)
      ensures old(failures) != [] ==> failures != []
      ensures r.Ok? && failures == [] <==> old(failures) == [] && CleanTree(db.pages, root)
      ensures r.Ok? && failures == [] ==>
                forall p :: p in reachable <==> p in old(reachable) || Reachable(db.pages, root, p)
      ensures r.Ok? && failures == [] && Confined(db) ==> pagesChecked == old(pagesChecked) + |TreePages(db, root)|
    {
      var walked, visited, found := WalkBtree(db.pages, tree, root);
      NoReportIffClean(db.pages, root, walked, found);
      ghost var before, reached := failures, reachable;
      reachable, failures := reachable + visited, failures + found;
      if walked.Err? {
        return Err(walked.error);
      }
      ExplainTree(db, before, found, reached, visited, trees, others, listed, Tree(tree, root));
      trees := trees + iset{Tree(tree, root)};
      if found == [] && Confined(db) { VisitedAreTreePages(db, root, visited); }
      pagesChecked := pagesChecked + walked.value;
      return Ok(());
    }

    method WalkCatalog(db: Database) returns (r: Result<()>)
      requires Explained(db)
      modifies this
      ensures r.Ok? ==> ExplainedBy(db, CatalogTrees(db), CatalogFaults(db))
      ensures r.Err? ==> InFile(db, db.rootCatalog) && TreeUnreadable(db, db.rootCatalog, r.error)
      ensures r.Ok? && failures == [] <==> old(failures) == [] && CleanCatalog(db)
      ensures r.Ok? && failures == [] ==> forall p :: p in reachable <==> p in old(reachable) || InCatalog(db, p)
      ensures r.Ok? && failures == [] && Confined(db) ==> pagesChecked == old(pagesChecked) + Total(CatalogParts(db))
    {
      if db.rootCatalog == 0 {
        return Ok(());
      }
      if db.rootCatalog >= db.pageCount {
        ghost var before := failures;
        failures := failures + [DanglingCatalogPointer("<catalog>", None, db.rootCatalog)];
        ghost var more := CatalogFaults(db);
        ExplainOthers(db, before, failures, reachable, trees, others, listed, more);
        others := others + more;
        return Ok(());
      }
      r := WalkTree(db, "catalog", db.rootCatalog);
    }

    method CheckCatalogPointers(db: Database, row: CollectionRow)
      modifies this`failures
      ensures Adds(old(failures), failures, DanglingRoots(db, row))
      ensures failures == [] <==> old(failures) == [] && PointersOk(db, row)
    {
      if !InFile(db, row.primary.root) {
        failures := failures + [DanglingCatalogPointer(row.name, None, row.primary.root)];
      }
      ghost var first := failures;
      for i := 0 to |row.indexes|
        invariant Adds(first, failures, iset f | DanglingAmong(db, row, i, f))
        invariant failures == [] <==>
                    (old(failures) == [] && InFile(db, row.primary.root) &&
                     forall j | 0 <= j < i && row.indexes[j].status.Active? :: InFile(db, row.indexes[j].tree.root))
      {
        var ix := row.indexes[i];
        if ix.status.Active? && !InFile(db, ix.tree.root) {
          failures := failures + [DanglingCatalogPointer(row.name, Some(ix.name), ix.tree.root)];
        }
      }
    }

    /** A root outside the file has been reported; its tree is passed over. */
    method WalkWithin(db: Database, tree: string, root: nat) returns (r: Result<()>)
      requires Explained(db)
      modifies this
      ensures r.Ok? ==> ExplainedBy(db, WithinFile(db, tree, root), iset{})
      ensures r.Err? ==> InFile(db, root) && TreeUnreadable(db, root, r.error)
      ensures old(failures) != [] ==> failures != []
      ensures InFile(db, root) ==>
                && (r.Ok? && failures == [] <==> old(failures) == [] && CleanTree(db.pages, root))
                && (r.Ok? && failures == [] ==>
                      forall p :: p in reachable <==> p in old(reachable) || Reachable(db.pages, root, p))
                && (r.Ok? && failures == [] && Confined(db) ==>
                      pagesChecked == old(pagesChecked) + |TreePages(db, root)|)
      ensures !InFile(db, root) ==> r.Ok? && failures == old(failures) && reachable == old(reachable)
    {
      if root == 0 || root >= db.pageCount {
        return Ok(());
      }
      r := WalkTree(db, tree, root);
    }

    method WalkOneIndex(db: Database, row: CollectionRow, ix: IndexRow, ids: set<Bytes>)
      returns (r: Result<()>, referenced: set<Bytes>)
      requires ids == PrimaryIds(row.primary) && ix.status.Active? && Explained(db)
      modifies this
      ensures r.Ok? ==>
                ExplainedBy(db, TreesAt(db, row, ix), EntryFaultsAt(row, ix))
      ensures r.Err? ==>
                || (InFile(db, ix.tree.root) && TreeUnreadable(db, ix.tree.root, r.error))
                || ScanUnreadable(ix.tree, r.error)
      ensures old(failures) != [] ==> failures != []
      ensures InFile(db, ix.tree.root) ==>
                && (r.Ok? && failures == [] <==> old(failures) == [] && CleanIndex(db, row, ix))
                && (r.Ok? && failures == [] ==>
                      forall p :: p in reachable <==> p in old(reachable) || Reachable(db.pages, ix.tree.root, p))
                && (r.Ok? && failures == [] && Confined(db) ==>
                      pagesChecked == old(pagesChecked) + |TreePages(db, ix.tree.root)|)
      ensures r.Ok? ==> referenced == ReferencedBy(ix, ids)
    {
      r := WalkWithin(db, "index:" + row.name + "." + ix.name, ix.tree.root);
      referenced := {};
      if r.Err? {
        return;
      }
      var scanned, refs, found := CrossReferenceIndex(row.name, ix, ids);
      ghost var before := failures;
      failures := failures + found;
      if scanned.Ok? {
        EntryFindings(row, ix, before, found);
        ExplainOthers(db, before, failures, reachable, trees, others, listed, EntryFaultsAt(row, ix));
        others := others + EntryFaultsAt(row, ix);
      }
      referenced := refs;
      r := if scanned.Err? then Err(scanned.error) else Ok(());
    }

    /** Indexes that are not Active are passed over. */
    method WalkIndexAt(db: Database, row: CollectionRow, i: nat, ids: set<Bytes>)
      returns (r: Result<()>, referenced: seq<(IndexRow, set<Bytes>)>)
      requires i < |row.indexes| && ids == PrimaryIds(row.primary) && Explained(db)
      modifies this
      ensures var ix := row.indexes[i];
              r.Ok? ==>
                && ExplainedBy(db, TreesAt(db, row, ix), EntryFaultsAt(row, ix))
                && referenced == if ix.status.Active? then [(ix, ReferencedBy(ix, ids))] else []
      ensures r.Err? ==> RowUnreadable(db, row, r.error)
      ensures old(failures) != [] ==> failures != []
      ensures var ix := row.indexes[i];
              ix.status.Active? && InFile(db, ix.tree.root) ==>
                && (r.Ok? && failures == [] <==> old(failures) == [] && CleanIndex(db, row, ix))
                && (r.Ok? && failures == [] ==>
                      forall p :: p in reachable <==> p in old(reachable) || Reachable(db.pages, ix.tree.root, p))
                && (r.Ok? && failures == [] && Confined(db) ==>
                      pagesChecked == old(pagesChecked) + |TreePages(db, ix.tree.root)|)
      ensures row.indexes[i].status.DroppedPending? ==>
                r.Ok? && failures == old(failures) && reachable == old(reachable) && pagesChecked == old(pagesChecked)
    {
      var ix := row.indexes[i];
      if !ix.status.Active? {
        assert trees + TreesAt(db, row, ix) == trees;
        assert others + EntryFaultsAt(row, ix) == others;
        return Ok(()), [];
      }
      var refs;
      r, refs := WalkOneIndex(db, row, ix, ids);
      if r.Err? {
        UnreadableIndex(db, row, i, r.error);
        return r, [];
      }
      referenced := [(ix, refs)];
    }

    method WalkIndexes(db: Database, row: CollectionRow, ids: set<Bytes>)
      returns (r: Result<()>, referenced: seq<(IndexRow, set<Bytes>)>)
      requires ids == PrimaryIds(row.primary) && Explained(db)
      modifies this
      ensures r.Ok? ==> ExplainedBy(db, IndexTrees(db, row, |row.indexes|), EntryFaults(row, |row.indexes|))
      ensures r.Err? ==> RowUnreadable(db, row, r.error)
      ensures old(failures) != [] ==> failures != []
      ensures PointersOk(db, row) ==>
                && (r.Ok? && failures == [] <==> old(failures) == [] && CleanIndexes(db, row, |row.indexes|))
                && (r.Ok? && failures == [] ==>
                      forall p :: p in reachable <==> p in old(reachable) || InIndexes(db, row, |row.indexes|, p))
                && (r.Ok? && failures == [] && Confined(db) ==>
                      pagesChecked == old(pagesChecked) + Total(IndexParts(db, row, |row.indexes|)))
      ensures r.Ok? ==> referenced == WithReferences(Actives(row, |row.indexes|), ids)
    {
      ghost var priorFailures, priorReach, prior := failures, reachable, pagesChecked;
      ghost var priorTrees, priorOthers, priorListed := trees, others, listed;
      NoIndexYet(db, row, trees, others);
      referenced := [];
      for i := 0 to |row.indexes|
        invariant Explained(db) && listed == priorListed
        invariant trees == priorTrees + IndexTrees(db, row, i) && others == priorOthers + EntryFaults(row, i)
        invariant priorFailures != [] ==> failures != []
        invariant referenced == WithReferences(Actives(row, i), ids)
        invariant PointersOk(db, row) ==> (failures == [] <==> priorFailures == [] && CleanIndexes(db, row, i))
        invariant PointersOk(db, row) && failures == [] ==>
                    forall p :: p in reachable <==> p in priorReach || InIndexes(db, row, i, p)
        invariant PointersOk(db, row) && failures == [] && Confined(db) ==>
                    pagesChecked == prior + Total(IndexParts(db, row, i))
      {
        NextIndex(db, row, i, ids);
        NextIndexFaults(db, row, i, priorTrees, priorOthers);
        var refs;
        r, refs := WalkIndexAt(db, row, i, ids);
        if r.Err? {
          return;
        }
        referenced := referenced + refs;
      }
      r := Ok(());
    }

    method ReportGaps(row: CollectionRow, ids: set<Bytes>, ghost ixs: seq<IndexRow>,
            referenced: seq<(IndexRow, set<Bytes>)>)
      requires referenced == WithReferences(ixs, ids)
      modifies this`failures
      ensures Adds(old(failures), failures, Gaps(row, ids, ixs))
      ensures failures == [] <==> (old(failures) == [] && NoneUnreferenced(ixs, ids))
    {
      for i := 0 to |referenced|
        invariant Adds(old(failures), failures, Gaps(row, ids, ixs[..i]))
        invariant failures == [] <==> (old(failures) == [] && NoneUnreferenced(ixs[..i], ids))
      {
        NoneUnreferencedNext(ixs, i, ids);
        var (ix, refs) := referenced[i];
        var found := CheckPrimaryToIndex(row.name, ix, ids, refs);
        if found != [] {
          assert found[0] in found;
        } else {
          forall id | id in ids ensures !Unreferenced(ix, ids, id) {
            assert MissingIndexEntry(row.name, ix.name, id) !in found;
          }
        }
        NextGaps(row, ids, ixs, i, old(failures), failures, found);
        failures := failures + found;
      }
      assert ixs[..|ixs|] == ixs;
    }

    method FindGaps(db: Database, row: CollectionRow, ids: set<Bytes>, referenced: seq<(IndexRow, set<Bytes>)>)
      requires Explained(db) && ids == PrimaryIds(row.primary)
      requires referenced == WithReferences(Actives(row, |row.indexes|), ids)
      modifies this`failures, this`others
      ensures ExplainedBy(db, iset{}, Gaps(row, ids, Actives(row, |row.indexes|)))
      ensures failures == [] <==> old(failures) == [] && GapFree(row, |row.indexes|)
    {
      GapFreeActives(row);
      ghost var ixs, before := Actives(row, |row.indexes|), failures;
      ReportGaps(row, ids, ixs, referenced);
      ExplainOthers(db, before, failures, reachable, trees, others, listed, Gaps(row, ids, ixs));
      others := others + Gaps(row, ids, ixs);
    }

    method WalkPrimary(db: Database, row: CollectionRow) returns (r: Result<()>, ids: set<Bytes>)
      requires Explained(db)
      modifies this
      ensures r.Ok? ==> ExplainedBy(db, WithinFile(db, "primary:" + row.name, row.primary.root), iset{})
      ensures r.Ok? ==> ids == PrimaryIds(row.primary)
      ensures r.Err? ==> RowUnreadable(db, row, r.error)
      ensures old(failures) != [] ==> failures != []
      ensures InFile(db, row.primary.root) ==>
                && (r.Ok? && failures == [] <==>
                      old(failures) == [] && CleanTree(db.pages, row.primary.root) && PrimaryReadable(row))
                && (r.Ok? && failures == [] ==>
                      forall p :: p in reachable <==> p in old(reachable) || Reachable(db.pages, row.primary.root, p))
                && (r.Ok? && failures == [] && Confined(db) ==>
                      pagesChecked == old(pagesChecked) + |TreePages(db, row.primary.root)|)
    {
      r := WalkWithin(db, "primary:" + row.name, row.primary.root);
      ids := {};
      if r.Err? {
        UnreadablePrimary(db, row, r.error);
        return;
      }
      var counted;
      counted, ids := CollectPrimaryIds(row.primary);
      if counted.Err? {
        r := Err(counted.error);
      }
    }

    method WalkPrimaryAndIndexes(db: Database, row: CollectionRow)
      returns (r: Result<()>, ids: set<Bytes>, referenced: seq<(IndexRow, set<Bytes>)>)
      requires Explained(db)
      modifies this
      ensures r.Ok? ==> ExplainedBy(db, TreesOf(db, row), EntryFaults(row, |row.indexes|))
      ensures r.Ok? ==> ids == PrimaryIds(row.primary)
      ensures r.Ok? ==> referenced == WithReferences(Actives(row, |row.indexes|), PrimaryIds(row.primary))
      ensures r.Err? ==> RowUnreadable(db, row, r.error)
      ensures old(failures) != [] ==> failures != []
      ensures PointersOk(db, row) ==>
                && (r.Ok? && failures == [] <==> old(failures) == [] && CleanButForGaps(db, row))
                && (r.Ok? && failures == [] ==>
                      forall p :: p in reachable <==> p in old(reachable) || InRow(db, row, p))
                && (r.Ok? && failures == [] && Confined(db) ==>
                      pagesChecked == old(pagesChecked) + Total(RowParts(db, row)))
    {
      RowTotal(db, row);
      TreesOfRow(db, row, trees);
      referenced := [];
      r, ids := WalkPrimary(db, row);
      if r.Ok? {
        r, referenced := WalkIndexes(db, row, ids);
      }
    }

    /** Every Active index is walked first; what they fail to reference is
        reported after. */
    method WalkOneCollection(db: Database, row: CollectionRow) returns (r: Result<()>)
      requires Explained(db)
      modifies this
      ensures r.Ok? ==> ExplainedBy(db, TreesOf(db, row), IndexFaults(row))
      ensures r.Err? ==> RowUnreadable(db, row, r.error)
      ensures old(failures) != [] ==> failures != []
      ensures PointersOk(db, row) ==>
                && (r.Ok? && failures == [] <==> old(failures) == [] && CleanRow(db, row))
                && (r.Ok? && failures == [] ==>
                      forall p :: p in reachable <==> p in old(reachable) || InRow(db, row, p))
                && (r.Ok? && failures == [] && Confined(db) ==>
                      pagesChecked == old(pagesChecked) + Total(RowParts(db, row)))
    {
      RowFindings(row, others);
      var ids, referenced;
      r, ids, referenced := WalkPrimaryAndIndexes(db, row);
      if r.Ok? {
        FindGaps(db, row, ids, referenced);
      }
    }

    method WalkRow(db: Database, row: CollectionRow) returns (r: Result<()>)
      requires Explained(db)
      modifies this
      ensures r.Ok? ==> ExplainedBy(db, TreesOf(db, row), FaultsOf(db, row))
      ensures r.Err? ==> RowUnreadable(db, row, r.error)
      ensures r.Ok? && failures == [] <==> old(failures) == [] && CleanRow(db, row)
      ensures r.Ok? && failures == [] ==> forall p :: p in reachable <==> p in old(reachable) || InRow(db, row, p)
      ensures r.Ok? && failures == [] && Confined(db) ==> pagesChecked == old(pagesChecked) + Total(RowParts(db, row))
    {
      ghost var before, more := failures, DanglingRoots(db, row);
      ghost var priorOthers := others;
      CheckCatalogPointers(db, row);
      ExplainOthers(db, before, failures, reachable, trees, others, listed, more);
      others := others + more;
      assert priorOthers + more + IndexFaults(row) == priorOthers + FaultsOf(db, row);
      r := WalkOneCollection(db, row);
    }

    method WalkCollections(db: Database) returns (r: Result<()>)
      requires Explained(db)
      modifies this
      ensures r.Ok? ==> ExplainedBy(db, RowTrees(db, |ListedRows(db)|), RowFaults(db, |ListedRows(db)|))
      ensures r.Err? ==>
                || (db.rootCatalog != 0 && db.catalog == RowsFail(r.error))
                || exists i | 0 <= i < |ListedRows(db)| :: RowUnreadable(db, ListedRows(db)[i], r.error)
      ensures r.Ok? && failures == [] <==>
                (old(failures) == [] && !(db.rootCatalog != 0 && db.catalog.RowsFail?) &&
                    CleanRows(db, |ListedRows(db)|))
      ensures r.Ok? && failures == [] ==>
                forall p :: p in reachable <==> p in old(reachable) || InRows(db, |ListedRows(db)|, p)
      ensures r.Ok? && failures == [] && Confined(db) ==>
                pagesChecked == old(pagesChecked) + Total(RowsParts(db, |ListedRows(db)|))
    {
      NoRowYet(db, trees, others);
      if db.rootCatalog == 0 || db.catalog.RowsCorrupt? {
        return Ok(());
      }
      if db.catalog.RowsFail? {
        return Err(db.catalog.error);
      }
      var rows := db.catalog.rows;
      ghost var priorFailures, priorReach, prior := failures, reachable, pagesChecked;
      ghost var priorTrees, priorOthers, priorListed := trees, others, listed;
      for i := 0 to |rows|
        invariant Explained(db) && listed == priorListed
        invariant trees == priorTrees + RowTrees(db, i) && others == priorOthers + RowFaults(db, i)
        invariant failures == [] <==> (priorFailures == [] && CleanRows(db, i))
        invariant failures == [] ==> forall p :: p in reachable <==> p in priorReach || InRows(db, i, p)
        invariant failures == [] && Confined(db) ==> pagesChecked == prior + Total(RowsParts(db, i))
      {
        NextRow(db, i);
        NextRowFaults(db, i, priorTrees, priorOthers);
        r := WalkRow(db, rows[i]);
        if r.Err? {
          return;
        }
      }
      return Ok(());
    }

    method WalkFreelistChain(db: Database) returns (r: Result<()>)
      requires Explained(db) && listed == iset{}
      modifies this
      ensures r.Ok? ==>
                && Explained(db) && listed == ListPages(db)
                && trees == old(trees) && others == old(others) + ListFaults(db)
      ensures r.Err? ==> ListUnreadable(db.pages, db.pageCount, db.freelistHead, r.error)
      ensures r.Ok? && failures == [] <==> old(failures) == [] && CleanFreelist(db.pages, db.pageCount, db.freelistHead)
      ensures r.Ok? && failures == [] ==> forall p :: p in reachable <==> p in old(reachable) || InFreelist(db, p)
      ensures r.Ok? && failures == [] ==> pagesChecked == old(pagesChecked) + |FreePages(db)|
    {
      var walked, seen, found := FreelistWalk.WalkFreelist(db.pages, db.freelistHead, db.pageCount);
      ghost var before, reached := failures, reachable;
      reachable, failures := reachable + seen, failures + found;
      if walked.Err? {
        return Err(walked.error);
      }
      ExplainList(db, before, found, reached, seen, trees, others, listed, ListFaults(db));
      listed, others := listed + (iset p | p in seen), others + ListFaults(db);
      assert listed == ListPages(db);
      if found == [] { SweptPages(db, seen); }
      pagesChecked := pagesChecked + walked.value;
      return Ok(());
    }

    method DetectOrphanPages(db: Database)
      modifies this`failures
      ensures Adds(old(failures), failures,
                OrphansOutside(db, reachable))
      ensures failures == [] <==> (old(failures) == [] && AllSeen(reachable, db.pageCount))
    {
      var id: nat := 1;
      while id < db.pageCount
        invariant 1 <= id && (id == 1 || id <= db.pageCount)
        invariant Adds(old(failures), failures,
                    iset f: Failure | f.OrphanPage? && 0 < f.page < id && f.page !in reachable)
        invariant failures == [] <==> (old(failures) == [] && AllSeen(reachable, id))
      {
        assert AllSeen(reachable, id + 1) <==> AllSeen(reachable, id) && id in reachable;
        if id !in reachable {
          failures := failures + [OrphanPage(id)];
        }
        id := id + 1;
      }
    }
  }

  datatype Report = Report(failures: seq<Failure>, pagesChecked: nat)

  /** The check reports nothing, and completes, exactly on a clean database. It then
      has counted the header page and every page of every part. On any database it
      fails only where something cannot be read. Otherwise it reports exactly what is
      wrong, except that a bound on depth or size may cut a walk short. */
  method IntegrityCheck(db: Database) returns (r: Result<Report>)
    ensures r.Err? ==> Unreadable(db, r.error)
    ensures r.Ok? && !CutShort(r.value.failures) ==> forall f :: f in r.value.failures <==> Wrong(db, f)
    ensures r.Ok? ==>
              forall f | f in r.value.failures ::
                TreeFault(db, f) || OtherFault(db, f) || f.BTreeDepthExceeded? || (f.OrphanPage? && InFile(db, f.page))
    ensures r.Ok? ==>
              forall f | OtherFault(db, f) || (f.OrphanPage? && Unaccounted(db, f.page)) :: f in r.value.failures
    ensures r.Ok? && r.value.failures == [] <==> CleanDatabase(db)
    ensures r.Ok? && r.value.failures == [] && Confined(db) ==> r.value.pagesChecked == 1 + Total(Parts(db))
  {
    var state := new IntegrityState();
    state.pagesChecked := state.pagesChecked + 1;
    NothingExplained(db);
    var step := state.WalkCatalog(db);
    if step.Err? {
      return Err(step.error);
    }
    step := state.WalkCollections(db);
    if step.Err? {
      return Err(step.error);
    }
    step := state.WalkFreelistChain(db);
    if step.Err? {
      return Err(step.error);
    }
    assert state.failures == [] ==> forall p: nat :: p in state.reachable <==> Accounted(db, p);
    PartsTotal(db);
    ghost var before := state.failures;
    WholeDatabase(db);
    state.DetectOrphanPages(db);
    ReportTells(db, before, state.failures, state.reachable);
    return Ok(Report(state.failures, state.pagesChecked));
  }

  // ---- What a clean report tells, and what it does not ----

  /** Every entry of an Active index names a primary id, and every primary id has
      an entry in each Active index that is not an Each. */
  lemma CleanReportLinksBothWays(db: Database, r: nat, i: nat)
    requires CleanDatabase(db) && r < |ListedRows(db)| && i < |ListedRows(db)[r].indexes|
    requires ListedRows(db)[r].indexes[i].status.Active?
    ensures var row := ListedRows(db)[r]; var ix := row.indexes[i];
            && ix.tree.stop.None?
            && (forall e | e in ix.tree.entries :: PointsHome(ix.kind, e, PrimaryIds(row.primary)))
            && (!ix.kind.Each? ==>
                  forall id | id in PrimaryIds(row.primary) ::
                    exists e :: e in ix.tree.entries && Query.EntryId(ix.kind, e) == Ok(id))
  {
    var row := ListedRows(db)[r];
    var ix := row.indexes[i];
    assert CleanRow(db, row) && CleanIndex(db, row, ix) && AllReferenced(ix, PrimaryIds(row.primary));
    if !ix.kind.Each? {
      forall id | id in PrimaryIds(row.primary)
        ensures exists e :: e in ix.tree.entries && Query.EntryId(ix.kind, e) == Ok(id)
      {
        assert !Unreferenced(ix, PrimaryIds(row.primary), id);
        var e :| e in ix.tree.entries && PointsHome(ix.kind, e, PrimaryIds(row.primary)) &&
            Query.EntryId(ix.kind, e).value == id;
      }
    }
  }

  lemma {:induction false} LeafHasNoDescent(pages: Pages, p: nat, d: Descent)
    requires GoodPage(pages, p) && pages(p).node.value.kind.Leaf? && Follow(pages, p, d).Some?
    ensures d == []
    decreases |d|
  {
    if d != [] {
      LeafHasNoDescent(pages, p, d[..|d| - 1]);
    }
  }

  lemma LeafIsCleanTree(pages: Pages, p: nat)
    requires GoodPage(pages, p) && pages(p).node.value.kind.Leaf?
    ensures CleanTree(pages, p) && Reachable(pages, p, p)
  {
    forall d | Follow(pages, p, d).Some? ensures d == [] {
      LeafHasNoDescent(pages, p, d);
    }
    assert Leads(pages, p, [], p);
    forall ps: set<nat> | AllReachable(pages, p, ps) ensures |ps| <= MAX_RANGE_NODES {
      forall q | q in ps ensures q in {p} { assert Reachable(pages, p, q); }
      SubsetFits(ps, {p});
    }
  }

  lemma {:induction false} IndexPartsMembers(db: Database, row: CollectionRow, n: nat, p: nat)
    requires n <= |row.indexes|
    ensures p in Pool(IndexParts(db, row, n)) <==> p < db.pageCount && InIndexes(db, row, n, p)
  {
    if n > 0 {
      IndexPartsMembers(db, row, n - 1, p);
      var part := if row.indexes[n - 1].status.Active? then [TreePages(db, row.indexes[n - 1].tree.root)] else [];
      PoolConcat(IndexParts(db, row, n - 1), part);
    }
  }

  lemma RowPartsMembers(db: Database, row: CollectionRow, p: nat)
    ensures p in Pool(RowParts(db, row)) <==> p < db.pageCount && InRow(db, row, p)
  {
    IndexPartsMembers(db, row, |row.indexes|, p);
    PoolConcat([TreePages(db, row.primary.root)], IndexParts(db, row, |row.indexes|));
  }

  lemma {:induction false} RowsPartsMembers(db: Database, n: nat, p: nat)
    requires n <= |ListedRows(db)|
    ensures p in Pool(RowsParts(db, n)) <==> p < db.pageCount && InRows(db, n, p)
  {
    if n > 0 {
      RowsPartsMembers(db, n - 1, p);
      RowPartsMembers(db, ListedRows(db)[n - 1], p);
      PoolConcat(RowsParts(db, n - 1), RowParts(db, ListedRows(db)[n - 1]));
      assert InRows(db, n, p) <==> InRows(db, n - 1, p) || InRow(db, ListedRows(db)[n - 1], p);
    }
  }

  lemma PartsMembers(db: Database, p: nat)
    ensures p in Pool(Parts(db)) <==> p < db.pageCount && Accounted(db, p)
  {
    var n := |ListedRows(db)|;
    RowsPartsMembers(db, n, p);
    PoolConcat(CatalogParts(db) + RowsParts(db, n), [FreePages(db)]);
    PoolConcat(CatalogParts(db), RowsParts(db, n));
  }

  /** Nothing but pages of the file after the header is in any part. */
  lemma AccountedInFile(db: Database, p: nat)
    requires CleanDatabase(db) && Confined(db) && p < db.pageCount && Accounted(db, p)
    ensures 0 < p
  {
    if InCatalog(db, p) {
      CleanTreeInFile(db, db.rootCatalog, p);
    } else if InRows(db, |ListedRows(db)|, p) {
      var i :| 0 <= i < |ListedRows(db)| && InRow(db, ListedRows(db)[i], p);
      var row := ListedRows(db)[i];
      assert CleanRow(db, row);
      if Reachable(db.pages, row.primary.root, p) {
        CleanTreeInFile(db, row.primary.root, p);
      } else {
        var j :| 0 <= j < |row.indexes| && row.indexes[j].status.Active? &&
            Reachable(db.pages, row.indexes[j].tree.root, p);
        assert CleanIndex(db, row, row.indexes[j]);
        CleanTreeInFile(db, row.indexes[j].tree.root, p);
      }
    } else {
      var n :| Chain(db.pages, db.pageCount, db.freelistHead, n) &&
          p in ChainPages(db.pages, db.pageCount, db.freelistHead, n);
      ChainInFile(db.pages, db.pageCount, db.freelistHead, n, p);
    }
  }

  /** Of a clean database, the count of pages checked equals the page count if and
      only if no page is in two trees, or in a tree and the freelist. */
  lemma PagesCheckedTells(db: Database)
    requires CleanDatabase(db) && Confined(db) && db.pageCount > 0
    ensures 1 + Total(Parts(db)) >= db.pageCount
    ensures 1 + Total(Parts(db)) == db.pageCount <==> PairwiseDisjoint(Parts(db))
  {
    forall p: nat ensures p in Pool(Parts(db)) <==> p in Below(db.pageCount) {
      PartsMembers(db, p);
      if p < db.pageCount && Accounted(db, p) { AccountedInFile(db, p); }
    }
    assert Pool(Parts(db)) == Below(db.pageCount);
    TotalTells(Parts(db));
  }

  lemma SharedPartsOverlap(db: Database, p: nat)
    requires CleanDatabase(db) && Confined(db) && |ListedRows(db)| == 2 && p < db.pageCount
    requires Reachable(db.pages, ListedRows(db)[0].primary.root, p)
    requires Reachable(db.pages, ListedRows(db)[1].primary.root, p)
    ensures 1 + Total(Parts(db)) > db.pageCount
  {
    var c, a, b := CatalogParts(db), RowParts(db, ListedRows(db)[0]), RowParts(db, ListedRows(db)[1]);
    assert RowsParts(db, 0) == [] && RowsParts(db, 1) == a && RowsParts(db, 2) == a + b;
    assert Parts(db)[|c|] == a[0] && Parts(db)[|c| + |a|] == b[0];
    assert p in a[0] * b[0];
    PagesCheckedTells(db);
  }

  const LEAF := Sealed(Some(Node(Leaf, 0, [], [])), None)
  const EMPTY_TREE := StoredTree(2, [], None)
  const SHARED_ROWS := [CollectionRow("a", EMPTY_TREE, []), CollectionRow("b", EMPTY_TREE, [])]

  /** Reachability is pooled over all trees, so a page shared by two of them goes
      unreported: two collections on one root page pass. Only the count shows it. */
  lemma SharedTreePasses() returns (db: Database)
    ensures CleanDatabase(db) && Confined(db)
    ensures |ListedRows(db)| == 2 && ListedRows(db)[0].name != ListedRows(db)[1].name
    ensures ListedRows(db)[0].primary.root == ListedRows(db)[1].primary.root
    ensures 1 + Total(Parts(db)) > db.pageCount
  {
    db := Database(p => if p < 3 then LEAF else ReadFails(InvalidArgument), 3, 1, 0, Rows(SHARED_ROWS));
    LeafIsCleanTree(db.pages, 1);
    LeafIsCleanTree(db.pages, 2);
    assert Chain(db.pages, 3, 0, 0);
    assert ListedRows(db) == SHARED_ROWS;
    forall i | 0 <= i < 2 ensures CleanRow(db, SHARED_ROWS[i]) {
      EmptyRowIsClean(db, SHARED_ROWS[i]);
    }
    assert InRow(db, ListedRows(db)[0], 2);
    SharedPartsOverlap(db, 2);
  }

  lemma EmptyRowIsClean(db: Database, row: CollectionRow)
    requires InFile(db, row.primary.root) && CleanTree(db.pages, row.primary.root)
    requires row.indexes == [] && row.primary.stop.None?
    ensures CleanRow(db, row)
  {}
}
