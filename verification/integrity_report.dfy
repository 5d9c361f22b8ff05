/** What the integrity check is to report of any database, damaged ones included, and
    how the findings of its parts add up to that. */
module IntegrityReport {
  import opened ByteOrder
  import opened Outcomes
  import opened OrderedMap
  import opened IndexMaint
  import opened PageWalk
  import opened FreelistWalk
  import opened CrossCheck

  /** What reading the catalog's rows gives. A corrupt catalog yields no rows and
      no failure of its own. */
  datatype CatalogListing = Rows(rows: seq<CollectionRow>) | RowsCorrupt | RowsFail(error: Error)

  datatype Database = Database(pages: Pages, pageCount: nat, rootCatalog: nat, freelistHead: nat,
          catalog: CatalogListing)

  predicate InFile(db: Database, root: nat) {
    0 < root < db.pageCount
  }

  function ListedRows(db: Database): seq<CollectionRow> {
    if db.rootCatalog != 0 && db.catalog.Rows? then db.catalog.rows else []
  }

  // ---- What there is to report ----

  /** The trees that are walked, under the labels they are reported by. */
  datatype Tree = Tree(name: string, root: nat)

  predicate CatalogTree(db: Database, t: Tree) {
    t == Tree("catalog", db.rootCatalog) && InFile(db, db.rootCatalog)
  }

  predicate PrimaryTree(db: Database, row: CollectionRow, t: Tree) {
    t == Tree("primary:" + row.name, row.primary.root) && InFile(db, row.primary.root)
  }

  predicate IndexTree(db: Database, row: CollectionRow, ix: IndexRow, t: Tree) {
    ix.status.Active? && t == Tree("index:" + row.name + "." + ix.name, ix.tree.root) && InFile(db, ix.tree.root)
  }

  predicate RowTree(db: Database, row: CollectionRow, t: Tree) {
    PrimaryTree(db, row, t) || exists i | 0 <= i < |row.indexes| :: IndexTree(db, row, row.indexes[i], t)
  }

  predicate WalkedTree(db: Database, t: Tree) {
    CatalogTree(db, t) || exists i | 0 <= i < |ListedRows(db)| :: RowTree(db, ListedRows(db)[i], t)
  }

  /** Roots outside the file, by name and page. */
  predicate DanglingRoot(db: Database, row: CollectionRow, f: Failure) {
    || (f == DanglingCatalogPointer(row.name, None, row.primary.root) && !InFile(db, row.primary.root))
    || DanglingAmong(db, row, |row.indexes|, f)
  }

  predicate DanglingAmong(db: Database, row: CollectionRow, n: nat, f: Failure)
    requires n <= |row.indexes|
  {
    exists i | 0 <= i < n :: DanglingIndex(db, row, row.indexes[i], f)
  }

  predicate DanglingIndex(db: Database, row: CollectionRow, ix: IndexRow, f: Failure) {
    && ix.status.Active? && !InFile(db, ix.tree.root)
    && f == DanglingCatalogPointer(row.name, Some(ix.name), ix.tree.root)
  }

  /** A primary id that no entry of the index names. */
  predicate MissingEntry(collection: string, ix: IndexRow, ids: set<Bytes>, f: Failure) {
    && f.MissingIndexEntry? && f.collection == collection && f.index == ix.name
    && !ix.kind.Each? && f.id in ids
    && (ix.tree.root == 0 || forall e | e in ix.tree.entries :: !Names(ix.kind, e, f.id))
  }

  ghost predicate IndexFault(row: CollectionRow, ix: IndexRow, f: Failure) {
    var ids := PrimaryIds(row.primary);
    ix.status.Active? && (EntryFault(row.name, ix, ids, f) || MissingEntry(row.name, ix, ids, f))
  }

  ghost predicate RowFault(db: Database, row: CollectionRow, f: Failure) {
    DanglingRoot(db, row, f) || SomeIndexFault(row, f)
  }

  ghost predicate SomeIndexFault(row: CollectionRow, f: Failure) {
    exists i | 0 <= i < |row.indexes| :: IndexFault(row, row.indexes[i], f)
  }

  predicate DanglingCatalog(db: Database, f: Failure) {
    db.rootCatalog >= db.pageCount && db.rootCatalog != 0 &&
    f == DanglingCatalogPointer("<catalog>", None, db.rootCatalog)
  }

  /** What is wrong besides the pages of the trees. */
  ghost predicate OtherFault(db: Database, f: Failure) {
    || DanglingCatalog(db, f)
    || (exists i | 0 <= i < |ListedRows(db)| :: RowFault(db, ListedRows(db)[i], f))
    || ListFault(db.pages, db.pageCount, db.freelistHead, f)
  }

  /** What is wrong with the pages of a tree. */
  ghost predicate TreeFault(db: Database, f: Failure) {
    exists t :: WalkedTree(db, t) && Faulty(db.pages, t.name, t.root, f)
  }

  /** A page of the file that no tree and not the freelist leads to. */
  ghost predicate Unaccounted(db: Database, p: nat) {
    && InFile(db, p) && !OnList(db.pages, db.pageCount, db.freelistHead, p)
    && forall t | WalkedTree(db, t) :: !Reachable(db.pages, t.root, p)
  }

  /** Everything that is to be reported. */
  ghost predicate Wrong(db: Database, f: Failure) {
    TreeFault(db, f) || OtherFault(db, f) || (f.OrphanPage? && Unaccounted(db, f.page))
  }

  // ---- What can keep the check from completing ----

  ghost predicate TreeUnreadable(db: Database, root: nat, e: Error) {
    exists p :: Reachable(db.pages, root, p) && db.pages(p) == ReadFails(e)
  }

  predicate ScanUnreadable<V>(t: StoredTree<V>, e: Error) {
    t.root != 0 && t.stop == Some(Failed(e))
  }

  ghost predicate RowUnreadable(db: Database, row: CollectionRow, e: Error) {
    || ScanUnreadable(row.primary, e)
    || (exists i | 0 <= i < |row.indexes| && row.indexes[i].status.Active? :: ScanUnreadable(row.indexes[i].tree, e))
    || exists t | RowTree(db, row, t) :: TreeUnreadable(db, t.root, e)
  }

  ghost predicate Unreadable(db: Database, e: Error) {
    || (InFile(db, db.rootCatalog) && TreeUnreadable(db, db.rootCatalog, e))
    || (db.rootCatalog != 0 && db.catalog == RowsFail(e))
    || (exists i | 0 <= i < |ListedRows(db)| :: RowUnreadable(db, ListedRows(db)[i], e))
    || ListUnreadable(db.pages, db.pageCount, db.freelistHead, e)
  }

  // ---- How findings add up ----

  /** The failures found on the way are those before and the ones of a kind given. */
  ghost predicate Adds(before: seq<Failure>, after: seq<Failure>, more: iset<Failure>) {
    before <= after && forall f :: f in after <==> f in before || f in more
  }

  /** A report explained by the trees walked and what else was found: tree reports are
      of faults or of a walk cut short, and none is missing unless one was. */
  ghost predicate Explains(db: Database, failures: seq<Failure>, reachable: set<nat>, trees: iset<Tree>,
          others: iset<Failure>, listed: iset<nat>) {
    && (forall f | f in failures :: f in others || f.BTreeDepthExceeded? || FaultyIn(db, trees, f))
    && (forall f | f in others :: f in failures)
    && (forall p | p in reachable :: p in listed || ReachedIn(db, trees, p))
    && (forall p | p in listed :: p in reachable)
    && (!CutShort(failures) ==>
          && (forall f | FaultyIn(db, trees, f) :: f in failures)
          && (forall p | ReachedIn(db, trees, p) :: p in reachable))
  }

  ghost predicate FaultyIn(db: Database, trees: iset<Tree>, f: Failure) {
    exists t | t in trees :: Faulty(db.pages, t.name, t.root, f)
  }

  ghost predicate ReachedIn(db: Database, trees: iset<Tree>, p: nat) {
    exists t | t in trees :: Reachable(db.pages, t.root, p)
  }

  lemma CutShortStays(before: seq<Failure>, after: seq<Failure>)
    requires before <= after && CutShort(before)
    ensures CutShort(after)
  {
    var i :| 0 <= i < |before| && before[i].BTreeDepthExceeded?;
    assert after[i] == before[i];
  }

  lemma CutShortIn(fs: seq<Failure>)
    ensures CutShort(fs) <==> exists f :: f in fs && f.BTreeDepthExceeded?
  {}

  lemma NothingExplained(db: Database)
    ensures Explains(db, [], {}, iset{}, iset{}, iset{})
  {}

  lemma ExplainOthers(db: Database, before: seq<Failure>, after: seq<Failure>, reachable: set<nat>, trees: iset<Tree>,
          others: iset<Failure>, listed: iset<nat>, more: iset<Failure>)
    requires Explains(db, before, reachable, trees, others, listed) && Adds(before, after, more)
    ensures Explains(db, after, reachable, trees, others + more, listed)
  {
    if CutShort(before) { CutShortStays(before, after); }
  }

  lemma ExplainTree(db: Database, before: seq<Failure>, found: seq<Failure>, reachable: set<nat>, visited: set<nat>,
          trees: iset<Tree>, others: iset<Failure>, listed: iset<nat>, t: Tree)
    requires Explains(db, before, reachable, trees, others, listed)
    requires ReportsFaults(db.pages, t.name, t.root, found) && AllReachable(db.pages, t.root, visited)
    requires !CutShort(found) ==>
               && (forall p :: Reachable(db.pages, t.root, p) <==> p in visited)
               && forall f | Faulty(db.pages, t.name, t.root, f) :: f in found
    ensures Explains(db, before + found, reachable + visited, trees + iset{t}, others, listed)
  {
    var after, trees' := before + found, trees + iset{t};
    forall f ensures FaultyIn(db, trees', f) <==> FaultyIn(db, trees, f) || Faulty(db.pages, t.name, t.root, f) {
      OneMoreTree(db, trees, t, f, 0);
    }
    forall p ensures ReachedIn(db, trees', p) <==> ReachedIn(db, trees, p) || Reachable(db.pages, t.root, p) {
      OneMoreTree(db, trees, t, OrphanPage(0), p);
    }
    CutShortIn(before);
    CutShortIn(found);
    CutShortIn(after);
  }

  lemma OneMoreTree(db: Database, trees: iset<Tree>, t: Tree, f: Failure, p: nat)
    ensures FaultyIn(db, trees + iset{t}, f) <==> FaultyIn(db, trees, f) || Faulty(db.pages, t.name, t.root, f)
    ensures ReachedIn(db, trees + iset{t}, p) <==> ReachedIn(db, trees, p) || Reachable(db.pages, t.root, p)
  {
    assert t in trees + iset{t} && forall u | u in trees :: u in trees + iset{t};
  }

  lemma ExplainList(db: Database, before: seq<Failure>, found: seq<Failure>, reachable: set<nat>, seen: set<nat>,
          trees: iset<Tree>, others: iset<Failure>, listed: iset<nat>, more: iset<Failure>)
    requires Explains(db, before, reachable, trees, others, listed) && forall f :: f in found <==> f in more
    ensures Explains(db, before + found, reachable + seen, trees, others + more, listed + iset p | p in seen)
  {
    ExplainOthers(db, before, before + found, reachable, trees, others, listed, more);
  }

  ghost function AllTrees(db: Database): iset<Tree> {
    iset t | WalkedTree(db, t)
  }

  ghost function ListPages(db: Database): iset<nat> {
    iset p | OnList(db.pages, db.pageCount, db.freelistHead, p)
  }

  ghost function ListFaults(db: Database): iset<Failure> {
    iset f | ListFault(db.pages, db.pageCount, db.freelistHead, f)
  }

  ghost function AllOthers(db: Database): iset<Failure> {
    iset f | OtherFault(db, f)
  }

  ghost function OrphansOutside(db: Database, reachable: set<nat>): iset<Failure> {
    iset f: Failure | f.OrphanPage? && InFile(db, f.page) && f.page !in reachable
  }

  /** What the whole report comes to, once all trees and parts have been gone through and
      the pages not reached have been added. */
  lemma ReportTells(db: Database, before: seq<Failure>, after: seq<Failure>, reachable: set<nat>)
    requires Explains(db, before, reachable, AllTrees(db), AllOthers(db), ListPages(db))
    requires Adds(before, after, OrphansOutside(db, reachable))
    ensures !CutShort(after) ==> forall f :: f in after <==> Wrong(db, f)
    ensures forall f | f in after ::
              TreeFault(db, f) || OtherFault(db, f) || f.BTreeDepthExceeded? || (f.OrphanPage? && InFile(db, f.page))
    ensures forall f | OtherFault(db, f) || (f.OrphanPage? && Unaccounted(db, f.page)) :: f in after
  {
    var trees := AllTrees(db);
    if CutShort(before) { CutShortStays(before, after); }
    forall f ensures FaultyIn(db, trees, f) <==> TreeFault(db, f) {
      if t :| WalkedTree(db, t) && Faulty(db.pages, t.name, t.root, f) { assert t in trees; }
    }
    forall p: nat | InFile(db, p)
      ensures Unaccounted(db, p) <==>
                !OnList(db.pages, db.pageCount, db.freelistHead, p) && !ReachedIn(db, trees, p)
    {
      if t :| WalkedTree(db, t) && Reachable(db.pages, t.root, p) { assert t in trees; }
    }
  }
}
