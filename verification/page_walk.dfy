/** The page-level half of the integrity check: the B-tree worklist walk and the
    freelist chain walk, over an arbitrary page graph. */
module PageWalk {
  import opened ByteOrder
  import opened Outcomes
  import opened OrderedMap

  const MAX_BTREE_DEPTH: nat := 32
  const MAX_RANGE_NODES: nat := 1_000_000

  datatype NodeKind = Leaf | Internal

  /** A decoded tree node. A child pointer of 0 points nowhere. */
  datatype Node = Node(kind: NodeKind, level: nat, keys: seq<Bytes>, children: seq<nat>)

  /** What reading a page gives: an error naming some page as corrupt, another
      error, or bytes that may carry a valid trailer and may decode as a tree node
      or as a freelist link. */
  datatype PageState =
    | ReadsCorrupt(reported: nat)
    | ReadFails(error: Error)
    | BadTrailer
    | Sealed(node: Option<Node>, link: Option<nat>)

  type Pages = nat -> PageState

  datatype Failure =
    | ChecksumMismatch(page: nat)
    | BTreeSortViolation(page: nat)
    | BTreeLevelInvariantViolated(tree: string, page: nat)
    | BTreeSiblingChainBroken(tree: string, page: nat)
    | BTreeDepthExceeded(tree: string, limit: nat)
    | FreelistChainBroken(page: nat)
    | DanglingCatalogPointer(collection: string, within: Option<string>, page: nat)
    | OrphanIndexEntry(collection: string, index: string, id: Bytes)
    | MissingIndexEntry(collection: string, index: string, id: Bytes)
    | OrphanPage(page: nat)

  // ---- The graph ----

  function NonZero(children: seq<nat>): (kids: seq<nat>) {
    if children == [] then []
    else NonZero(children[..|children| - 1]) + if children[|children| - 1] == 0 then [] else [children[|children| - 1]]
  }

  predicate Decodes(pages: Pages, p: nat) {
    pages(p).Sealed? && pages(p).node.Some?
  }

  /** The pages a node points at. */
  function Kids(pages: Pages, p: nat): seq<nat> {
    if Decodes(pages, p) && pages(p).node.value.kind.Internal? then NonZero(pages(p).node.value.children) else []
  }

  /** A descent is the sequence of child positions taken from the root. */
  type Descent = seq<nat>

  function Follow(pages: Pages, root: nat, d: Descent): Option<nat> {
    if d == [] then Some(root) else
    var last := |d| - 1;
    var parent := Follow(pages, root, d[..last]);
    if parent.Some? && d[last] < |Kids(pages, parent.value)| then Some(Kids(pages, parent.value)[d[last]]) else None
  }

  predicate Leads(pages: Pages, root: nat, d: Descent, p: nat) {
    Follow(pages, root, d) == Some(p)
  }

  ghost predicate Reachable(pages: Pages, root: nat, p: nat) {
    exists d :: Leads(pages, root, d, p)
  }

  predicate KeysAscend(keys: seq<Bytes>) {
    forall i | 0 < i < |keys| :: Less(keys[i - 1], keys[i])
  }

  predicate LevelOk(node: Node) {
    if node.kind.Leaf? then node.level == 0 else node.level > 0
  }

  predicate GoodPage(pages: Pages, p: nat) {
    Decodes(pages, p) && KeysAscend(pages(p).node.value.keys) && LevelOk(pages(p).node.value)
  }

  // ---- What the walk is for ----

  ghost predicate AllReachable(pages: Pages, root: nat, ps: set<nat>) {
    forall p | p in ps :: Reachable(pages, root, p)
  }

  ghost predicate OneWayDown(pages: Pages, root: nat) {
    forall d, e, p | Leads(pages, root, d, p) && Leads(pages, root, e, p) :: d == e
  }

  ghost predicate Shallow(pages: Pages, root: nat) {
    forall d | Follow(pages, root, d).Some? :: |d| <= MAX_BTREE_DEPTH
  }

  ghost predicate Small(pages: Pages, root: nat) {
    forall ps: set<nat> | AllReachable(pages, root, ps) :: |ps| <= MAX_RANGE_NODES
  }

  ghost predicate AllGood(pages: Pages, root: nat) {
    forall d, p | Leads(pages, root, d, p) :: GoodPage(pages, p)
  }

  /** The pages below a root form a tree: one way down to each, within the depth
      and size limits, every node in order. */
  ghost predicate CleanTree(pages: Pages, root: nat) {
    OneWayDown(pages, root) && Shallow(pages, root) && Small(pages, root) && AllGood(pages, root)
  }

  /** A failure report is about something that is there. */
  ghost predicate Justified(pages: Pages, root: nat, f: Failure) {
    match f
    case ChecksumMismatch(page) =>
      exists p :: Reachable(pages, root, p) && !Decodes(pages, p) && (page == p || pages(p) == ReadsCorrupt(page))
    case BTreeSortViolation(p) => Reachable(pages, root, p) && Decodes(pages, p) &&
        !KeysAscend(pages(p).node.value.keys)
    case BTreeLevelInvariantViolated(_, p) => Reachable(pages, root, p) && Decodes(pages, p) &&
        !LevelOk(pages(p).node.value)
    case BTreeSiblingChainBroken(_, p) => exists d, e :: Leads(pages, root, d, p) && Leads(pages, root, e, p) && d != e
    case BTreeDepthExceeded(_, limit) =>
      || (limit == MAX_BTREE_DEPTH && exists d :: Follow(pages, root, d).Some? && |d| > MAX_BTREE_DEPTH)
      || (limit == MAX_RANGE_NODES && exists ps: set<nat> :: AllReachable(pages, root, ps) && |ps| > MAX_RANGE_NODES)
    case _ => false
  }

  lemma CleanTreeHasNoFailure(pages: Pages, root: nat, f: Failure)
    requires CleanTree(pages, root)
    ensures !Justified(pages, root, f)
  {
    if f.ChecksumMismatch? || f.BTreeSortViolation? || f.BTreeLevelInvariantViolated? {
      forall p | Reachable(pages, root, p) ensures GoodPage(pages, p) {}
    }
  }

  // ---- The worklist and its ghost descents ----

  predicate QueueLeads(pages: Pages, root: nat, queue: seq<(nat, nat)>, ds: seq<Descent>) {
    && |ds| == |queue|
    && forall i | 0 <= i < |ds| :: Leads(pages, root, ds[i], queue[i].0) && |ds[i]| == queue[i].1
  }

  predicate Antichain(ds: seq<Descent>) {
    forall i, j | 0 <= i < |ds| && 0 <= j < |ds| && i != j :: !(ds[i] <= ds[j])
  }

  /** Nothing queued lies on the way to a page already visited. */
  predicate Ahead(ds: seq<Descent>, done: map<nat, Descent>) {
    forall i, p | 0 <= i < |ds| && p in done :: !(ds[i] <= done[p])
  }

  predicate DoneLeads(pages: Pages, root: nat, done: map<nat, Descent>) {
    forall p | p in done :: Leads(pages, root, done[p], p)
  }

  predicate Queued(ds: seq<Descent>, d: Descent) {
    exists i | 0 <= i < |ds| :: ds[i] <= d
  }

  predicate Visited(pages: Pages, root: nat, done: map<nat, Descent>, d: Descent) {
    var p := Follow(pages, root, d);
    p.Some? && p.value in done && done[p.value] == d
  }

  /** Every descent has been walked or passes through the queue. */
  ghost predicate Covered(pages: Pages, root: nat, ds: seq<Descent>, done: map<nat, Descent>) {
    forall d | Follow(pages, root, d).Some? :: Visited(pages, root, done, d) || Queued(ds, d)
  }

  function Extensions(d: Descent, n: nat): (ds: seq<Descent>)
    ensures |ds| == n && forall k | 0 <= k < n :: ds[k] == d + [k]
  {
    seq(n, k requires 0 <= k < n => d + [k])
  }

  lemma {:induction false} PrefixFollows(pages: Pages, root: nat, d: Descent, n: nat)
    requires n <= |d| && Follow(pages, root, d).Some?
    ensures Follow(pages, root, d[..n]).Some?
  {
    if n == |d| {
      assert d[..n] == d;
    } else {
      PrefixFollows(pages, root, d[..|d| - 1], n);
      assert d[..|d| - 1][..n] == d[..n];
    }
  }

  lemma ExtensionLeads(pages: Pages, root: nat, d: Descent, p: nat, k: nat)
    requires Leads(pages, root, d, p)
    ensures Follow(pages, root, d + [k]) == if k < |Kids(pages, p)| then Some(Kids(pages, p)[k]) else None
  {
    assert (d + [k])[..|d|] == d;
  }

  lemma PushAntichain(ds: seq<Descent>, d: Descent, n: nat)
    requires Antichain(ds + [d])
    ensures Antichain(ds + Extensions(d, n))
  {
    var was, next := ds + [d], ds + Extensions(d, n);
    assert was[|ds|] == d;
    forall i, j | 0 <= i < |next| && 0 <= j < |next| && i != j ensures !(next[i] <= next[j]) {
      if i < |ds| {
        assert was[i] == next[i] && !(was[i] <= was[|ds|]) && !(was[|ds|] <= was[i]);
      }
      if j < |ds| {
        assert was[j] == next[j] && !(was[|ds|] <= was[j]);
      }
      if i < |ds| <= j {
        if next[i] <= next[j] { PrefixOfExtension(next[i], d, j - |ds|); }
      } else if |ds| <= i && |ds| <= j {
        assert next[i][|d|] != next[j][|d|];
      }
    }
  }

  lemma PrefixOfExtension(a: Descent, d: Descent, k: nat)
    requires a <= d + [k]
    ensures a <= d || d <= a
  {}

  lemma PushAhead(ds: seq<Descent>, d: Descent, n: nat, done: map<nat, Descent>, p: nat)
    requires Antichain(ds + [d]) && Ahead(ds + [d], done)
    ensures Ahead(ds + Extensions(d, n), done[p := d])
  {
    var was, next, done' := ds + [d], ds + Extensions(d, n), done[p := d];
    assert was[|ds|] == d;
    forall i, q | 0 <= i < |next| && q in done' ensures !(next[i] <= done'[q]) {
      if i < |ds| {
        assert was[i] == next[i] && !(was[i] <= was[|ds|]);
      }
    }
  }

  lemma PushLeads(pages: Pages, root: nat, queue: seq<(nat, nat)>, ds: seq<Descent>, d: Descent, p: nat)
    requires QueueLeads(pages, root, queue, ds) && Leads(pages, root, d, p)
    ensures QueueLeads(pages, root, queue + Entries(Kids(pages, p), |d| + 1), ds + Extensions(d, |Kids(pages, p)|))
  {
    var kids := Kids(pages, p);
    var n := |kids|;
    var next, nextDs := queue + Entries(kids, |d| + 1), ds + Extensions(d, n);
    forall i | 0 <= i < |nextDs| ensures Leads(pages, root, nextDs[i], next[i].0) && |nextDs[i]| == next[i].1 {
      if i < |ds| {
        assert nextDs[i] == ds[i] && next[i] == queue[i];
      } else {
        ExtensionLeads(pages, root, d, p, i - |ds|);
        assert nextDs[i] == d + [i - |ds|] && next[i] == (kids[i - |ds|], |d| + 1);
      }
    }
  }

  /** A descent through d is d or goes through one of its extensions. */
  lemma BeyondGoesThroughKid(pages: Pages, root: nat, d: Descent, p: nat, e: Descent)
    requires Leads(pages, root, d, p) && d <= e && Follow(pages, root, e).Some?
    ensures e == d || Queued(Extensions(d, |Kids(pages, p)|), e)
  {
    if e != d {
      var k := e[|d|];
      assert e[..|d| + 1] == d + [k];
      PrefixFollows(pages, root, e, |d| + 1);
      ExtensionLeads(pages, root, d, p, k);
      assert Extensions(d, |Kids(pages, p)|)[k] <= e;
    }
  }

  lemma QueuedInPart(a: seq<Descent>, b: seq<Descent>, e: Descent)
    ensures Queued(a + b, e) <==> Queued(a, e) || Queued(b, e)
  {
    if i :| 0 <= i < |a| && a[i] <= e { assert (a + b)[i] <= e; }
    if i :| 0 <= i < |b| && b[i] <= e { assert (a + b)[|a| + i] <= e; }
  }

  lemma PushCovers(pages: Pages, root: nat, ds: seq<Descent>, d: Descent, done: map<nat, Descent>, p: nat)
    requires Covered(pages, root, ds + [d], done) && Leads(pages, root, d, p) && p !in done
    ensures Covered(pages, root, ds + Extensions(d, |Kids(pages, p)|), done[p := d])
  {
    var n, done' := |Kids(pages, p)|, done[p := d];
    forall e: Descent | Follow(pages, root, e).Some?
      ensures Visited(pages, root, done', e) || Queued(ds + Extensions(d, n), e)
    {
      QueuedInPart(ds, [d], e);
      QueuedInPart(ds, Extensions(d, n), e);
      if Queued([d], e) {
        BeyondGoesThroughKid(pages, root, d, p, e);
      }
    }
  }

  function Entries(kids: seq<nat>, depth: nat): (es: seq<(nat, nat)>)
    ensures |es| == |kids| && forall k | 0 <= k < |kids| :: es[k] == (kids[k], depth)
  {
    seq(|kids|, k requires 0 <= k < |kids| => (kids[k], depth))
  }

  method PushChildren(queue: seq<(nat, nat)>, children: seq<nat>, depth: nat) returns (q: seq<(nat, nat)>)
    ensures q == queue + Entries(NonZero(children), depth)
  {
    q := queue;
    for i := 0 to |children|
      invariant q == queue + Entries(NonZero(children[..i]), depth)
    {
      assert children[..i + 1][..i] == children[..i];
      if children[i] != 0 {
        q := q + [(children[i], depth)];
      }
    }
    assert children[..|children|] == children;
  }

  // ---- One node ----

  /** What validating one page adds to the report. */
  function NodeFailures(pages: Pages, tree: string, p: nat): (fs: seq<Failure>) {
    match pages(p)
    case ReadsCorrupt(reported) => [ChecksumMismatch(reported)]
    case ReadFails(_) => []
    case BadTrailer => [ChecksumMismatch(p)]
    case Sealed(None, _) => [ChecksumMismatch(p)]
    case Sealed(Some(node), _) =>
      (if KeysAscend(node.keys) then [] else [BTreeSortViolation(p)]) +
      (if LevelOk(node) then [] else [BTreeLevelInvariantViolated(tree, p)])
  }

  lemma NodeFailuresJustified(pages: Pages, root: nat, tree: string, p: nat)
    requires Reachable(pages, root, p)
    ensures forall f | f in NodeFailures(pages, tree, p) :: Justified(pages, root, f)
    ensures NodeFailures(pages, tree, p) == [] && !pages(p).ReadFails? ==> GoodPage(pages, p)
  {}

  method VerifySortInvariant(p: nat, keys: seq<Bytes>) returns (found: seq<Failure>)
    ensures found == if KeysAscend(keys) then [] else [BTreeSortViolation(p)]
  {
    for i := 0 to |keys|
      invariant forall j | 0 < j < i :: Less(keys[j - 1], keys[j])
    {
      if i > 0 && !Less(keys[i - 1], keys[i]) {
        return [BTreeSortViolation(p)];
      }
    }
    return [];
  }

  method ReadAndValidateNode(pages: Pages, tree: string, p: nat) returns (r: Result<Option<Node>>, found: seq<Failure>)
    ensures found == NodeFailures(pages, tree, p)
    ensures r == if pages(p).ReadFails? then Err(pages(p).error)
              else Ok(if Decodes(pages, p) then pages(p).node else None)
  {
    match pages(p) {
      case ReadsCorrupt(reported) => return Ok(None), [ChecksumMismatch(reported)];
      case ReadFails(e) => return Err(e), [];
      case BadTrailer => return Ok(None), [ChecksumMismatch(p)];
      case Sealed(None, _) => return Ok(None), [ChecksumMismatch(p)];
      case Sealed(Some(node), _) =>
        found := VerifySortInvariant(p, node.keys);
        if !LevelOk(node) {
          found := found + [BTreeLevelInvariantViolated(tree, p)];
        }
        return Ok(Some(node)), found;
    }
  }

  // ---- What the walk reports ----

  /** How a walk gets to a page: as the root, or as a child of another page. */
  datatype Entrance = AtRoot | Child(parent: nat, at: nat)

  ghost predicate Enters(pages: Pages, root: nat, e: Entrance, q: nat) {
    match e
    case AtRoot => q == root
    case Child(p, k) => Reachable(pages, root, p) && k < |Kids(pages, p)| && Kids(pages, p)[k] == q
  }

  ghost predicate MetTwice(pages: Pages, root: nat, q: nat) {
    exists a, b :: a != b && Enters(pages, root, a, q) && Enters(pages, root, b, q)
  }

  /** Something is wrong with a page below the root, or it is met a second time. */
  ghost predicate Faulty(pages: Pages, tree: string, root: nat, f: Failure) {
    || (exists p :: Reachable(pages, root, p) && f in NodeFailures(pages, tree, p))
    || (f.BTreeSiblingChainBroken? && f.tree == tree && MetTwice(pages, root, f.page))
  }

  /** A bound on depth or size ended some walk. */
  predicate CutShort(found: seq<Failure>) {
    exists i | 0 <= i < |found| :: found[i].BTreeDepthExceeded?
  }

  /** The descent is the root's or goes one step on from a page visited. */
  predicate Edge(done: map<nat, Descent>, d: Descent) {
    d == [] || exists p | p in done :: done[p] == d[..|d| - 1]
  }

  predicate Met(pages: Pages, tree: string, root: nat, ds: seq<Descent>, done: map<nat, Descent>, found: seq<Failure>,
          d: Descent) {
    || d in ds
    || (var q := Follow(pages, root, d);
        q.Some? && q.value in done && (done[q.value] == d || BTreeSiblingChainBroken(tree, q.value) in found))
  }

  /** Met by two edges among those from the pages visited. */
  ghost predicate TwoEdges(pages: Pages, root: nat, done: map<nat, Descent>, q: nat) {
    exists d, e :: d != e && Edge(done, d) && Edge(done, e) && Leads(pages, root, d, q) && Leads(pages, root, e, q)
  }

  ghost predicate Grounded(pages: Pages, tree: string, root: nat, done: map<nat, Descent>, f: Failure) {
    || (exists p | p in done :: f in NodeFailures(pages, tree, p))
    || (f.BTreeSiblingChainBroken? && f.tree == tree && TwoEdges(pages, root, done, f.page))
  }

  /** A walk that was cut short has one report of that besides. */
  ghost predicate AllGrounded(pages: Pages, tree: string, root: nat, done: map<nat, Descent>, found: seq<Failure>) {
    forall f | f in found :: Grounded(pages, tree, root, done, f) || (f.BTreeDepthExceeded? && f.tree == tree)
  }

  /** The report is what the pages visited and the edges from them call for. */
  ghost predicate Tallied(pages: Pages, tree: string, root: nat, ds: seq<Descent>, done: map<nat, Descent>,
          found: seq<Failure>) {
    && (forall d | d in ds :: Edge(done, d))
    && (forall p | p in done :: Edge(done, done[p]))
    && (forall d: Descent | Edge(done, d) && Follow(pages, root, d).Some? :: Met(pages, tree, root, ds, done, found, d))
    && (forall p, f | p in done && f in NodeFailures(pages, tree, p) :: f in found)
    && forall f | f in found :: Grounded(pages, tree, root, done, f)
  }

  lemma TallyStarts(pages: Pages, tree: string, root: nat)
    ensures Tallied(pages, tree, root, [[]], map[], [])
  {
    var ds: seq<Descent> := [[]];
    assert ds[0] in ds;
  }

  lemma EdgesGrow(done: map<nat, Descent>, p: nat, d: Descent, e: Descent)
    requires p !in done
    ensures Edge(done[p := d], e) <==> Edge(done, e) || (e != [] && e[..|e| - 1] == d)
  {
    var done' := done[p := d];
    if q :| q in done && e != [] && done[q] == e[..|e| - 1] { assert done'[q] == e[..|e| - 1]; }
    if e != [] && e[..|e| - 1] == d { assert done'[p] == e[..|e| - 1]; }
  }

  lemma GroundedStays(pages: Pages, tree: string, root: nat, done: map<nat, Descent>, p: nat, d: Descent, f: Failure)
    requires p !in done && Grounded(pages, tree, root, done, f)
    ensures Grounded(pages, tree, root, done[p := d], f)
  {
    var done' := done[p := d];
    if q :| q in done && f in NodeFailures(pages, tree, q) {
      assert q in done';
    } else if f.BTreeSiblingChainBroken? && f.tree == tree && TwoEdges(pages, root, done, f.page) {
      var a, b :| a != b && Edge(done, a) && Edge(done, b) && Leads(pages, root, a, f.page) &&
          Leads(pages, root, b, f.page);
      EdgesGrow(done, p, d, a);
      EdgesGrow(done, p, d, b);
    }
  }

  /** A page met again adds its report. */
  lemma TallySkip(pages: Pages, tree: string, root: nat, ds: seq<Descent>, d: Descent, done: map<nat, Descent>,
          found: seq<Failure>, p: nat)
    requires Tallied(pages, tree, root, ds + [d], done, found)
    requires Leads(pages, root, d, p) && p in done && Leads(pages, root, done[p], p) && done[p] != d
    ensures Tallied(pages, tree, root, ds, done, found + [BTreeSiblingChainBroken(tree, p)])
  {
    var f := BTreeSiblingChainBroken(tree, p);
    assert (ds + [d])[|ds|] == d && forall e :: e in ds + [d] <==> e in ds || e == d;
    forall e: Descent | Edge(done, e) && Follow(pages, root, e).Some?
      ensures Met(pages, tree, root, ds, done, found + [f], e)
    {
      assert Met(pages, tree, root, ds + [d], done, found, e);
    }
    assert TwoEdges(pages, root, done, p);
  }

  lemma EdgesFrom(done: map<nat, Descent>, p: nat, d: Descent, n: nat)
    requires p !in done
    ensures forall e | e in Extensions(d, n) :: Edge(done[p := d], e)
  {
    forall e | e in Extensions(d, n) ensures Edge(done[p := d], e) {
      EdgesGrow(done, p, d, e);
      assert e[..|e| - 1] == d;
    }
  }

  /** An edge once met is met still; those from the new page are queued. */
  lemma MetStill(pages: Pages, tree: string, root: nat, ds: seq<Descent>, d: Descent, done: map<nat, Descent>,
          found: seq<Failure>, p: nat, e: Descent)
    requires Leads(pages, root, d, p) && p !in done && Follow(pages, root, e).Some? && Edge(done[p := d], e)
    requires Edge(done, e) ==> Met(pages, tree, root, ds + [d], done, found, e)
    ensures Met(pages, tree, root, ds + Extensions(d, |Kids(pages, p)|), done[p := d],
              found + NodeFailures(pages, tree, p), e)
  {
    EdgesGrow(done, p, d, e);
    if Edge(done, e) {
      if e in ds + [d] && e != d { assert e in ds; }
    } else {
      assert e == d + [e[|d|]];
      ExtensionLeads(pages, root, d, p, e[|d|]);
      assert Extensions(d, |Kids(pages, p)|)[e[|d|]] == e;
    }
  }

  /** A page met for the first time adds its own failures and its children. */
  lemma TallyVisit(pages: Pages, tree: string, root: nat, ds: seq<Descent>, d: Descent, done: map<nat, Descent>,
          found: seq<Failure>, p: nat)
    requires Tallied(pages, tree, root, ds + [d], done, found)
    requires Leads(pages, root, d, p) && p !in done
    ensures Tallied(pages, tree, root, ds + Extensions(d, |Kids(pages, p)|), done[p := d],
              found + NodeFailures(pages, tree, p))
  {
    var done', ds', found' := done[p := d], ds + Extensions(d, |Kids(pages, p)|), found + NodeFailures(pages, tree, p);
    assert (ds + [d])[|ds|] == d && forall e | e in ds :: e in ds + [d];
    EdgesFrom(done, p, d, |Kids(pages, p)|);
    forall e | Edge(done, e) ensures Edge(done', e) { EdgesGrow(done, p, d, e); }
    forall e: Descent | Edge(done', e) && Follow(pages, root, e).Some?
      ensures Met(pages, tree, root, ds', done', found', e)
    {
      MetStill(pages, tree, root, ds, d, done, found, p, e);
    }
    forall f | f in found' ensures Grounded(pages, tree, root, done', f) {
      if f in found { GroundedStays(pages, tree, root, done, p, d, f); } else { assert p in done'; }
    }
  }

  /** What one page and one report more leave of it where the walk ends early. */
  lemma TallyStops(pages: Pages, tree: string, root: nat, ds: seq<Descent>, done: map<nat, Descent>,
          found: seq<Failure>, p: nat, d: Descent, limit: nat)
    requires Tallied(pages, tree, root, ds, done, found)
    ensures AllGrounded(pages, tree, root, done, found + [BTreeDepthExceeded(tree, limit)])
    ensures CutShort(found + [BTreeDepthExceeded(tree, limit)])
    ensures p !in done ==>
              && AllGrounded(pages, tree, root, done[p := d], found)
              && AllGrounded(pages, tree, root, done[p := d], found + [BTreeDepthExceeded(tree, limit)])
  {
    assert (found + [BTreeDepthExceeded(tree, limit)])[|found|].BTreeDepthExceeded?;
    if p !in done {
      forall f | f in found ensures Grounded(pages, tree, root, done[p := d], f) {
        GroundedStays(pages, tree, root, done, p, d, f);
      }
    }
  }

  /** The way in that an edge stands for. */
  function EntranceOf(pages: Pages, root: nat, d: Descent): Entrance
    requires Follow(pages, root, d).Some?
  {
    if d == [] then AtRoot else Child(Follow(pages, root, d[..|d| - 1]).value, d[|d| - 1])
  }

  lemma EdgeEnters(pages: Pages, root: nat, done: map<nat, Descent>, d: Descent, q: nat)
    requires DoneLeads(pages, root, done) && Edge(done, d) && Leads(pages, root, d, q)
    ensures Enters(pages, root, EntranceOf(pages, root, d), q)
  {
    if d != [] { assert Leads(pages, root, d[..|d| - 1], Follow(pages, root, d[..|d| - 1]).value); }
  }

  lemma EdgesApart(pages: Pages, root: nat, done: map<nat, Descent>, d: Descent, e: Descent)
    requires DoneLeads(pages, root, done) && Edge(done, d) && Edge(done, e)
    requires Follow(pages, root, d).Some? && Follow(pages, root, e).Some?
    requires EntranceOf(pages, root, d) == EntranceOf(pages, root, e)
    ensures d == e
  {
    if d != [] && e != [] {
      var p :| p in done && done[p] == d[..|d| - 1];
      var q :| q in done && done[q] == e[..|e| - 1];
      assert Leads(pages, root, done[p], p) && Leads(pages, root, done[q], q);
      assert d == d[..|d| - 1] + [d[|d| - 1]] && e == e[..|e| - 1] + [e[|e| - 1]];
    }
  }

  /** Whatever is reported is wrong. */
  lemma GroundedIsFaulty(pages: Pages, tree: string, root: nat, done: map<nat, Descent>, f: Failure)
    requires DoneLeads(pages, root, done) && Grounded(pages, tree, root, done, f)
    ensures Faulty(pages, tree, root, f)
  {
    if p :| p in done && f in NodeFailures(pages, tree, p) {
      assert Leads(pages, root, done[p], p);
      assert Reachable(pages, root, p);
    } else {
      var d, e :| d != e && Edge(done, d) && Edge(done, e) && Leads(pages, root, d, f.page) &&
          Leads(pages, root, e, f.page);
      EdgeEnters(pages, root, done, d, f.page);
      EdgeEnters(pages, root, done, e, f.page);
      if EntranceOf(pages, root, d) == EntranceOf(pages, root, e) { EdgesApart(pages, root, done, d, e); }
    }
  }

  /** With nothing left in the queue every reachable page has been visited. */
  lemma {:induction false} AllVisited(pages: Pages, tree: string, root: nat, done: map<nat, Descent>,
          found: seq<Failure>, d: Descent)
    requires DoneLeads(pages, root, done) && Tallied(pages, tree, root, [], done, found)
    requires Follow(pages, root, d).Some?
    ensures Follow(pages, root, d).value in done
    decreases |d|
  {
    if d == [] {
      assert Met(pages, tree, root, [], done, found, d);
    } else {
      AllVisited(pages, tree, root, done, found, d[..|d| - 1]);
      var p := Follow(pages, root, d[..|d| - 1]).value;
      var e := done[p] + [d[|d| - 1]];
      ExtensionLeads(pages, root, done[p], p, d[|d| - 1]);
      assert e[..|e| - 1] == done[p];
      assert Met(pages, tree, root, [], done, found, e);
    }
  }

  /** The edge that a way in comes from. */
  lemma EntranceEdge(pages: Pages, root: nat, done: map<nat, Descent>, a: Entrance, q: nat) returns (d: Descent)
    requires DoneLeads(pages, root, done) && Enters(pages, root, a, q)
    requires forall p | Reachable(pages, root, p) :: p in done
    ensures Edge(done, d) && Leads(pages, root, d, q) && EntranceOf(pages, root, d) == a
  {
    match a {
      case AtRoot => d := [];
      case Child(p, k) =>
        d := done[p] + [k];
        assert d[..|d| - 1] == done[p];
        ExtensionLeads(pages, root, done[p], p, k);
    }
  }

  /** Whatever is wrong is reported, once the queue is empty. */
  lemma TallyComplete(pages: Pages, tree: string, root: nat, done: map<nat, Descent>, found: seq<Failure>)
    requires DoneLeads(pages, root, done) && Tallied(pages, tree, root, [], done, found)
    ensures forall p :: Reachable(pages, root, p) <==> p in done
    ensures forall f | Faulty(pages, tree, root, f) :: f in found
  {
    forall p ensures Reachable(pages, root, p) <==> p in done {
      if p in done { assert Leads(pages, root, done[p], p); }
      if d :| Leads(pages, root, d, p) { AllVisited(pages, tree, root, done, found, d); }
    }
    forall f | Faulty(pages, tree, root, f) ensures f in found {
      if p :| Reachable(pages, root, p) && f in NodeFailures(pages, tree, p) {
      } else {
        SecondMeetingFound(pages, tree, root, done, found, f.page);
      }
    }
  }

  lemma SecondMeetingFound(pages: Pages, tree: string, root: nat, done: map<nat, Descent>, found: seq<Failure>, q: nat)
    requires DoneLeads(pages, root, done) && Tallied(pages, tree, root, [], done, found)
    requires forall p | Reachable(pages, root, p) :: p in done
    requires MetTwice(pages, root, q)
    ensures BTreeSiblingChainBroken(tree, q) in found
  {
    var a, b :| a != b && Enters(pages, root, a, q) && Enters(pages, root, b, q);
    var d := EntranceEdge(pages, root, done, a, q);
    var e := EntranceEdge(pages, root, done, b, q);
    assert Met(pages, tree, root, [], done, found, d) && Met(pages, tree, root, [], done, found, e);
  }

  /** Every report is of a fault in this tree, or that the walk was cut short. */
  ghost predicate ReportsFaults(pages: Pages, tree: string, root: nat, found: seq<Failure>) {
    forall f | f in found :: Faulty(pages, tree, root, f) || (f.BTreeDepthExceeded? && f.tree == tree)
  }

  lemma AllFaulty(pages: Pages, tree: string, root: nat, done: map<nat, Descent>, found: seq<Failure>)
    requires DoneLeads(pages, root, done) && AllGrounded(pages, tree, root, done, found)
    ensures ReportsFaults(pages, tree, root, found)
  {
    forall f | f in found && !(f.BTreeDepthExceeded? && f.tree == tree) ensures Faulty(pages, tree, root, f) {
      GroundedIsFaulty(pages, tree, root, done, f);
    }
  }

  // ---- The walk ----

  /** What holds whenever the walk looks at its queue, whatever it met before. */
  ghost predicate Walking(pages: Pages, root: nat, queue: seq<(nat, nat)>, ds: seq<Descent>, done: map<nat, Descent>) {
    QueueLeads(pages, root, queue, ds) && Antichain(ds) && Ahead(ds, done) && DoneLeads(pages, root, done)
  }

  /** What holds as long as nothing has been reported. */
  ghost predicate CleanSoFar(pages: Pages, root: nat, ds: seq<Descent>, done: map<nat, Descent>) {
    && Covered(pages, root, ds, done)
    && forall p | p in done :: GoodPage(pages, p) && |done[p]| <= MAX_BTREE_DEPTH
  }

  lemma WalkStarts(pages: Pages, root: nat)
    ensures Walking(pages, root, [(root, 0)], [[]], map[]) && CleanSoFar(pages, root, [[]], map[])
  {
    forall d: Descent ensures Queued([[]], d) {
      var ds: seq<Descent> := [[]];
      assert ds[0] <= d;
    }
  }

  lemma PopLeads(pages: Pages, root: nat, queue: seq<(nat, nat)>, ds: seq<Descent>, done: map<nat, Descent>)
    requires queue != [] && Walking(pages, root, queue, ds, done)
    ensures |ds| == |queue|
    ensures var n := |ds| - 1;
            && Leads(pages, root, ds[n], queue[n].0) && |ds[n]| == queue[n].1
            && ds == ds[..n] + [ds[n]]
            && Walking(pages, root, queue[..n], ds[..n], done)
            && (queue[n].0 in done ==> Leads(pages, root, done[queue[n].0], queue[n].0) && ds[n] != done[queue[n].0])
  {}

  /** Visiting a page and queueing its children keeps the walk's invariants. */
  lemma VisitKeeps(pages: Pages, root: nat, queue: seq<(nat, nat)>, ds: seq<Descent>, d: Descent,
          done: map<nat, Descent>, p: nat)
    requires QueueLeads(pages, root, queue, ds) && Antichain(ds + [d]) && Ahead(ds + [d], done) &&
              DoneLeads(pages, root, done)
    requires Leads(pages, root, d, p) && p !in done
    ensures Walking(pages, root, queue + Entries(Kids(pages, p), |d| + 1), ds + Extensions(d, |Kids(pages, p)|),
              done[p := d])
    ensures CleanSoFar(pages, root, ds + [d], done) && GoodPage(pages, p) && |d| <= MAX_BTREE_DEPTH ==>
              CleanSoFar(pages, root, ds + Extensions(d, |Kids(pages, p)|), done[p := d])
  {
    PushAntichain(ds, d, |Kids(pages, p)|);
    PushAhead(ds, d, |Kids(pages, p)|, done, p);
    PushLeads(pages, root, queue, ds, d, p);
    if Covered(pages, root, ds + [d], done) {
      PushCovers(pages, root, ds, d, done, p);
    }
  }

  lemma DoneReachable(pages: Pages, root: nat, done: map<nat, Descent>)
    requires DoneLeads(pages, root, done)
    ensures AllReachable(pages, root, done.Keys)
  {
    forall p | p in done ensures Reachable(pages, root, p) {
      assert Leads(pages, root, done[p], p);
    }
  }

  /** A walk that ends with an empty queue and no report has seen a tree, all of it. */
  lemma CleanWalkIsClean(pages: Pages, root: nat, done: map<nat, Descent>)
    requires DoneLeads(pages, root, done) && CleanSoFar(pages, root, [], done) && |done.Keys| <= MAX_RANGE_NODES
    ensures CleanTree(pages, root)
    ensures forall p :: Reachable(pages, root, p) <==> p in done
  {
    forall d, p | Leads(pages, root, d, p) ensures p in done && done[p] == d {
      assert Visited(pages, root, done, d);
    }
    DoneReachable(pages, root, done);
    forall ps: set<nat> | AllReachable(pages, root, ps) ensures |ps| <= MAX_RANGE_NODES {
      forall p | p in ps ensures p in done.Keys {
        assert Reachable(pages, root, p);
      }
      SubsetFits(ps, done.Keys);
    }
    forall d, e, p | Leads(pages, root, d, p) && Leads(pages, root, e, p) ensures d == e {
      assert done[p] == d && done[p] == e;
    }
    forall d | Follow(pages, root, d).Some? ensures |d| <= MAX_BTREE_DEPTH {
      assert Leads(pages, root, d, Follow(pages, root, d).value);
    }
  }

  ghost predicate AllJustified(pages: Pages, root: nat, fs: seq<Failure>) {
    forall f | f in fs :: Justified(pages, root, f)
  }

  ghost predicate Inv(pages: Pages, root: nat, queue: seq<(nat, nat)>, ds: seq<Descent>, done: map<nat, Descent>,
          found: seq<Failure>) {
    Walking(pages, root, queue, ds, done) && AllJustified(pages, root, found) &&
    (found == [] ==> CleanSoFar(pages, root, ds, done))
  }

  /** The page taken from the queue is too deep, or was visited before. */
  lemma SkipStep(pages: Pages, root: nat, tree: string, queue: seq<(nat, nat)>, ds: seq<Descent>,
          done: map<nat, Descent>, found: seq<Failure>)
    requires queue != [] && Inv(pages, root, queue, ds, done, found)
    ensures var n := |queue| - 1; var (p, depth) := queue[n];
            && |ds| == |queue|
            && (depth > MAX_BTREE_DEPTH ==>
                  AllJustified(pages, root, found + [BTreeDepthExceeded(tree, MAX_BTREE_DEPTH)]))
            && (p in done ==> Inv(pages, root, queue[..n], ds[..n], done, found + [BTreeSiblingChainBroken(tree, p)]))
  {
    PopLeads(pages, root, queue, ds, done);
    var n := |queue| - 1;
    assert Follow(pages, root, ds[n]).Some?;
  }

  /** The page taken from the queue is new. */
  lemma VisitStep(pages: Pages, root: nat, tree: string, queue: seq<(nat, nat)>, ds: seq<Descent>,
          done: map<nat, Descent>, found: seq<Failure>)
    requires queue != [] && Inv(pages, root, queue, ds, done, found) && |ds| == |queue|
    requires queue[|queue| - 1].0 !in done && queue[|queue| - 1].1 <= MAX_BTREE_DEPTH
    ensures var n := |queue| - 1; var (p, depth) := queue[n];
            var kids, done', found' := Kids(pages, p), done[p := ds[n]], found + NodeFailures(pages, tree, p);
            && DoneLeads(pages, root, done') && Reachable(pages, root, p)
            && AllJustified(pages, root, found')
            && (!pages(p).ReadFails? ==>
                  Inv(pages, root, queue[..n] + Entries(kids, depth + 1), ds[..n] + Extensions(ds[n], |kids|), done',
                      found'))
  {
    PopLeads(pages, root, queue, ds, done);
    var n := |queue| - 1;
    var p := queue[n].0;
    VisitKeeps(pages, root, queue[..n], ds[..n], ds[n], done, p);
    assert Leads(pages, root, ds[n], p);
    NodeFailuresJustified(pages, root, tree, p);
  }

  /** The same for the report. */
  lemma VisitReport(pages: Pages, root: nat, tree: string, queue: seq<(nat, nat)>, ds: seq<Descent>,
          done: map<nat, Descent>, found: seq<Failure>)
    requires queue != [] && Walking(pages, root, queue, ds, done) && |ds| == |queue|
    requires Tallied(pages, tree, root, ds, done, found) && queue[|queue| - 1].0 !in done
    ensures var n := |queue| - 1; var p := queue[n].0;
            var done', found' := done[p := ds[n]], found + NodeFailures(pages, tree, p);
            && Tallied(pages, tree, root, ds[..n] + Extensions(ds[n], |Kids(pages, p)|), done', found')
            && AllGrounded(pages, tree, root, done', found')
            && AllGrounded(pages, tree, root, done', found + [BTreeDepthExceeded(tree, MAX_RANGE_NODES)])
            && CutShort(found + [BTreeDepthExceeded(tree, MAX_RANGE_NODES)])
  {
    var n := |queue| - 1;
    PopLeads(pages, root, queue, ds, done);
    TallyStops(pages, tree, root, ds, done, found, queue[n].0, ds[n], MAX_RANGE_NODES);
    TallyVisit(pages, tree, root, ds[..n], ds[n], done, found, queue[n].0);
  }

  lemma TooMany(pages: Pages, root: nat, tree: string, done: map<nat, Descent>, found: seq<Failure>)
    requires DoneLeads(pages, root, done) && AllJustified(pages, root, found)
    ensures AllReachable(pages, root, done.Keys)
    ensures |done.Keys| > MAX_RANGE_NODES ==>
              AllJustified(pages, root, found + [BTreeDepthExceeded(tree, MAX_RANGE_NODES)])
  {
    DoneReachable(pages, root, done);
  }

  /** How one step of the walk ends it: for good, or with a read error. */
  datatype Stop = Stop(error: Option<Error>)

  /** A page met for the first time: the budget, the page's own checks, its children. */
  method VisitPage(pages: Pages, tree: string, queue: seq<(nat, nat)>, visited: set<nat>, found: seq<Failure>)
    returns (stop: Option<Stop>, queue': seq<(nat, nat)>, visited': set<nat>, found': seq<Failure>)
    requires queue != []
    ensures var n := |queue| - 1; var (p, depth) := queue[n];
            && visited' == visited + {p}
            && if |visited'| > MAX_RANGE_NODES then
                 stop == Some(Stop(None)) && found' == found + [BTreeDepthExceeded(tree, MAX_RANGE_NODES)]
               else if pages(p).ReadFails? then
                 stop == Some(Stop(Some(pages(p).error))) && found' == found + NodeFailures(pages, tree, p)
               else
                 && stop.None? && found' == found + NodeFailures(pages, tree, p)
                 && queue' == queue[..n] + Entries(Kids(pages, p), depth + 1)
  {
    var n := |queue| - 1;
    var (p, depth) := queue[n];
    queue', visited' := queue[..n], visited + {p};
    if |visited'| > MAX_RANGE_NODES {
      return Some(Stop(None)), queue', visited', found + [BTreeDepthExceeded(tree, MAX_RANGE_NODES)];
    }
    var node, bad := ReadAndValidateNode(pages, tree, p);
    found' := found + bad;
    if node.Err? {
      return Some(Stop(Some(node.error))), queue', visited', found';
    }
    if node.value.Some? && node.value.value.kind.Internal? {
      queue' := PushChildren(queue', node.value.value.children, depth + 1);
    } else {
      assert queue' + Entries([], depth + 1) == queue';
    }
    stop := None;
  }

  /** The walk ends early with something to report or on a page that fails to read. */
  ghost predicate StopsRightly(pages: Pages, root: nat, stop: Stop, found: seq<Failure>) {
    if stop.error.None? then CutShort(found)
    else exists p :: Reachable(pages, root, p) && pages(p) == ReadFails(stop.error.value)
  }

  /** What holds at the queue, the report included. */
  ghost predicate UnderWay(pages: Pages, tree: string, root: nat, queue: seq<(nat, nat)>, ds: seq<Descent>,
          done: map<nat, Descent>, found: seq<Failure>) {
    && Inv(pages, root, queue, ds, done, found) && Tallied(pages, tree, root, ds, done, found)
    && |done.Keys| <= MAX_RANGE_NODES
  }

  /** What holds where the walk has ended early. */
  ghost predicate Ended(pages: Pages, tree: string, root: nat, stop: Stop, done: map<nat, Descent>,
          found: seq<Failure>) {
    && DoneLeads(pages, root, done) && AllJustified(pages, root, found)
    && AllGrounded(pages, tree, root, done, found) && StopsRightly(pages, root, stop, found)
  }

  lemma TooDeep(pages: Pages, tree: string, root: nat, queue: seq<(nat, nat)>, ds: seq<Descent>,
          done: map<nat, Descent>, found: seq<Failure>)
    requires queue != [] && UnderWay(pages, tree, root, queue, ds, done, found)
    requires queue[|queue| - 1].1 > MAX_BTREE_DEPTH
    ensures Ended(pages, tree, root, Stop(None), done, found + [BTreeDepthExceeded(tree, MAX_BTREE_DEPTH)])
  {
    SkipStep(pages, root, tree, queue, ds, done, found);
    TallyStops(pages, tree, root, ds, done, found, queue[|queue| - 1].0, [], MAX_BTREE_DEPTH);
  }

  lemma MetAgain(pages: Pages, tree: string, root: nat, queue: seq<(nat, nat)>, ds: seq<Descent>,
          done: map<nat, Descent>, found: seq<Failure>)
    requires queue != [] && UnderWay(pages, tree, root, queue, ds, done, found) && queue[|queue| - 1].0 in done
    ensures var n := |queue| - 1;
            && |ds| == |queue|
            && UnderWay(pages, tree, root, queue[..n], ds[..n], done,
                 found + [BTreeSiblingChainBroken(tree, queue[n].0)])
  {
    var n := |queue| - 1;
    SkipStep(pages, root, tree, queue, ds, done, found);
    PopLeads(pages, root, queue, ds, done);
    TallySkip(pages, tree, root, ds[..n], ds[n], done, found, queue[n].0);
  }

  lemma MetFirst(pages: Pages, tree: string, root: nat, queue: seq<(nat, nat)>, ds: seq<Descent>,
          done: map<nat, Descent>, found: seq<Failure>)
    requires queue != [] && UnderWay(pages, tree, root, queue, ds, done, found) && |ds| == |queue|
    requires queue[|queue| - 1].0 !in done && queue[|queue| - 1].1 <= MAX_BTREE_DEPTH
    ensures var n := |queue| - 1; var (p, depth) := queue[n];
            var kids, done', found' := Kids(pages, p), done[p := ds[n]], found + NodeFailures(pages, tree, p);
            if |done'.Keys| > MAX_RANGE_NODES then
              Ended(pages, tree, root, Stop(None), done', found + [BTreeDepthExceeded(tree, MAX_RANGE_NODES)])
            else if pages(p).ReadFails? then
              Ended(pages, tree, root, Stop(Some(pages(p).error)), done', found')
            else
              UnderWay(pages, tree, root, queue[..n] + Entries(kids, depth + 1), ds[..n] + Extensions(ds[n], |kids|),
                done', found')
  {
    var n := |queue| - 1;
    VisitStep(pages, root, tree, queue, ds, done, found);
    VisitReport(pages, root, tree, queue, ds, done, found);
    TooMany(pages, root, tree, done[queue[n].0 := ds[n]], found);
  }

  /** One iteration: the cycle guard, then the page itself. */
  method WalkStep(pages: Pages, tree: string, root: nat, queue: seq<(nat, nat)>, visited: set<nat>, found: seq<Failure>,
          ghost ds: seq<Descent>, ghost done: map<nat, Descent>)
    returns (stop: Option<Stop>, queue': seq<(nat, nat)>, visited': set<nat>, found': seq<Failure>,
          ghost ds': seq<Descent>, ghost done': map<nat, Descent>)
    requires queue != [] && UnderWay(pages, tree, root, queue, ds, done, found) && visited == done.Keys
    ensures visited' == done'.Keys
    ensures if stop.Some? then Ended(pages, tree, root, stop.value, done', found')
            else UnderWay(pages, tree, root, queue', ds', done', found')
    ensures stop.None? ==> |visited'| > |visited| || (visited' == visited && |queue'| < |queue|)
  {
    var n := |queue| - 1;
    var (p, depth) := queue[n];
    if depth > MAX_BTREE_DEPTH {
      TooDeep(pages, tree, root, queue, ds, done, found);
      return Some(Stop(None)), queue[..n], visited, found + [BTreeDepthExceeded(tree, MAX_BTREE_DEPTH)], ds, done;
    }
    if p in visited {
      MetAgain(pages, tree, root, queue, ds, done, found);
      return None, queue[..n], visited, found + [BTreeSiblingChainBroken(tree, p)], ds[..n], done;
    }
    MetFirst(pages, tree, root, queue, ds, done, found);
    ds', done' := ds[..n] + Extensions(ds[n], |Kids(pages, p)|), done[p := ds[n]];
    stop, queue', visited', found' := VisitPage(pages, tree, queue, visited, found);
  }

  /** Walks the pages below a root with an explicit stack. On any graph it ends,
      looks only at reachable pages and reports only what is there; when it
      reports nothing the graph is a tree and all of it was seen. */
  method WalkBtree(pages: Pages, tree: string, root: nat) returns (r: Result<nat>, visited: set<nat>,
          found: seq<Failure>)
    ensures AllReachable(pages, root, visited)
    ensures AllJustified(pages, root, found)
    ensures r.Ok? ==> r.value == |visited|
    ensures r.Err? ==> exists p :: Reachable(pages, root, p) && pages(p) == ReadFails(r.error)
    ensures r.Ok? && found == [] ==> CleanTree(pages, root) && forall p :: Reachable(pages, root, p) <==> p in visited
    ensures ReportsFaults(pages, tree, root, found)
    ensures r.Ok? && !CutShort(found) ==>
              && (forall p :: Reachable(pages, root, p) <==> p in visited)
              && forall f | Faulty(pages, tree, root, f) :: f in found
  {
    var queue: seq<(nat, nat)> := [(root, 0)];
    ghost var ds: seq<Descent>, done: map<nat, Descent> := [[]], map[];
    visited, found := {}, [];
    WalkStarts(pages, root);
    TallyStarts(pages, tree, root);
    while queue != []
      invariant UnderWay(pages, tree, root, queue, ds, done, found) && visited == done.Keys
      decreases MAX_RANGE_NODES - |visited|, |queue|
    {
      var stop;
      stop, queue, visited, found, ds, done := WalkStep(pages, tree, root, queue, visited, found, ds, done);
      if stop.Some? {
        DoneReachable(pages, root, done);
        AllFaulty(pages, tree, root, done, found);
        return if stop.value.error.Some? then Err(stop.value.error.value) else Ok(|visited|), visited, found;
      }
    }
    DoneReachable(pages, root, done);
    assert ds == [];
    AllFaulty(pages, tree, root, done, found);
    TallyComplete(pages, tree, root, done, found);
    if found == [] {
      CleanWalkIsClean(pages, root, done);
    }
    r := Ok(|visited|);
  }

  /** No report and no error mean a clean tree, and a clean tree gives neither. */
  lemma NoReportIffClean(pages: Pages, root: nat, r: Result<nat>, found: seq<Failure>)
    requires AllJustified(pages, root, found)
    requires r.Err? ==> exists p :: Reachable(pages, root, p) && pages(p) == ReadFails(r.error)
    requires r.Ok? && found == [] ==> CleanTree(pages, root)
    ensures r.Ok? && found == [] <==> CleanTree(pages, root)
  {
    if CleanTree(pages, root) {
      if found != [] {
        assert found[0] in found;
        CleanTreeHasNoFailure(pages, root, found[0]);
      }
      forall p | Reachable(pages, root, p) ensures GoodPage(pages, p) {}
    }
  }
}
