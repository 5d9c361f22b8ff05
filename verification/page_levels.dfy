/** Node levels and the integrity walk: what the walk makes of them, and when the
    levels of a tree it finds clean step by one. */
module PageLevels {
  import opened Outcomes
  import opened OrderedMap
  import opened PageWalk

  function Level(pages: Pages, p: nat): nat {
    if Decodes(pages, p) then pages(p).node.value.level else 0
  }

  // ---- What the decoder leaves to check ----

  /** A page the decoder accepts has its keys in order, level 0 if and only if it is a
      leaf, and an internal node one child more than keys, none of them 0. */
  predicate FromDecoder(state: PageState) {
    state.Sealed? && state.node.Some? ==>
      var node := state.node.value;
      && KeysAscend(node.keys) && LevelOk(node)
      && (node.kind.Internal? ==> |node.children| == |node.keys| + 1 && 0 !in node.children)
  }

  /** What is out of order has failed to decode, and is reported as a bad checksum:
      of the failures of a walk none is about key order or level. */
  lemma OrderIsReportedAsChecksum(pages: Pages, root: nat, found: seq<Failure>, f: Failure)
    requires (forall p :: FromDecoder(pages(p))) && AllJustified(pages, root, found) && f in found
    ensures !f.BTreeSortViolation? && !f.BTreeLevelInvariantViolated?
  {
    assert Justified(pages, root, f);
  }

  // ---- Relabelling ----

  /** The same page state, internal nodes with whatever positive level. */
  predicate SameButLevel(a: PageState, b: PageState) {
    a == b ||
    (a.Sealed? && a.node.Some? && b.Sealed? && b.node.Some? &&
     a.node.value.kind.Internal? && a.node.value.level > 0 && b.node.value.level > 0 &&
     b == a.(node := b.node) && b.node.value == a.node.value.(level := b.node.value.level))
  }

  ghost predicate Relabelled(pages: Pages, other: Pages) {
    forall p :: SameButLevel(pages(p), other(p))
  }

  lemma {:induction false} RelabelledFollow(pages: Pages, other: Pages, root: nat, d: Descent)
    requires Relabelled(pages, other)
    ensures Follow(pages, root, d) == Follow(other, root, d)
    decreases |d|
  {
    if d != [] {
      RelabelledFollow(pages, other, root, d[..|d| - 1]);
      var parent := Follow(pages, root, d[..|d| - 1]);
      if parent.Some? { assert SameButLevel(pages(parent.value), other(parent.value)); }
    }
  }

  lemma RelabelledClean(pages: Pages, other: Pages, root: nat)
    requires Relabelled(pages, other) && CleanTree(pages, root)
    ensures CleanTree(other, root)
  {
    forall d ensures Follow(pages, root, d) == Follow(other, root, d) {
      RelabelledFollow(pages, other, root, d);
    }
    forall d, e, p | Leads(other, root, d, p) && Leads(other, root, e, p) ensures d == e {
      assert Leads(pages, root, d, p) && Leads(pages, root, e, p);
    }
    forall d | Follow(other, root, d).Some? ensures |d| <= MAX_BTREE_DEPTH {
      assert Follow(pages, root, d).Some?;
    }
    forall ps: set<nat> | AllReachable(other, root, ps) ensures |ps| <= MAX_RANGE_NODES {
      forall p | p in ps ensures Reachable(pages, root, p) {
        assert Reachable(other, root, p);
        var d :| Leads(other, root, d, p);
        assert Leads(pages, root, d, p);
      }
      assert AllReachable(pages, root, ps);
    }
    forall d, p | Leads(other, root, d, p) ensures GoodPage(other, p) {
      assert Leads(pages, root, d, p) && SameButLevel(pages(p), other(p));
    }
  }

  /** Giving the internal nodes other positive levels changes neither what the walk
      reports of a page nor its verdict on the tree. */
  lemma LevelsDoNotMatter(pages: Pages, other: Pages, root: nat, tree: string, p: nat)
    requires Relabelled(pages, other)
    ensures NodeFailures(pages, tree, p) == NodeFailures(other, tree, p)
    ensures CleanTree(pages, root) <==> CleanTree(other, root)
  {
    assert SameButLevel(pages(p), other(p));
    if CleanTree(pages, root) { RelabelledClean(pages, other, root); }
    if CleanTree(other, root) {
      forall q ensures SameButLevel(other(q), pages(q)) {
        assert SameButLevel(pages(q), other(q));
      }
      RelabelledClean(other, pages, root);
    }
  }

  // ---- Stepping by one ----

  /** From every node to each of its children the level goes down by one. */
  ghost predicate StepsByOne(pages: Pages, root: nat) {
    forall d: Descent, k: nat, p, q | Leads(pages, root, d, p) && Leads(pages, root, d + [k], q) ::
      Level(pages, p) == Level(pages, q) + 1
  }

  ghost predicate LevelIsHeightLeft(pages: Pages, root: nat) {
    forall d, p | Leads(pages, root, d, p) :: Level(pages, p) + |d| == Level(pages, root)
  }

  lemma {:induction false} HeightLeft(pages: Pages, root: nat, d: Descent, p: nat)
    requires StepsByOne(pages, root) && Leads(pages, root, d, p)
    ensures Level(pages, p) + |d| == Level(pages, root)
    decreases |d|
  {
    if d != [] {
      var last := |d| - 1;
      var parent := Follow(pages, root, d[..last]).value;
      HeightLeft(pages, root, d[..last], parent);
      assert d[..last] + [d[last]] == d;
      assert Leads(pages, root, d[..last], parent) && Leads(pages, root, d[..last] + [d[last]], p);
    }
  }

  /** The levels of a tree step by one if and only if each is the root's less the
      node's depth; a clean tree then has all its leaves at one depth. */
  lemma StepsByOneExactly(pages: Pages, root: nat)
    ensures StepsByOne(pages, root) <==> LevelIsHeightLeft(pages, root)
    ensures CleanTree(pages, root) && StepsByOne(pages, root) ==>
              forall d, p | Leads(pages, root, d, p) ::
                && |d| <= Level(pages, root)
                && (pages(p).node.value.kind.Leaf? <==> |d| == Level(pages, root))
  {
    if StepsByOne(pages, root) {
      forall d, p | Leads(pages, root, d, p) ensures Level(pages, p) + |d| == Level(pages, root) {
        HeightLeft(pages, root, d, p);
      }
      if CleanTree(pages, root) {
        forall d, p | Leads(pages, root, d, p)
          ensures |d| <= Level(pages, root) && (pages(p).node.value.kind.Leaf? <==> |d| == Level(pages, root))
        {
          assert GoodPage(pages, p);
        }
      }
    }
    if LevelIsHeightLeft(pages, root) {
      forall d: Descent, k: nat, p, q | Leads(pages, root, d, p) && Leads(pages, root, d + [k], q)
        ensures Level(pages, p) == Level(pages, q) + 1
      {
        assert |d + [k]| == |d| + 1;
      }
    }
  }

  predicate IsInternal(state: PageState) {
    state.Sealed? && state.node.Some? && state.node.value.kind.Internal?
  }

  /** All leaves at one depth, internal nodes above it. */
  ghost predicate LeavesAt(pages: Pages, root: nat, height: nat) {
    forall d, p | Leads(pages, root, d, p) ::
      if IsInternal(pages(p)) then |d| < height else |d| == height
  }

  ghost function WayDown(pages: Pages, root: nat, p: nat): (d: Descent)
    requires Reachable(pages, root, p)
    ensures Leads(pages, root, d, p)
  {
    var d :| Leads(pages, root, d, p);
    d
  }

  /** The page with the level its place in the tree asks for. */
  ghost function Levelled(pages: Pages, root: nat, height: nat, p: nat): PageState {
    if Reachable(pages, root, p) && IsInternal(pages(p)) && |WayDown(pages, root, p)| <= height then
      pages(p).(node := Some(pages(p).node.value.(level := height - |WayDown(pages, root, p)|)))
    else pages(p)
  }

  lemma LevelledSteps(pages: Pages, other: Pages, root: nat, height: nat)
    requires CleanTree(pages, root) && LeavesAt(pages, root, height)
    requires forall p :: other(p) == Levelled(pages, root, height, p)
    ensures Relabelled(pages, other) && StepsByOne(other, root)
  {
    forall p ensures SameButLevel(pages(p), other(p)) {
      if Reachable(pages, root, p) {
        assert Leads(pages, root, WayDown(pages, root, p), p) && GoodPage(pages, p);
      }
    }
    forall d, p | Leads(other, root, d, p) ensures Level(other, p) + |d| == height {
      RelabelledFollow(pages, other, root, d);
      assert Leads(pages, root, d, p) && GoodPage(pages, p) && WayDown(pages, root, p) == d;
    }
    assert Leads(other, root, [], root);
    StepsByOneExactly(other, root);
  }

  lemma SteppingLeaves(pages: Pages, other: Pages, root: nat)
    requires CleanTree(pages, root) && Relabelled(pages, other) && StepsByOne(other, root)
    ensures LeavesAt(pages, root, Level(other, root))
  {
    RelabelledClean(pages, other, root);
    StepsByOneExactly(other, root);
    forall d, p | Leads(pages, root, d, p)
      ensures if IsInternal(pages(p)) then |d| < Level(other, root) else |d| == Level(other, root)
    {
      RelabelledFollow(pages, other, root, d);
      assert Leads(other, root, d, p) && SameButLevel(pages(p), other(p)) && GoodPage(other, p);
    }
  }

  /** A tree the walk passes can be given levels that step by one if and only if its
      leaves are all at one depth and its other nodes above. */
  lemma LevelsCanStepExactly(pages: Pages, root: nat)
    requires CleanTree(pages, root)
    ensures (exists other :: Relabelled(pages, other) && StepsByOne(other, root)) <==>
            exists height: nat :: LeavesAt(pages, root, height)
  {
    if other :| Relabelled(pages, other) && StepsByOne(other, root) {
      SteppingLeaves(pages, other, root);
    }
    if height: nat :| LeavesAt(pages, root, height) {
      var other: Pages := (p: nat) => Levelled(pages, root, height, p);
      LevelledSteps(pages, other, root, height);
    }
  }

  // ---- Trees that pass without ----

  const UNEVEN: Pages := p =>
    if p == 1 then Sealed(Some(Node(Internal, 5, [[8]], [2, 3])), None)
    else if p == 3 then Sealed(Some(Node(Internal, 5, [[9]], [4, 5])), None)
    else Sealed(Some(Node(Leaf, 0, [], [])), None)

  lemma NonZeroFew(a: nat, b: nat)
    requires a != 0 && b != 0
    ensures NonZero([a]) == [a] && NonZero([a, b]) == [a, b]
  {
    assert [a][..0] == [] && [a, b][..1] == [a];
  }

  lemma UnevenKids(p: nat)
    ensures Kids(UNEVEN, p) == if p == 1 then [2, 3] else if p == 3 then [4, 5] else []
  {
    NonZeroFew(2, 3);
    NonZeroFew(4, 5);
  }

  lemma {:induction false} UnevenDescents(d: Descent)
    requires Follow(UNEVEN, 1, d).Some?
    ensures var p := Follow(UNEVEN, 1, d).value;
            || (d == [] && p == 1) || (d == [0] && p == 2) || (d == [1] && p == 3)
            || (d == [1, 0] && p == 4) || (d == [1, 1] && p == 5)
    decreases |d|
  {
    if d != [] {
      UnevenDescents(d[..|d| - 1]);
      UnevenKids(Follow(UNEVEN, 1, d[..|d| - 1]).value);
      assert d == d[..|d| - 1] + [d[|d| - 1]];
    }
  }

  lemma UnevenIsClean()
    ensures CleanTree(UNEVEN, 1) && forall p :: FromDecoder(UNEVEN(p))
  {
    forall d, p | Leads(UNEVEN, 1, d, p) ensures p in {1, 2, 3, 4, 5} && |d| <= 2 && GoodPage(UNEVEN, p) {
      UnevenDescents(d);
    }
    forall d, e, p | Leads(UNEVEN, 1, d, p) && Leads(UNEVEN, 1, e, p) ensures d == e {
      UnevenDescents(d);
      UnevenDescents(e);
    }
    forall d | Follow(UNEVEN, 1, d).Some? ensures |d| <= MAX_BTREE_DEPTH {
      assert Leads(UNEVEN, 1, d, Follow(UNEVEN, 1, d).value);
    }
    forall ps: set<nat> | AllReachable(UNEVEN, 1, ps) ensures |ps| <= MAX_RANGE_NODES {
      forall p | p in ps ensures p in {1, 2, 3, 4, 5} {
        assert Reachable(UNEVEN, 1, p);
      }
      SubsetFits(ps, {1, 2, 3, 4, 5});
    }
  }

  /** Page 2 is a leaf one step below the root, page 4 one two steps below. */
  lemma UnevenLeaves()
    ensures Leads(UNEVEN, 1, [0], 2) && Leads(UNEVEN, 1, [1, 0], 4)
  {
    UnevenKids(1);
    UnevenKids(3);
    assert Leads(UNEVEN, 1, [], 1);
    ExtensionLeads(UNEVEN, 1, [], 1, 0);
    ExtensionLeads(UNEVEN, 1, [], 1, 1);
    assert [] + [0] == [0] && [] + [1] == [1] && [1] + [0] == [1, 0];
    ExtensionLeads(UNEVEN, 1, [1], 3, 0);
  }

  /** The walk finds nothing wrong with an internal root of level 5 over a leaf and
      over another internal node of level 5. The leaves being at two depths, no
      choice of levels would step by one, and every choice passes. */
  lemma UnevenTreePasses(other: Pages)
    requires Relabelled(UNEVEN, other)
    ensures CleanTree(other, 1) && !StepsByOne(other, 1)
  {
    UnevenIsClean();
    RelabelledClean(UNEVEN, other, 1);
    UnevenLeaves();
    RelabelledFollow(UNEVEN, other, 1, [0]);
    RelabelledFollow(UNEVEN, other, 1, [1, 0]);
    assert SameButLevel(UNEVEN(2), other(2)) && SameButLevel(UNEVEN(4), other(4));
    if StepsByOne(other, 1) {
      HeightLeft(other, 1, [0], 2);
      HeightLeft(other, 1, [1, 0], 4);
    }
  }
}
