/** Index maintenance: the churn one document write causes in every Active index. */
module IndexMaint {
  import opened ByteOrder
  import opened Outcomes
  import opened OrderedMap
  import opened IndexKey
  import opened IndexExtract

  datatype IndexStatus = Active | DroppedPending

  /** An index descriptor together with the contents of the tree at its root. */
  datatype IndexDescriptor = IndexDescriptor(indexId: nat, spec: IndexSpec, tree: map<Bytes, Bytes>,
          status: IndexStatus)

  const NO_ID: Bytes := [0, 0, 0, 0, 0, 0, 0, 0]

  /** A document id in its on-disk form: eight big-endian bytes, not all zero. */
  predicate IsId(b: Bytes) {
    |b| == 8 && b != NO_ID
  }

  /** The tree key under which document id is filed for user key u. */
  function StorageKey(kind: IndexKind, u: Bytes, id: Bytes): (k: Bytes) {
    if kind.Unique? then u else u + id
  }

  function Composed(ks: seq<Bytes>, id: Bytes): (s: set<Bytes>) {
    set k | k in ks :: k + id
  }

  function First(ks: seq<Bytes>): Option<Bytes> {
    if ks == [] then None else Some(ks[0])
  }

  // ---- What the diffs amount to ----

  function UniqueDiff(name: string, tree: map<Bytes, Bytes>, prior: Option<Bytes>, next: Option<Bytes>, id: Bytes)
    : (r: Result<map<Bytes, Bytes>>)
  {
    if prior == next then Ok(tree)
    else if next.Some? && next.value in tree && tree[next.value] != id then
      Err(UniqueConstraintViolation(name, next.value))
    else
      var cleared := if prior.Some? then tree - {prior.value} else tree;
      if next.None? then Ok(cleared)
      else if next.value in cleared then Err(BTreeKeyExists)
      else Ok(cleared[next.value := id])
  }

  /** Every key of s filed under the same id. */
  function Filed(s: set<Bytes>, id: Bytes): (m: map<Bytes, Bytes>)
    ensures m.Keys == s
  {
    map k | k in s :: id
  }

  predicate NoneIn(s: set<Bytes>, m: map<Bytes, Bytes>) {
    forall k | k in s :: k !in m
  }

  function NonuniqueDiff(tree: map<Bytes, Bytes>, prior: set<Bytes>, next: set<Bytes>, id: Bytes)
    : (r: Result<map<Bytes, Bytes>>)
  {
    if !NoneIn(next - prior, tree) then Err(BTreeKeyExists)
    else Ok((tree - (prior - next)) + Filed(next - prior, id))
  }

  function MaintainFromKeys(ix: IndexDescriptor, prior: seq<Bytes>, next: seq<Bytes>,
          id: Bytes): (r: Result<IndexDescriptor>)
    ensures r.Ok? ==> r.value == ix.(tree := r.value.tree)
  {
    var tree :- if ix.spec.kind.Unique?
                then UniqueDiff(ix.spec.name, ix.tree, First(prior), First(next), id)
                else NonuniqueDiff(ix.tree, Composed(prior, id), Composed(next, id), id);
    Ok(ix.(tree := tree))
  }

  function KeysOfOpt(spec: IndexSpec, doc: Option<Doc>): Result<seq<Bytes>> {
    if doc.None? then Ok([]) else ExtractKeys(spec, doc.value)
  }

  function MaintainOne(ix: IndexDescriptor, prior: Option<Doc>, next: Option<Doc>,
          id: Bytes): (r: Result<IndexDescriptor>)
    ensures r.Ok? ==> r.value == ix.(tree := r.value.tree)
  {
    if !ValidSpec(ix.spec) then Err(InvalidArgument) else
    var oldKeys :- KeysOfOpt(ix.spec, prior);
    var newKeys :- KeysOfOpt(ix.spec, next);
    MaintainFromKeys(ix, oldKeys, newKeys, id)
  }

  /** The index after one write; a dropped index is passed over. */
  function After(ix: IndexDescriptor, prior: Option<Doc>, next: Option<Doc>, id: Bytes): (r: Result<IndexDescriptor>)
    ensures r.Ok? ==> r.value == ix.(tree := r.value.tree)
  {
    if ix.status.DroppedPending? then Ok(ix) else MaintainOne(ix, prior, next, id)
  }

  /** The first index from i on that rejects the write. */
  function FirstFailure(ixs: seq<IndexDescriptor>, i: nat, prior: Option<Doc>, next: Option<Doc>, id: Bytes): (n: nat)
    requires i <= |ixs|
    ensures i <= n <= |ixs|
    ensures forall j | i <= j < n :: After(ixs[j], prior, next, id).Ok?
    ensures n < |ixs| ==> After(ixs[n], prior, next, id).Err?
    decreases |ixs| - i
  {
    if i == |ixs| || After(ixs[i], prior, next, id).Err? then i else FirstFailure(ixs, i + 1, prior, next, id)
  }

  /** All indexes in order; an error stops at the index it occurs on and leaves
      that one and the later ones as they were. */
  function MaintainAll(ixs: seq<IndexDescriptor>, prior: Option<Doc>, next: Option<Doc>, id: Bytes)
    : (r: (seq<IndexDescriptor>, Result<()>))
    ensures |r.0| == |ixs|
  {
    var n := FirstFailure(ixs, 0, prior, next, id);
    (seq(|ixs|, i requires 0 <= i < |ixs| => if i < n then After(ixs[i], prior, next, id).value else ixs[i]),
     if n < |ixs| then Err(After(ixs[n], prior, next, id).error) else Ok(()))
  }

  // ---- The maintenance routines ----

  method ApplyUniqueDiff(tree: BTree<Bytes>, name: string, oldKeys: seq<Bytes>, newKeys: seq<Bytes>, id: Bytes)
    returns (r: Result<()>)
    modifies tree
    ensures r.Ok? ==> Ok(tree.entries) == UniqueDiff(name, old(tree.entries), First(oldKeys), First(newKeys), id)
    ensures r.Err? ==> Err(r.error) == UniqueDiff(name, old(tree.entries), First(oldKeys), First(newKeys), id)
    ensures r.Err? && r.error.UniqueConstraintViolation? ==> tree.entries == old(tree.entries)
  {
    var o, n := First(oldKeys), First(newKeys);
    if o == n {
      return Ok(());
    }
    if n.Some? {
      var existing := tree.Get(n.value);
      if existing.Some? && existing.value != id {
        return Err(UniqueConstraintViolation(name, n.value));
      }
    }
    if o.Some? {
      var _ := tree.Delete(o.value);
    }
    if n.Some? {
      r := tree.Insert(n.value, id);
    } else {
      r := Ok(());
    }
  }

  lemma DoneGrows(ks: set<Bytes>, rest: set<Bytes>, k: Bytes)
    requires rest <= ks && k in rest
    ensures ks - (rest - {k}) == (ks - rest) + {k}
    ensures |ks - (rest - {k})| == |ks - rest| + 1
  {}

  lemma DeleteStep(m: map<Bytes, Bytes>, s: set<Bytes>, k: Bytes)
    ensures m - s - {k} == m - (s + {k})
  {}

  /** The keys of s have been filed under id in a tree that held none of them. */
  predicate FiledSoFar(m: map<Bytes, Bytes>, w: Work, m0: map<Bytes, Bytes>, w0: Work, s: set<Bytes>, id: Bytes) {
    NoneIn(s, m0) && m == m0 + Filed(s, id) && w == Work(w0.inserts + |s|, w0.deletes)
  }

  lemma FiledNone(m: map<Bytes, Bytes>, w: Work, id: Bytes)
    ensures FiledSoFar(m, w, m, w, {}, id)
  {
    assert m + Filed({}, id) == m;
  }

  lemma FiledMap(m: map<Bytes, Bytes>, s: set<Bytes>, k: Bytes, id: Bytes)
    ensures (m + Filed(s, id))[k := id] == m + Filed(s + {k}, id)
    ensures k !in s ==> (k in m + Filed(s, id) <==> k in m)
  {}

  lemma FiledStep(m: map<Bytes, Bytes>, w: Work, m0: map<Bytes, Bytes>, w0: Work, s: set<Bytes>, id: Bytes, k: Bytes)
    requires FiledSoFar(m, w, m0, w0, s, id) && k !in s
    ensures k in m <==> k in m0
    ensures k !in m ==> FiledSoFar(m[k := id], Work(w.inserts + 1, w.deletes), m0, w0, s + {k}, id)
  {
    FiledMap(m0, s, k, id);
  }

  /** Deletes the keys in ascending order. */
  method DeleteEach(tree: BTree<Bytes>, ks: set<Bytes>)
    modifies tree
    ensures tree.entries == old(tree.entries) - ks
    ensures tree.work == Work(old(tree.work).inserts, old(tree.work).deletes + |ks|)
  {
    var rest := ks;
    while rest != {}
      invariant rest <= ks
      invariant tree.entries == old(tree.entries) - (ks - rest)
      invariant tree.work == Work(old(tree.work).inserts, old(tree.work).deletes + |ks - rest|)
    {
      var k := MinKey(rest);
      DeleteStep(old(tree.entries), ks - rest, k);
      DoneGrows(ks, rest, k);
      var _ := tree.Delete(k);
      rest := rest - {k};
    }
    assert ks - rest == ks;
  }

  /** Inserts the keys in ascending order; stops at the first that is taken. */
  method InsertEach(tree: BTree<Bytes>, ks: set<Bytes>, id: Bytes) returns (r: Result<()>)
    modifies tree
    ensures r.Ok? <==> NoneIn(ks, old(tree.entries))
    ensures r.Err? ==> r.error == BTreeKeyExists
    ensures r.Ok? ==> FiledSoFar(tree.entries, tree.work, old(tree.entries), old(tree.work), ks, id)
  {
    ghost var m0, w0 := tree.entries, tree.work;
    FiledNone(m0, w0, id);
    var rest := ks;
    while rest != {}
      invariant rest <= ks && FiledSoFar(tree.entries, tree.work, m0, w0, ks - rest, id)
    {
      var k := MinKey(rest);
      FiledStep(tree.entries, tree.work, m0, w0, ks - rest, id, k);
      DoneGrows(ks, rest, k);
      r := tree.Insert(k, id);
      if r.Err? {
        return;
      }
      rest := rest - {k};
    }
    assert ks - rest == ks;
    r := Ok(());
  }

  lemma ComposedStep(ks: seq<Bytes>, i: nat, id: Bytes)
    requires i < |ks|
    ensures Composed(ks[..i + 1], id) == Composed(ks[..i], id) + {ks[i] + id}
    ensures ks[i] + id in Composed(ks, id)
  {
    assert ks[..i + 1] == ks[..i] + [ks[i]];
  }

  method InsertIfUnseen(tree: BTree<Bytes>, seen: set<Bytes>, composed: Bytes, id: Bytes,
          ghost m0: map<Bytes, Bytes>, ghost w0: Work) returns (r: Result<set<Bytes>>)
    requires FiledSoFar(tree.entries, tree.work, m0, w0, seen, id)
    modifies tree
    ensures r.Ok? ==> r.value == seen + {composed} && FiledSoFar(tree.entries, tree.work, m0, w0, r.value, id)
    ensures r.Err? ==> r.error == BTreeKeyExists && composed in m0
  {
    if composed in seen {
      assert seen + {composed} == seen;
      return Ok(seen);
    }
    FiledStep(tree.entries, tree.work, m0, w0, seen, id, composed);
    var _ :- tree.Insert(composed, id);
    return Ok(seen + {composed});
  }

  /** The multi-key loop of the insert path: a composed key met before is skipped. */
  method InsertUnseen(tree: BTree<Bytes>, newKeys: seq<Bytes>, id: Bytes) returns (r: Result<()>)
    modifies tree
    ensures r.Ok? <==> NoneIn(Composed(newKeys, id), old(tree.entries))
    ensures r.Err? ==> r.error == BTreeKeyExists
    ensures r.Ok? ==> FiledSoFar(tree.entries, tree.work, old(tree.entries), old(tree.work), Composed(newKeys, id), id)
  {
    ghost var m0, w0 := tree.entries, tree.work;
    FiledNone(m0, w0, id);
    var seen: set<Bytes> := {};
    for i := 0 to |newKeys|
      invariant seen == Composed(newKeys[..i], id) && FiledSoFar(tree.entries, tree.work, m0, w0, seen, id)
    {
      ComposedStep(newKeys, i, id);
      var step := InsertIfUnseen(tree, seen, newKeys[i] + id, id, m0, w0);
      if step.Err? {
        return Err(step.error);
      }
      seen := step.value;
    }
    assert newKeys[..|newKeys|] == newKeys;
    r := Ok(());
  }

  lemma ComposedFew(ks: seq<Bytes>, id: Bytes)
    ensures ks == [] ==> Composed(ks, id) == {}
    ensures |ks| == 1 ==> Composed(ks, id) == {ks[0] + id}
  {}

  /** Insert path without a previous version: duplicates are dropped only when
      there is more than one key. */
  method InsertNewKeys(tree: BTree<Bytes>, newKeys: seq<Bytes>, id: Bytes) returns (r: Result<()>)
    modifies tree
    ensures r.Ok? <==> NoneIn(Composed(newKeys, id), old(tree.entries))
    ensures r.Err? ==> r.error == BTreeKeyExists
    ensures r.Ok? ==> FiledSoFar(tree.entries, tree.work, old(tree.entries), old(tree.work), Composed(newKeys, id), id)
  {
    ComposedFew(newKeys, id);
    FiledNone(tree.entries, tree.work, id);
    if |newKeys| == 0 {
      r := Ok(());
    } else if |newKeys| == 1 {
      FiledStep(tree.entries, tree.work, tree.entries, tree.work, {}, id, newKeys[0] + id);
      r := tree.Insert(newKeys[0] + id, id);
    } else {
      r := InsertUnseen(tree, newKeys, id);
    }
  }

  /** The deletions of a diff do not touch the keys it is about to insert. */
  lemma DiffStages(m: map<Bytes, Bytes>, prior: set<Bytes>, next: set<Bytes>)
    ensures NoneIn(next - prior, m - (prior - next)) <==> NoneIn(next - prior, m)
    ensures prior == {} ==> next - prior == next && m - (prior - next) == m && prior - next == {}
  {}

  /** Old keys that are gone are deleted, keys that are new are inserted, and
      nothing else is touched. */
  method ApplyNonuniqueDiff(tree: BTree<Bytes>, oldKeys: seq<Bytes>, newKeys: seq<Bytes>, id: Bytes)
    returns (r: Result<()>)
    modifies tree
    ensures r.Ok? ==> Ok(tree.entries) == NonuniqueDiff(old(tree.entries), Composed(oldKeys, id),
              Composed(newKeys, id), id)
    ensures r.Err? ==> Err(r.error) == NonuniqueDiff(old(tree.entries), Composed(oldKeys, id), Composed(newKeys, id),
              id)
    ensures r.Ok? ==> tree.work == Work(old(tree.work).inserts + |Composed(newKeys, id) - Composed(oldKeys, id)|,
                                        old(tree.work).deletes + |Composed(oldKeys, id) - Composed(newKeys, id)|)
  {
    var oldSet, newSet := Composed(oldKeys, id), Composed(newKeys, id);
    ComposedFew(oldKeys, id);
    DiffStages(tree.entries, oldSet, newSet);
    if |oldKeys| == 0 {
      r := InsertNewKeys(tree, newKeys, id);
    } else {
      r := ApplyKeySets(tree, oldSet, newSet, id);
    }
  }

  /** The general path, on the two sets of composed keys. */
  method ApplyKeySets(tree: BTree<Bytes>, oldSet: set<Bytes>, newSet: set<Bytes>, id: Bytes) returns (r: Result<()>)
    modifies tree
    ensures r.Ok? ==> Ok(tree.entries) == NonuniqueDiff(old(tree.entries), oldSet, newSet, id)
    ensures r.Err? ==> Err(r.error) == NonuniqueDiff(old(tree.entries), oldSet, newSet, id)
    ensures r.Ok? ==> tree.work == Work(old(tree.work).inserts + |newSet - oldSet|,
              old(tree.work).deletes + |oldSet - newSet|)
  {
    DiffStages(tree.entries, oldSet, newSet);
    DeleteEach(tree, oldSet - newSet);
    r := InsertEach(tree, newSet - oldSet, id);
  }

  /** Opens the tree at the descriptor's root, applies the diff of the index's
      kind and, on success only, moves the descriptor to the new root. */
  method MaintainIndexFromKeys(ix: IndexDescriptor, oldKeys: seq<Bytes>, newKeys: seq<Bytes>, id: Bytes)
    returns (r: Result<IndexDescriptor>)
    ensures r == MaintainFromKeys(ix, oldKeys, newKeys, id)
  {
    var tree := new BTree<Bytes>(ix.tree);
    var outcome;
    if ix.spec.kind.Unique? {
      outcome := ApplyUniqueDiff(tree, ix.spec.name, oldKeys, newKeys, id);
    } else {
      outcome := ApplyNonuniqueDiff(tree, oldKeys, newKeys, id);
    }
    if outcome.Err? {
      return Err(outcome.error);
    }
    return Ok(ix.(tree := tree.entries));
  }
}
