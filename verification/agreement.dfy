/** Agreement between a collection's primary map and its derived indexes, and its
    preservation by every successful write. */
module Agreement {
  import opened ByteOrder
  import opened Outcomes
  import opened IndexKey
  import opened IndexExtract
  import opened IndexMaint
  import opened Collection

  predicate Keyed(primary: map<Bytes, Doc>) {
    forall id | id in primary :: IsId(id)
  }

  /** The user key inside a tree key. */
  function StripIdSuffix(kind: IndexKind, k: Bytes): Bytes {
    if kind.Unique? || |k| < 8 then k else k[..|k| - 8]
  }

  /** Filing under an id suffix is undone by stripping the suffix. */
  lemma StripOfStorage(kind: IndexKind, u: Bytes, id: Bytes)
    requires IsId(id)
    ensures StripIdSuffix(kind, StorageKey(kind, u, id)) == u
    ensures !kind.Unique? ==> StorageKey(kind, u, id)[|u|..] == id
  {
    if !kind.Unique? {
      assert (u + id)[..|u|] == u && (u + id)[|u|..] == id;
    }
  }

  /** The entry k -> id is one the primary map calls for. */
  predicate Demands(spec: IndexSpec, primary: map<Bytes, Doc>, k: Bytes, id: Bytes) {
    && id in primary
    && StripIdSuffix(spec.kind, k) in UserKeys(spec, primary[id])
    && k == StorageKey(spec.kind, StripIdSuffix(spec.kind, k), id)
  }

  /** No entry without a document behind it. */
  predicate Sound(ix: IndexDescriptor, primary: map<Bytes, Doc>) {
    forall k | k in ix.tree :: Demands(ix.spec, primary, k, ix.tree[k])
  }

  predicate Has(tree: map<Bytes, Bytes>, k: Bytes, id: Bytes) {
    k in tree && tree[k] == id
  }

  /** No document without its entries. */
  ghost predicate Complete(ix: IndexDescriptor, primary: map<Bytes, Doc>) {
    forall k, id | Demands(ix.spec, primary, k, id) :: Has(ix.tree, k, id)
  }

  /** Every stored document yields keys under the specification. */
  predicate Indexable(spec: IndexSpec, primary: map<Bytes, Doc>) {
    forall id | id in primary :: ExtractKeys(spec, primary[id]).Ok?
  }

  ghost predicate Exact(ix: IndexDescriptor, primary: map<Bytes, Doc>) {
    Sound(ix, primary) && Complete(ix, primary) && Indexable(ix.spec, primary)
  }

  /** Everything the primary map calls for, as (tree key, id) pairs. */
  function Derived(spec: IndexSpec, primary: map<Bytes, Doc>): set<(Bytes, Bytes)> {
    set id, u | id in primary && u in UserKeys(spec, primary[id]) :: (StorageKey(spec.kind, u, id), id)
  }

  lemma DerivedDemands(spec: IndexSpec, primary: map<Bytes, Doc>, k: Bytes, id: Bytes)
    requires Keyed(primary)
    ensures (k, id) in Derived(spec, primary) <==> Demands(spec, primary, k, id)
  {
    if (k, id) in Derived(spec, primary) {
      var u :| u in UserKeys(spec, primary[id]) && k == StorageKey(spec.kind, u, id);
      StripOfStorage(spec.kind, u, id);
    }
  }

  /** Agreement is equality with the derived map. */
  lemma AgreementIsEquality(ix: IndexDescriptor, primary: map<Bytes, Doc>)
    requires Keyed(primary)
    ensures Sound(ix, primary) && Complete(ix, primary) <==> ix.tree.Items == Derived(ix.spec, primary)
  {
    var items, derived := ix.tree.Items, Derived(ix.spec, primary);
    forall k, id ensures (k, id) in derived <==> Demands(ix.spec, primary, k, id) {
      DerivedDemands(ix.spec, primary, k, id);
    }
    assert forall k, id :: (k, id) in items <==> Has(ix.tree, k, id);
    if items == derived {
      forall k | k in ix.tree ensures Demands(ix.spec, primary, k, ix.tree[k]) {
        assert (k, ix.tree[k]) in items;
      }
      assert forall k, id | Demands(ix.spec, primary, k, id) :: (k, id) in items;
    }
    if Sound(ix, primary) && Complete(ix, primary) {
      forall p: (Bytes, Bytes) ensures p in items <==> p in derived {
        assert p == (p.0, p.1);
        assert Has(ix.tree, p.0, p.1) <==> Demands(ix.spec, primary, p.0, p.1);
      }
    }
  }

  // ---- One index, one write ----

  lemma ComposedMember(spec: IndexSpec, ks: seq<Bytes>, k: Bytes, id: Bytes)
    requires IsId(id) && !spec.kind.Unique?
    ensures k in Composed(ks, id) <==>
              StripIdSuffix(spec.kind, k) in ks && k == StorageKey(spec.kind, StripIdSuffix(spec.kind, k), id)
  {
    if k in Composed(ks, id) {
      var u :| u in ks && k == u + id;
      StripOfStorage(spec.kind, u, id);
    }
  }

  /** A write leaves the demands of every other document alone. */
  lemma OthersUnmoved(spec: IndexSpec, primary: map<Bytes, Doc>, id: Bytes, next: Option<Doc>, k: Bytes, other: Bytes)
    requires other != id
    ensures Demands(spec, Put(primary, id, next), k, other) <==> Demands(spec, primary, k, other)
  {}

  ghost predicate Moved(ix: IndexDescriptor, primary: map<Bytes, Doc>, id: Bytes, next: Option<Doc>,
          ix': IndexDescriptor) {
    MaintainOne(ix, Lookup(primary, id), next, id) == Ok(ix')
  }

  /** What a non-unique index holds after the write, key by key. */
  lemma NonuniqueEntry(ix: IndexDescriptor, primary: map<Bytes, Doc>, id: Bytes, next: Option<Doc>,
          ix': IndexDescriptor,
          k: Bytes, v: Bytes)
    requires Keyed(primary) && IsId(id) && !ix.spec.kind.Unique?
    requires Sound(ix, primary) && Moved(ix, primary, id, next, ix')
    ensures Has(ix'.tree, k, v) && v != id ==> Has(ix.tree, k, v)
    ensures Has(ix.tree, k, v) && v != id ==> Has(ix'.tree, k, v)
    ensures Has(ix'.tree, k, id) ==> Demands(ix.spec, Put(primary, id, next), k, id)
    ensures Demands(ix.spec, Put(primary, id, next), k, id) ==>
              Has(ix'.tree, k, id) || (!Has(ix.tree, k, id) && Demands(ix.spec, primary, k, id))
  {
    var spec := ix.spec;
    var prior := Lookup(primary, id);
    var oldKeys, newKeys := KeysOfOpt(spec, prior).value, KeysOfOpt(spec, next).value;
    ComposedMember(spec, oldKeys, k, id);
    ComposedMember(spec, newKeys, k, id);
    if k in ix.tree {
      assert Demands(spec, primary, k, ix.tree[k]);
      if k in Composed(oldKeys, id) || k in Composed(newKeys, id) {
        StripOfStorage(spec.kind, StripIdSuffix(spec.kind, k), id);
        StripOfStorage(spec.kind, StripIdSuffix(spec.kind, k), ix.tree[k]);
        assert ix.tree[k] == id;
      }
    }
  }

  /** The one key of a document under a Unique index. */
  function UniqueKey(spec: IndexSpec, doc: Option<Doc>): Option<Bytes> {
    var r := KeysOfOpt(spec, doc);
    if r.Ok? then First(r.value) else None
  }

  lemma UniqueKeyIs(spec: IndexSpec, doc: Option<Doc>)
    requires ValidSpec(spec) && KeysOfOpt(spec, doc).Ok? && !spec.kind.Each?
    ensures UniqueKey(spec, doc) == First(KeysOfOpt(spec, doc).value)
    ensures doc.Some? <==> UniqueKey(spec, doc).Some?
    ensures doc.Some? ==> UserKeys(spec, doc.value) == {UniqueKey(spec, doc).value}
  {}

  /** The entry-by-entry effect of a Unique diff. */
  lemma UniqueDiffEntry(name: string, tree: map<Bytes, Bytes>, prior: Option<Bytes>, next: Option<Bytes>, id: Bytes,
          k: Bytes, v: Bytes)
    requires UniqueDiff(name, tree, prior, next, id).Ok?
    ensures var tree' := UniqueDiff(name, tree, prior, next, id).value;
            && (Has(tree', k, v) ==> Has(tree, k, v) || (next == Some(k) && v == id))
            && (Has(tree', k, v) && prior == Some(k) ==> prior == next || (next == Some(k) && v == id))
            && (Has(tree, k, v) && prior != Some(k) ==> Has(tree', k, v))
            && (next == Some(k) && prior != next ==> Has(tree', k, id))
            && (prior == next ==> tree' == tree)
  {}

  /** What a Unique index holds after the write, key by key. */
  lemma UniqueEntry(ix: IndexDescriptor, primary: map<Bytes, Doc>, id: Bytes, next: Option<Doc>, ix': IndexDescriptor,
          k: Bytes, v: Bytes)
    requires Keyed(primary) && IsId(id) && ix.spec.kind.Unique?
    requires Sound(ix, primary) && Moved(ix, primary, id, next, ix')
    ensures Has(ix'.tree, k, v) && v != id ==> Has(ix.tree, k, v)
    ensures Complete(ix, primary) && Has(ix.tree, k, v) && v != id ==> Has(ix'.tree, k, v)
    ensures Has(ix'.tree, k, id) ==> Demands(ix.spec, Put(primary, id, next), k, id)
    ensures Demands(ix.spec, Put(primary, id, next), k, id) ==>
              Has(ix'.tree, k, id) || (!Has(ix.tree, k, id) && Demands(ix.spec, primary, k, id))
  {
    var prior := Lookup(primary, id);
    var p, n := UniqueKey(ix.spec, prior), UniqueKey(ix.spec, next);
    UniqueKeyIs(ix.spec, prior);
    UniqueKeyIs(ix.spec, next);
    UniqueDiffEntry(ix.spec.name, ix.tree, p, n, id, k, v);
    UniqueDiffEntry(ix.spec.name, ix.tree, p, n, id, k, id);
    if k in ix.tree {
      assert Demands(ix.spec, primary, k, ix.tree[k]);
    }
    if Complete(ix, primary) && p == Some(k) {
      assert Demands(ix.spec, primary, k, id);
    }
  }

  /** A successful write keeps soundness, and keeps completeness where it held. */
  lemma OneWriteKeepsAgreement(ix: IndexDescriptor, primary: map<Bytes, Doc>, id: Bytes, next: Option<Doc>,
          ix': IndexDescriptor)
    requires Keyed(primary) && IsId(id)
    requires Sound(ix, primary) && Moved(ix, primary, id, next, ix')
    ensures Sound(ix', Put(primary, id, next))
    ensures Complete(ix, primary) ==> Complete(ix', Put(primary, id, next))
    ensures Indexable(ix.spec, primary) ==> Indexable(ix.spec, Put(primary, id, next))
  {
    var primary' := Put(primary, id, next);
    if Indexable(ix.spec, primary) {
      forall other | other in primary' ensures ExtractKeys(ix.spec, primary'[other]).Ok? {
        assert other != id ==> other in primary && primary'[other] == primary[other];
      }
    }
    forall k | k in ix'.tree ensures Demands(ix'.spec, primary', k, ix'.tree[k]) {
      var v := ix'.tree[k];
      if ix.spec.kind.Unique? {
        UniqueEntry(ix, primary, id, next, ix', k, v);
      } else {
        NonuniqueEntry(ix, primary, id, next, ix', k, v);
      }
      if v != id {
        OthersUnmoved(ix.spec, primary, id, next, k, v);
      }
    }
    if Complete(ix, primary) {
      forall k, v | Demands(ix'.spec, primary', k, v) ensures Has(ix'.tree, k, v) {
        if ix.spec.kind.Unique? {
          UniqueEntry(ix, primary, id, next, ix', k, v);
        } else {
          NonuniqueEntry(ix, primary, id, next, ix', k, v);
        }
        if v != id {
          OthersUnmoved(ix.spec, primary, id, next, k, v);
        }
        assert Demands(ix.spec, primary, k, v) ==> Has(ix.tree, k, v);
      }
    }
  }

  /** From a sound state the tree never reports an occupied key. */
  lemma NeverKeyExists(ix: IndexDescriptor, primary: map<Bytes, Doc>, id: Bytes, next: Option<Doc>)
    requires Keyed(primary) && IsId(id) && Sound(ix, primary)
    ensures MaintainOne(ix, Lookup(primary, id), next, id) != Err(BTreeKeyExists)
  {
    var prior := Lookup(primary, id);
    if ValidSpec(ix.spec) && KeysOfOpt(ix.spec, prior).Ok? && KeysOfOpt(ix.spec, next).Ok? {
      var oldKeys, newKeys := KeysOfOpt(ix.spec, prior).value, KeysOfOpt(ix.spec, next).value;
      if ix.spec.kind.Unique? {
        var p, n := First(oldKeys), First(newKeys);
        if n.Some? && n.value in ix.tree && ix.tree[n.value] == id {
          assert Demands(ix.spec, primary, n.value, id);
          assert p == n;
        }
      } else {
        forall k | k in Composed(newKeys, id) - Composed(oldKeys, id) ensures k !in ix.tree {
          ComposedMember(ix.spec, newKeys, k, id);
          ComposedMember(ix.spec, oldKeys, k, id);
          StripOfStorage(ix.spec.kind, StripIdSuffix(ix.spec.kind, k), id);
          if k in ix.tree {
            assert Demands(ix.spec, primary, k, ix.tree[k]);
            StripOfStorage(ix.spec.kind, StripIdSuffix(ix.spec.kind, k), ix.tree[k]);
          }
        }
      }
    }
  }

  /** Another document already holds key k. */
  ghost predicate Taken(spec: IndexSpec, primary: map<Bytes, Doc>, id: Bytes, k: Bytes) {
    exists other | other in primary :: other != id && k in UserKeys(spec, primary[other])
  }

  /** In an exact Unique index a key is taken just when it is filed under another id. */
  lemma TakenIsFiled(ix: IndexDescriptor, primary: map<Bytes, Doc>, id: Bytes, k: Bytes)
    requires Exact(ix, primary) && ix.spec.kind.Unique?
    ensures Taken(ix.spec, primary, id, k) <==> k in ix.tree && ix.tree[k] != id
  {
    if k in ix.tree {
      assert Demands(ix.spec, primary, k, ix.tree[k]);
    }
    if other :| other in primary && other != id && k in UserKeys(ix.spec, primary[other]) {
      assert Demands(ix.spec, primary, k, other);
      assert Has(ix.tree, k, other);
    }
  }

  /** A Unique index rejects a document exactly when another document holds its
      key, and what it then reports is that violation. */
  lemma UniqueRejectsExactlyTaken(ix: IndexDescriptor, primary: map<Bytes, Doc>, id: Bytes, doc: Doc)
    requires Keyed(primary) && IsId(id) && Exact(ix, primary)
    requires ix.spec.kind.Unique? && ExtractKeys(ix.spec, doc).Ok?
    ensures var k := ExtractKeys(ix.spec, doc).value[0];
            var r := MaintainOne(ix, Lookup(primary, id), Some(doc), id);
            && (r.Err? <==> Taken(ix.spec, primary, id, k))
            && (r.Err? ==> r.error == UniqueConstraintViolation(ix.spec.name, k))
  {
    var k, prior := ExtractKeys(ix.spec, doc).value[0], Lookup(primary, id);
    NeverKeyExists(ix, primary, id, Some(doc));
    TakenIsFiled(ix, primary, id, k);
    assert KeysOfOpt(ix.spec, prior).Ok?;
    if UniqueKey(ix.spec, prior) == Some(k) {
      UniqueKeyIs(ix.spec, prior);
      assert Demands(ix.spec, primary, k, id);
      assert Has(ix.tree, k, id);
    }
  }

  /** No two documents share a key of a complete Unique index. */
  lemma NoSharedUniqueKey(ix: IndexDescriptor, primary: map<Bytes, Doc>, a: Bytes, b: Bytes, k: Bytes)
    requires Complete(ix, primary) && ix.spec.kind.Unique?
    requires a in primary && b in primary
    requires k in UserKeys(ix.spec, primary[a]) && k in UserKeys(ix.spec, primary[b])
    ensures a == b
  {
    assert Demands(ix.spec, primary, k, a) && Demands(ix.spec, primary, k, b);
    assert Has(ix.tree, k, a) && Has(ix.tree, k, b);
  }

  lemma RefilingEqual(m: map<Bytes, Bytes>, prior: set<Bytes>, next: set<Bytes>, id: Bytes)
    requires forall k | k in prior * next :: Has(m, k, id)
    ensures (m - (prior - next)) + Filed(next - prior, id) == (m - prior) + Filed(next, id)
  {
    var diffed, refiled := (m - (prior - next)) + Filed(next - prior, id), (m - prior) + Filed(next, id);
    forall k ensures k in diffed <==> k in refiled {
      if k in prior * next { assert Has(m, k, id); }
    }
    forall k | k in refiled ensures diffed[k] == refiled[k] {
      if k in prior * next { assert Has(m, k, id); }
    }
  }

  /** From an exact state the diff gives what dropping every old entry and filing
      every new one would give. */
  lemma DiffIsRefiling(ix: IndexDescriptor, primary: map<Bytes, Doc>, id: Bytes, next: Option<Doc>,
          ix': IndexDescriptor)
    requires Keyed(primary) && IsId(id) && !ix.spec.kind.Unique?
    requires Exact(ix, primary) && Moved(ix, primary, id, next, ix')
    ensures var oldKeys := KeysOfOpt(ix.spec, Lookup(primary, id)).value;
            var newKeys := KeysOfOpt(ix.spec, next).value;
            ix'.tree == (ix.tree - Composed(oldKeys, id)) + Filed(Composed(newKeys, id), id)
  {
    var oldKeys, newKeys := KeysOfOpt(ix.spec, Lookup(primary, id)).value, KeysOfOpt(ix.spec, next).value;
    var prior, after := Composed(oldKeys, id), Composed(newKeys, id);
    forall k | k in prior * after ensures Has(ix.tree, k, id) {
      ComposedMember(ix.spec, oldKeys, k, id);
      assert Demands(ix.spec, primary, k, id);
    }
    RefilingEqual(ix.tree, prior, after, id);
  }
}
