/** Equality lookups, value-level ranges and counts over an index. */
module IndexLookup {
  import opened ByteOrder
  import opened Outcomes
  import opened OrderedMap
  import opened IndexKey
  import opened IndexExtract
  import opened IndexMaint
  import opened IndexBound
  import opened Collection
  import opened Agreement
  import opened IndexRead

  // ---- Ranges by field value ----

  /** A value lies between two bounds, field by field; a bound of fewer fields than
      the index has stands for everything that begins with it. */
  predicate PlacedWithin(kind: IndexKind, t: seq<Dynamic>, lo: Bound<Dynamic>, hi: Bound<Dynamic>) {
    && (lo.Unbounded? || PlacedAbove(Place(kind, t, lo.key), lo))
    && (hi.Unbounded? || PlacedBelow(Place(kind, t, hi.key), hi))
  }

  predicate SeparatesBound(spec: IndexSpec, b: Bound<Dynamic>, id: Bytes) {
    b.Unbounded? || Separates(|spec.keyPaths|, b.key, id)
  }

  /** No bound is a longer tuple than the index has fields, unless the stored ids
      sort before the fields it has more. */
  predicate SeparateAll(spec: IndexSpec, primary: map<Bytes, Doc>, lo: Bound<Dynamic>, hi: Bound<Dynamic>) {
    forall id | id in primary :: SeparatesBound(spec, lo, id) && SeparatesBound(spec, hi, id)
  }

  /** Byte bounds on a tree key are value bounds on its fields. */
  lemma SelectedByValue(spec: IndexSpec, t: seq<Dynamic>, u: Bytes, id: Bytes, lo: Bound<Dynamic>, hi: Bound<Dynamic>)
    requires EncodeKey(spec.kind, |spec.keyPaths|, t) == Ok(u) && IsId(id)
    requires EncodeDynamicBound(lo).Ok? && EncodeDynamicBound(hi).Ok?
    requires SeparatesBound(spec, lo, id) && SeparatesBound(spec, hi, id)
    ensures Selected(spec.kind, u, id, EncodeDynamicBound(lo).value, EncodeDynamicBound(hi).value) <==>
              PlacedWithin(spec.kind, t, lo, hi)
  {
    var n := |spec.keyPaths|;
    if !lo.Unbounded? {
      if spec.kind.Unique? { PlainByValue(n, t, lo.key); } else { WidenedByValue(spec.kind, n, t, lo.key, id); }
    }
    if !hi.Unbounded? {
      if spec.kind.Unique? { PlainByValue(n, t, hi.key); } else { WidenedByValue(spec.kind, n, t, hi.key, id); }
    }
  }

  /** Some indexed value of the document lies within the bounds. */
  ghost predicate HasValueWithin(spec: IndexSpec, doc: Doc, lo: Bound<Dynamic>, hi: Bound<Dynamic>) {
    exists t | IndexedValue(spec, doc, t) :: PlacedWithin(spec.kind, t, lo, hi)
  }

  lemma TupleKeys(spec: IndexSpec, doc: Doc, t: seq<Dynamic>)
    requires ExtractKeys(spec, doc).Ok? && IndexedValue(spec, doc, t)
    ensures EncodeKey(spec.kind, |spec.keyPaths|, t).Ok?
    ensures EncodeKey(spec.kind, |spec.keyPaths|, t).value in UserKeys(spec, doc)
  {
    TuplesAreValues(spec, doc, t);
    var ts := Tuples(spec, doc).value;
    var i :| 0 <= i < |ts| && ts[i] == t;
    assert EncodeKey(spec.kind, |spec.keyPaths|, ts[i]) == Ok(ExtractKeys(spec, doc).value[i]);
    assert ExtractKeys(spec, doc).value[i] in ExtractKeys(spec, doc).value;
  }

  lemma KeyTuple(spec: IndexSpec, doc: Doc, u: Bytes) returns (t: seq<Dynamic>)
    requires u in UserKeys(spec, doc)
    ensures IndexedValue(spec, doc, t)
    ensures EncodeKey(spec.kind, |spec.keyPaths|, t) == Ok(u)
  {
    var ts, keys := Tuples(spec, doc).value, ExtractKeys(spec, doc).value;
    var i :| 0 <= i < |keys| && keys[i] == u;
    t := ts[i];
    TuplesAreValues(spec, doc, t);
  }

  predicate Delivers(ps: seq<(Bytes, Bytes)>, id: Bytes) {
    exists i | 0 <= i < |ps| :: ps[i].1 == id
  }

  /** A range over an exact index, with whatever bounds can be encoded, delivers a
      document exactly when one of its indexed values lies between them in field
      order. */
  lemma RangeByValue(ix: IndexDescriptor, primary: map<Bytes, Doc>, lo: Bound<Dynamic>, hi: Bound<Dynamic>, id: Bytes)
    requires Keyed(primary) && Exact(ix, primary)
    requires EncodeDynamicBound(lo).Ok? && EncodeDynamicBound(hi).Ok? && SeparateAll(ix.spec, primary, lo, hi)
    ensures Delivers(RangePairs(ix, EncodeDynamicBound(lo).value, EncodeDynamicBound(hi).value), id) <==>
              id in primary && HasValueWithin(ix.spec, primary[id], lo, hi)
  {
    var l, h := EncodeDynamicBound(lo).value, EncodeDynamicBound(hi).value;
    RangeAnswers(ix, primary, l, h);
    var ps := RangePairs(ix, l, h);
    if Delivers(ps, id) {
      var i :| 0 <= i < |ps| && ps[i].1 == id;
      assert ps[i] in Matching(ix.spec, primary, l, h);
      var t := KeyTuple(ix.spec, primary[id], ps[i].0);
      SelectedByValue(ix.spec, t, ps[i].0, id, lo, hi);
    }
    if id in primary && HasValueWithin(ix.spec, primary[id], lo, hi) {
      var t :| IndexedValue(ix.spec, primary[id], t) && PlacedWithin(ix.spec.kind, t, lo, hi);
      TupleKeys(ix.spec, primary[id], t);
      var u := EncodeKey(ix.spec.kind, |ix.spec.keyPaths|, t).value;
      SelectedByValue(ix.spec, t, u, id, lo, hi);
      var p := (u, id);
      assert p in Matching(ix.spec, primary, l, h);
      if ix.spec.kind.Each? {
        assert AnsweredBy(ps, p);
      } else {
        assert p in ps;
      }
    }
  }

  // ---- Equality lookups ----

  function IdsOf(ks: seq<Entry<Bytes>>): (ids: seq<Bytes>)
    ensures |ids| == |ks| && forall i | 0 <= i < |ks| :: ids[i] == ks[i].val
  {
    seq(|ks|, i requires 0 <= i < |ks| => ks[i].val)
  }

  lemma {:induction false} KeptSnoc(es: seq<Entry<Bytes>>, e: Entry<Bytes>, seen: set<Bytes>)
    requires IsId(e.val)
    ensures Kept(Each, es + [e], seen) == Kept(Each, es, seen) + (if e.val in SeenAfter(Each, es, seen) then []
              else [e])
    ensures SeenAfter(Each, es + [e], seen) == SeenAfter(Each, es, seen) + {e.val}
  {
    if es == [] {
      assert es + [e] == [e] && [e][1..] == es;
    } else {
      assert (es + [e])[0] == es[0] && (es + [e])[1..] == es[1..] + [e];
      if es[0].val in seen { assert IsId(es[0].val) ==> Remember(Each, es[0], seen) == seen; }
      KeptSnoc(es[1..], e, Remember(Each, es[0], seen));
      KeptSnoc(es[1..], e, seen);
    }
  }

  /** One more entry in the de-duplicating collection of ids. */
  lemma CollectStep(es: seq<Entry<Bytes>>, i: nat)
    requires i < |es| && IsId(es[i].val)
    ensures var seen := SeenAfter(Each, es[..i], {});
            && IdsOf(Kept(Each, es[..i + 1], {})) ==
               IdsOf(Kept(Each, es[..i], {})) + (if es[i].val in seen then [] else [es[i].val])
            && SeenAfter(Each, es[..i + 1], {}) == seen + {es[i].val}
  {
    assert es[..i + 1] == es[..i] + [es[i]];
    KeptSnoc(es[..i], es[i], {});
  }

  /** The ids of a scan, each once, in scan order. */
  function DistinctIdsOf(es: seq<Entry<Bytes>>): (r: Result<seq<Bytes>>) {
    if AllIds(es) then Ok(IdsOf(Kept(Each, es, {}))) else Err(Corruption)
  }

  method DedupIds(entries: seq<Entry<Bytes>>) returns (r: Result<seq<Bytes>>)
    ensures r == DistinctIdsOf(entries)
  {
    var ids: seq<Bytes> := [];
    var emitted: set<Bytes> := {};
    for i := 0 to |entries|
      invariant forall j | 0 <= j < i :: IsId(entries[j].val)
      invariant ids == IdsOf(Kept(Each, entries[..i], {}))
      invariant emitted == SeenAfter(Each, entries[..i], {})
    {
      var e := entries[i];
      if !IsId(e.val) {
        return Err(Corruption);
      }
      CollectStep(entries, i);
      if e.val !in emitted {
        ids := ids + [e.val];
      }
      emitted := emitted + {e.val};
    }
    assert entries[..|entries|] == entries;
    return Ok(ids);
  }

  /** Ids filed under one exact user key. */
  method CollectNonuniqueEqual(ix: IndexDescriptor, key: Bytes) returns (r: Result<seq<Bytes>>)
    requires !ix.spec.kind.Unique?
    ensures r == DistinctIdsOf(Scan(ix, Included(key), Included(key)))
  {
    r := DedupIds(Range(ix.tree, Included(key), Included(key + SUFFIX_HIGH)));
  }

  /** The documents filed under exactly key u. */
  ghost predicate HoldsKey(spec: IndexSpec, primary: map<Bytes, Doc>, id: Bytes, u: Bytes) {
    id in primary && u in UserKeys(spec, primary[id])
  }

  /** ids lists, without repetition and in ascending order, the documents that hold key u. */
  ghost predicate Holders(ids: seq<Bytes>, spec: IndexSpec, primary: map<Bytes, Doc>, u: Bytes) {
    && Ascending(ids)
    && forall id :: id in ids <==> HoldsKey(spec, primary, id, u)
  }

  lemma EqualWithin(u: Bytes, key: Bytes)
    ensures Within(u, Included(key), Included(key)) <==> u == key
  {
    if Less(key, u) { LessAsymmetric(key, u); }
  }

  lemma EqualBoundsProper(spec: IndexSpec, u: Bytes)
    requires IsKeyOf(spec, u)
    ensures ProperBounds(spec, Included(u), Included(u))
  {
    forall v | IsKeyOf(spec, v) ensures Apart(v, u) {
      if v <= u { KeysPrefixFree(spec, v, u); }
      if u <= v { KeysPrefixFree(spec, u, v); }
    }
  }

  /** The scan behind an equality lookup holds one entry per holder, in id order. */
  lemma EqualEntry(ix: IndexDescriptor, primary: map<Bytes, Doc>, u: Bytes, k: Bytes, id: Bytes)
    requires Keyed(primary) && Exact(ix, primary) && IsKeyOf(ix.spec, u) && !ix.spec.kind.Unique?
    ensures Entry(k, id) in Scan(ix, Included(u), Included(u)) <==> HoldsKey(ix.spec, primary, id, u) && k == u + id
  {
    var v := StripIdSuffix(ix.spec.kind, k);
    EqualBoundsProper(ix.spec, u);
    ScanIsMatching(ix, primary, Included(u), Included(u), k, id);
    MatchingIsWithin(ix.spec, primary, Included(u), Included(u), v, id);
    EqualWithin(v, u);
    if IsId(id) { StripOfStorage(ix.spec.kind, u, id); }
  }

  lemma EqualScan(ix: IndexDescriptor, primary: map<Bytes, Doc>, u: Bytes, id: Bytes)
    requires Keyed(primary) && Exact(ix, primary) && IsKeyOf(ix.spec, u) && !ix.spec.kind.Unique?
    ensures Entry(u + id, id) in Scan(ix, Included(u), Included(u)) <==> HoldsKey(ix.spec, primary, id, u)
    ensures forall e | e in Scan(ix, Included(u), Included(u)) :: e.key == u + e.val
  {
    EqualEntry(ix, primary, u, u + id, id);
    forall e | e in Scan(ix, Included(u), Included(u)) ensures e.key == u + e.val {
      assert e == Entry(e.key, e.val);
      EqualEntry(ix, primary, u, e.key, e.val);
    }
  }

  /** Entries under one user key are in id order, as are the ids kept of them. */
  lemma SharedKeyIdsAscend(es: seq<Entry<Bytes>>, u: Bytes)
    requires KeysAscend(es) && forall e | e in es :: e.key == u + e.val
    ensures Ascending(IdsOf(Kept(Each, es, {})))
  {
    var ks := Kept(Each, es, {});
    KeptIsSubsequence(Each, es, {});
    forall i, j | 0 <= i < j < |ks| ensures Less(ks[i].val, ks[j].val) {
      assert ks[i] in es && ks[j] in es;
      LessCommonPrefix(u, ks[i].val, ks[j].val);
    }
  }

  /** The ids kept are those of the entries. */
  lemma KeptIdsAre(es: seq<Entry<Bytes>>, u: Bytes, id: Bytes)
    requires AllIds(es) && KeysAscend(es) && forall e | e in es :: e.key == u + e.val
    ensures id in IdsOf(Kept(Each, es, {})) <==> Entry(u + id, id) in es
  {
    var ks := Kept(Each, es, {});
    KeptCovers(es, Entry(u + id, id));
    KeptIsSubsequence(Each, es, {});
    if id in IdsOf(ks) {
      var i :| 0 <= i < |ks| && IdsOf(ks)[i] == id;
      assert ks[i] in es && ks[i] == Entry(u + id, id);
    }
  }

  /** On an exact index the de-duplicated ids of an equality scan are the holders. */
  lemma EqualIdsAreHolders(ix: IndexDescriptor, primary: map<Bytes, Doc>, u: Bytes)
    requires Keyed(primary) && Exact(ix, primary) && IsKeyOf(ix.spec, u) && !ix.spec.kind.Unique?
    ensures AllIds(Scan(ix, Included(u), Included(u)))
    ensures Holders(IdsOf(Kept(Each, Scan(ix, Included(u), Included(u)), {})), ix.spec, primary, u)
  {
    var es := Scan(ix, Included(u), Included(u));
    ScanOfExact(ix, primary, Included(u), Included(u));
    EqualScan(ix, primary, u, u);
    SharedKeyIdsAscend(es, u);
    forall id ensures id in IdsOf(Kept(Each, es, {})) <==> HoldsKey(ix.spec, primary, id, u) {
      EqualScan(ix, primary, u, id);
      KeptIdsAre(es, u, id);
    }
  }

  lemma KeptCovers(es: seq<Entry<Bytes>>, e: Entry<Bytes>)
    requires AllIds(es) && KeysAscend(es)
    ensures e in es ==> e.val in IdsOf(Kept(Each, es, {}))
  {
    KeptOncePerId(es, {});
    var ks := Kept(Each, es, {});
    if e in es {
      assert Represented(ks, e);
      var i :| 0 <= i < |ks| && ks[i].val == e.val;
      assert IdsOf(ks)[i] == e.val;
    }
  }

  /** Fetches documents by id; a missing one is an orphaned index entry. */
  function FetchAll(primary: map<Bytes, Doc>, ids: seq<Bytes>): (r: Result<seq<Doc>>)
    ensures (forall id | id in ids :: id in primary) ==>
              && r.Ok? && |r.value| == |ids|
              && forall i | 0 <= i < |ids| :: ids[i] in primary && r.value[i] == primary[ids[i]]
    ensures r.Ok? ==> forall id | id in ids :: id in primary
    ensures r.Err? ==> r.error == Corruption
  {
    if ids == [] then Ok([])
    else if ids[0] !in primary then Err(Corruption)
    else
      assert forall i | 0 < i < |ids| :: ids[i] == ids[1..][i - 1];
      var rest :- FetchAll(primary, ids[1..]);
      Ok([primary[ids[0]]] + rest)
  }

  function HolderIds(ix: IndexDescriptor, u: Bytes): (r: Result<seq<Bytes>>) {
    if !ix.spec.kind.Unique? then DistinctIdsOf(Scan(ix, Included(u), Included(u)))
    else if u !in ix.tree then Ok([])
    else if IsId(ix.tree[u]) then Ok([ix.tree[u]])
    else Err(Corruption)
  }

  function LookupResult(s: State, name: string, key: Dynamic): (r: Result<seq<Doc>>) {
    var ix :- ActiveIndex(s, name);
    if ix.spec.kind.Composite? then Err(InvalidArgument) else
    var u :- EncodeKey(ix.spec.kind, |ix.spec.keyPaths|, [key]);
    var ids :- HolderIds(ix, u);
    FetchAll(s.primary, ids)
  }

  method Lookup(s: State, name: string, key: Dynamic) returns (r: Result<seq<Doc>>)
    ensures r == LookupResult(s, name, key)
  {
    var ix :- ActiveIndex(s, name);
    if ix.spec.kind.Composite? {
      return Err(InvalidArgument);
    }
    var u :- EncodeKey(ix.spec.kind, |ix.spec.keyPaths|, [key]);
    var ids: seq<Bytes> := [];
    if ix.spec.kind.Unique? {
      if u in ix.tree {
        if !IsId(ix.tree[u]) {
          return Err(Corruption);
        }
        ids := [ix.tree[u]];
      }
    } else {
      ids :- CollectNonuniqueEqual(ix, u);
    }
    r := FetchAll(s.primary, ids);
  }

  /** On an exact index a lookup returns the documents holding the value, by id. */
  lemma LookupMeaning(s: State, name: string, key: Dynamic) returns (ids: seq<Bytes>)
    requires Keyed(s.primary) && ActiveIndex(s, name).Ok?
    requires Exact(ActiveIndex(s, name).value, s.primary) && ValidSpec(ActiveIndex(s, name).value.spec)
    requires !ActiveIndex(s, name).value.spec.kind.Composite? && Encodable(key)
    ensures Holders(ids, ActiveIndex(s, name).value.spec, s.primary, Enc(key))
    ensures LookupResult(s, name, key).Ok? && |LookupResult(s, name, key).value| == |ids|
    ensures forall i | 0 <= i < |ids| :: ids[i] in s.primary && LookupResult(s, name, key).value[i] == s.primary[ids[i]]
  {
    var ix := ActiveIndex(s, name).value;
    var u := Enc(key);
    assert EncodeKey(ix.spec.kind, |ix.spec.keyPaths|, [key]) == Ok(u);
    if ix.spec.kind.Unique? {
      UniqueHolder(ix, s.primary, u);
    } else {
      EqualIdsAreHolders(ix, s.primary, u);
    }
    ids := HolderIds(ix, u).value;
    assert forall id | id in ids :: HoldsKey(ix.spec, s.primary, id, u);
  }

  /** A lookup is answered exactly for an encodable value and an Active index of one
      field per key. */
  lemma LookupFailsExactly(s: State, name: string, key: Dynamic)
    requires Keyed(s.primary)
    requires ActiveIndex(s, name).Ok? ==>
               Exact(ActiveIndex(s, name).value, s.primary) && ValidSpec(ActiveIndex(s, name).value.spec)
    ensures var r, found := LookupResult(s, name, key), ActiveIndex(s, name);
            if found.Err? then r == Err(IndexNotFound(name))
            else if found.value.spec.kind.Composite? || !Encodable(key) then r == Err(InvalidArgument)
            else r.Ok?
  {
    if ActiveIndex(s, name).Ok? && !ActiveIndex(s, name).value.spec.kind.Composite? && Encodable(key) {
      var _ := LookupMeaning(s, name, key);
    }
  }

  lemma UniqueHolder(ix: IndexDescriptor, primary: map<Bytes, Doc>, u: Bytes)
    requires Keyed(primary) && Exact(ix, primary) && ix.spec.kind.Unique?
    ensures Holders(if u in ix.tree then [ix.tree[u]] else [], ix.spec, primary, u)
  {
    forall id ensures HoldsKey(ix.spec, primary, id, u) <==> Has(ix.tree, u, id) {
      assert HoldsKey(ix.spec, primary, id, u) <==> Demands(ix.spec, primary, u, id);
      if u in ix.tree { assert Demands(ix.spec, primary, u, ix.tree[u]); }
    }
  }
}
