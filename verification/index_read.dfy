/** Reads through an index: ranges, lookups and counts on one snapshot of a collection. */
module IndexRead {
  import opened ByteOrder
  import opened Outcomes
  import opened OrderedMap
  import opened IndexKey
  import opened IndexExtract
  import opened IndexMaint
  import opened IndexBound
  import opened Collection
  import opened Agreement
  import IndexCatalog

  const MAX_DISTINCT_IDS: nat := 100_000

  function ActiveIndex(s: State, name: string): (r: Result<IndexDescriptor>)
    ensures r.Ok? ==> r.value in s.indexes && r.value.status.Active? && r.value.spec.name == name
  {
    var found := IndexCatalog.Find(s.indexes, name);
    if found.Some? && s.indexes[found.value].status.Active? then Ok(s.indexes[found.value])
    else Err(IndexNotFound(name))
  }

  /** On a well-formed roster an index is found by name exactly while it is Active. */
  lemma ActiveIndexExactly(s: State, name: string)
    requires IndexCatalog.WellFormed(s.indexes)
    ensures var r := ActiveIndex(s, name);
            && (r.Ok? <==>
                  exists i | 0 <= i < |s.indexes| :: s.indexes[i].spec.name == name && s.indexes[i].status.Active?)
            && (forall i | 0 <= i < |s.indexes| && s.indexes[i].spec.name == name && s.indexes[i].status.Active? ::
                  r == Ok(s.indexes[i]))
            && (r.Err? ==> r.error == IndexNotFound(name))
  {}

  function Scan(ix: IndexDescriptor, lo: Bound<Bytes>, hi: Bound<Bytes>): seq<Entry<Bytes>> {
    Range(ix.tree, WidenLowerFor(ix.spec.kind, lo), WidenUpperFor(ix.spec.kind, hi))
  }

  /** A scanned entry reduced to its user key and id. */
  type Staged = Result<(Bytes, Bytes)>

  /** Staging one entry: a value that is no id becomes an error, and an Each index
      passes over an id seen before. */
  function StageOne(kind: IndexKind, e: Entry<Bytes>, seen: set<Bytes>): (st: seq<Staged>) {
    if !IsId(e.val) then [Err(Corruption)]
    else if kind.Each? && e.val in seen then []
    else [Ok((StripIdSuffix(kind, e.key), e.val))]
  }

  function Remember(kind: IndexKind, e: Entry<Bytes>, seen: set<Bytes>): set<Bytes> {
    if kind.Each? && IsId(e.val) then seen + {e.val} else seen
  }

  function Stage(kind: IndexKind, es: seq<Entry<Bytes>>, seen: set<Bytes>): (st: seq<Staged>) {
    if es == [] then []
    else StageOne(kind, es[0], seen) + Stage(kind, es[1..], Remember(kind, es[0], seen))
  }

  /** The ids an Each index remembers after staging. */
  function SeenAfter(kind: IndexKind, es: seq<Entry<Bytes>>, seen: set<Bytes>): set<Bytes> {
    if es == [] then seen else SeenAfter(kind, es[1..], Remember(kind, es[0], seen))
  }

  type Row = Result<(Bytes, Doc)>

  /** Fetching the document behind a staged entry. */
  function Resolve(primary: map<Bytes, Doc>, st: Staged): (row: Row) {
    if st.Err? then Err(st.error)
    else if st.value.1 in primary then Ok((st.value.0, primary[st.value.1]))
    else Err(Corruption)
  }

  function ResolveAll(primary: map<Bytes, Doc>, st: seq<Staged>): (rows: seq<Row>)
    ensures |rows| == |st| && forall i | 0 <= i < |st| :: rows[i] == Resolve(primary, st[i])
  {
    seq(|st|, i requires 0 <= i < |st| => Resolve(primary, st[i]))
  }

  function IndexRange(s: State, name: string, lo: Bound<Bytes>, hi: Bound<Bytes>): (r: Result<seq<Row>>) {
    var ix :- ActiveIndex(s, name);
    Ok(ResolveAll(s.primary, Stage(ix.spec.kind, Scan(ix, lo, hi), {})))
  }

  lemma {:induction false} StageConcat(kind: IndexKind, a: seq<Entry<Bytes>>, b: seq<Entry<Bytes>>, seen: set<Bytes>)
    ensures Stage(kind, a + b, seen) == Stage(kind, a, seen) + Stage(kind, b, SeenAfter(kind, a, seen))
    ensures SeenAfter(kind, a + b, seen) == SeenAfter(kind, b, SeenAfter(kind, a, seen))
  {
    if a == [] {
      assert a + b == b;
    } else {
      assert (a + b)[0] == a[0] && (a + b)[1..] == a[1..] + b;
      StageConcat(kind, a[1..], b, Remember(kind, a[0], seen));
    }
  }

  lemma StageSnoc(kind: IndexKind, es: seq<Entry<Bytes>>, i: nat, seen: set<Bytes>)
    requires i < |es|
    ensures Stage(kind, es[..i + 1], seen) ==
            Stage(kind, es[..i], seen) + StageOne(kind, es[i], SeenAfter(kind, es[..i], seen))
    ensures SeenAfter(kind, es[..i + 1], seen) == Remember(kind, es[i], SeenAfter(kind, es[..i], seen))
  {
    var one: seq<Entry<Bytes>> := [es[i]];
    assert es[..i + 1] == es[..i] + one && one[0] == es[i] && one[1..] == [];
    StageConcat(kind, es[..i], one, seen);
  }

  lemma ResolveConcat(primary: map<Bytes, Doc>, a: seq<Staged>, b: seq<Staged>)
    ensures ResolveAll(primary, a + b) == ResolveAll(primary, a) + ResolveAll(primary, b)
  {}

  lemma ResolveSingle(primary: map<Bytes, Doc>, st: Staged)
    ensures ResolveAll(primary, [st]) == [Resolve(primary, st)]
  {}

  // ---- The eager scan ----

  method CollectIndexRange(s: State, name: string, lo: Bound<Bytes>, hi: Bound<Bytes>) returns (r: Result<seq<Row>>)
    ensures r == IndexRange(s, name, lo, hi)
  {
    var ix :- ActiveIndex(s, name);
    var kind, entries := ix.spec.kind, Scan(ix, lo, hi);
    var rows: seq<Row> := [];
    var emitted: set<Bytes> := {};
    for i := 0 to |entries|
      invariant rows == ResolveAll(s.primary, Stage(kind, entries[..i], {}))
      invariant emitted == SeenAfter(kind, entries[..i], {})
    {
      var e := entries[i];
      StageSnoc(kind, entries, i, {});
      ResolveConcat(s.primary, Stage(kind, entries[..i], {}), StageOne(kind, e, emitted));
      if !IsId(e.val) {
        ResolveSingle(s.primary, Err(Corruption));
        rows := rows + [Err(Corruption)];
      } else if !(kind.Each? && e.val in emitted) {
        var userKey := StripIdSuffix(kind, e.key);
        ResolveSingle(s.primary, Ok((userKey, e.val)));
        rows := rows + [if e.val in s.primary then Ok((userKey, s.primary[e.val])) else Err(Corruption)];
      }
      emitted := Remember(kind, e, emitted);
    }
    assert entries[..|entries|] == entries;
    return Ok(rows);
  }

  // ---- What an index scan means ----

  /** The widened bounds select the tree key under which user key u is filed. */
  predicate Selected(kind: IndexKind, u: Bytes, id: Bytes, lo: Bound<Bytes>, hi: Bound<Bytes>) {
    Within(StorageKey(kind, u, id), WidenLowerFor(kind, lo), WidenUpperFor(kind, hi))
  }

  /** The (user key, id) pairs of documents with a key that the bounds select. */
  function Matching(spec: IndexSpec, primary: map<Bytes, Doc>, lo: Bound<Bytes>, hi: Bound<Bytes>)
    : set<(Bytes, Bytes)>
  {
    set id, u | id in primary && u in UserKeys(spec, primary[id]) && Selected(spec.kind, u, id, lo, hi) :: (u, id)
  }

  /** The bounds do not cut stored keys of this index in the middle. */
  ghost predicate ProperBounds(spec: IndexSpec, lo: Bound<Bytes>, hi: Bound<Bytes>) {
    forall u | IsKeyOf(spec, u) :: ApartFromBound(u, lo) && ApartFromBound(u, hi)
  }

  /** By such bounds a key is selected when it lies within them. */
  lemma MatchingIsWithin(spec: IndexSpec, primary: map<Bytes, Doc>, lo: Bound<Bytes>, hi: Bound<Bytes>, u: Bytes,
          id: Bytes)
    requires Keyed(primary) && ProperBounds(spec, lo, hi)
    ensures (u, id) in Matching(spec, primary, lo, hi) <==>
              id in primary && u in UserKeys(spec, primary[id]) && Within(u, lo, hi)
  {
    if id in primary && u in UserKeys(spec, primary[id]) {
      ExtractedAreKeys(spec, primary[id], u);
      WideningExact(spec.kind, u, id, lo, hi);
    }
  }

  /** From an exact index, scanned entries are precisely the matching pairs. */
  lemma ScanIsMatching(ix: IndexDescriptor, primary: map<Bytes, Doc>, lo: Bound<Bytes>, hi: Bound<Bytes>, k: Bytes,
          id: Bytes)
    requires Keyed(primary) && Exact(ix, primary)
    ensures Entry(k, id) in Scan(ix, lo, hi) <==>
              && (StripIdSuffix(ix.spec.kind, k), id) in Matching(ix.spec, primary, lo, hi)
              && k == StorageKey(ix.spec.kind, StripIdSuffix(ix.spec.kind, k), id)
  {
    var u := StripIdSuffix(ix.spec.kind, k);
    if Demands(ix.spec, primary, k, id) {
      assert Has(ix.tree, k, id);
    }
    if Entry(k, id) in Scan(ix, lo, hi) {
      assert Demands(ix.spec, primary, k, id);
    }
  }

  /** The entries that staging keeps, given that every value is an id. */
  function Kept(kind: IndexKind, es: seq<Entry<Bytes>>, seen: set<Bytes>): (ks: seq<Entry<Bytes>>) {
    if es == [] then []
    else if kind.Each? && es[0].val in seen then Kept(kind, es[1..], seen)
    else [es[0]] + Kept(kind, es[1..], Remember(kind, es[0], seen))
  }

  function PairsOf(kind: IndexKind, ks: seq<Entry<Bytes>>): (ps: seq<(Bytes, Bytes)>)
    ensures |ps| == |ks| && forall i | 0 <= i < |ks| :: ps[i] == (StripIdSuffix(kind, ks[i].key), ks[i].val)
  {
    seq(|ks|, i requires 0 <= i < |ks| => (StripIdSuffix(kind, ks[i].key), ks[i].val))
  }

  predicate AllIds(es: seq<Entry<Bytes>>) {
    forall i | 0 <= i < |es| :: IsId(es[i].val)
  }

  predicate KeysAscend(es: seq<Entry<Bytes>>) {
    forall i, j | 0 <= i < j < |es| :: Less(es[i].key, es[j].key)
  }

  lemma {:induction false} StageKeeps(kind: IndexKind, es: seq<Entry<Bytes>>, seen: set<Bytes>)
    requires AllIds(es)
    ensures |Stage(kind, es, seen)| == |Kept(kind, es, seen)|
    ensures forall i | 0 <= i < |Kept(kind, es, seen)| ::
              Stage(kind, es, seen)[i] == Ok(PairsOf(kind, Kept(kind, es, seen))[i])
  {
    if es != [] {
      assert AllIds(es[1..]) by {
        forall i | 0 <= i < |es[1..]| ensures IsId(es[1..][i].val) { assert es[1..][i] == es[i + 1]; }
      }
      StageKeeps(kind, es[1..], Remember(kind, es[0], seen));
      assert kind.Each? && es[0].val in seen ==> Remember(kind, es[0], seen) == seen;
    }
  }

  /** Keeping preserves order and, outside Each, drops nothing. */
  lemma {:induction false} KeptIsSubsequence(kind: IndexKind, es: seq<Entry<Bytes>>, seen: set<Bytes>)
    requires KeysAscend(es)
    ensures KeysAscend(Kept(kind, es, seen))
    ensures forall e | e in Kept(kind, es, seen) :: e in es
    ensures !kind.Each? ==> Kept(kind, es, seen) == es
  {
    if es != [] {
      var rest := Kept(kind, es[1..], Remember(kind, es[0], seen));
      assert KeysAscend(es[1..]) by {
        forall i, j | 0 <= i < j < |es[1..]| ensures Less(es[1..][i].key, es[1..][j].key) {
          assert es[1..][i] == es[i + 1] && es[1..][j] == es[j + 1];
        }
      }
      KeptIsSubsequence(kind, es[1..], Remember(kind, es[0], seen));
      KeptIsSubsequence(kind, es[1..], seen);
      assert forall e :: e in es <==> e == es[0] || e in es[1..];
      forall i | 0 <= i < |rest| ensures Less(es[0].key, rest[i].key) {
        assert rest[i] in es[1..];
        var j :| 0 <= j < |es[1..]| && es[1..][j] == rest[i];
        assert es[j + 1] == rest[i];
      }
      assert es == [es[0]] + es[1..];
    }
  }

  /** Some kept entry carries this entry's id and sorts no later. */
  ghost predicate Represented(ks: seq<Entry<Bytes>>, e: Entry<Bytes>) {
    exists i | 0 <= i < |ks| :: ks[i].val == e.val && AtMost(ks[i].key, e.key)
  }

  predicate FreshIds(ks: seq<Entry<Bytes>>, seen: set<Bytes>) {
    forall i | 0 <= i < |ks| :: ks[i].val !in seen
  }

  predicate DistinctIds(ks: seq<Entry<Bytes>>) {
    forall i, j | 0 <= i < j < |ks| :: ks[i].val != ks[j].val
  }

  lemma DistinctCons(e: Entry<Bytes>, ks: seq<Entry<Bytes>>, seen: set<Bytes>)
    requires DistinctIds(ks) && FreshIds(ks, seen + {e.val}) && e.val !in seen
    ensures DistinctIds([e] + ks) && FreshIds([e] + ks, seen)
  {}

  /** Under an Each index each id is kept once, at its first entry. */
  lemma {:induction false} KeptOncePerId(es: seq<Entry<Bytes>>, seen: set<Bytes>)
    requires AllIds(es) && KeysAscend(es)
    ensures FreshIds(Kept(Each, es, seen), seen) && DistinctIds(Kept(Each, es, seen))
    ensures forall e | e in es && e.val !in seen :: Represented(Kept(Each, es, seen), e)
  {
    if es != [] {
      var here := es[0];
      assert IsId(here.val);
      assert KeysAscend(es[1..]) && AllIds(es[1..]) by {
        assert forall i | 0 <= i < |es[1..]| :: es[1..][i] == es[i + 1];
      }
      var ks := Kept(Each, es, seen);
      if here.val in seen {
        KeptOncePerId(es[1..], seen);
        forall e | e in es && e.val !in seen ensures Represented(ks, e) {
          assert e in es[1..];
        }
      } else {
        KeptOncePerId(es[1..], seen + {here.val});
        var rest := Kept(Each, es[1..], seen + {here.val});
        DistinctCons(here, rest, seen);
        forall e | e in es && e.val !in seen ensures Represented(ks, e) {
          if e.val == here.val {
            assert ks[0] == here;
            var j :| 0 <= j < |es| && es[j] == e;
            assert AtMost(here.key, e.key);
          } else {
            assert e in es[1..] && Represented(rest, e);
            var i :| 0 <= i < |rest| && rest[i].val == e.val && AtMost(rest[i].key, e.key);
            assert ks[i + 1] == rest[i];
          }
        }
      }
    }
  }

  /** What the answer to a range query has to be: the matching pairs in tree-key
      order - all of them, or for an Each index one per document, at the least
      of its keys within the bounds. */
  ghost predicate Answers(ps: seq<(Bytes, Bytes)>, spec: IndexSpec, primary: map<Bytes, Doc>, lo: Bound<Bytes>,
          hi: Bound<Bytes>) {
    && PairsAscend(ps, spec.kind)
    && (forall i | 0 <= i < |ps| :: ps[i] in Matching(spec, primary, lo, hi))
    && (!spec.kind.Each? ==> forall p | p in Matching(spec, primary, lo, hi) :: p in ps)
    && (spec.kind.Each? ==>
          && (forall i, j | 0 <= i < j < |ps| :: ps[i].1 != ps[j].1)
          && (forall p | p in Matching(spec, primary, lo, hi) :: AnsweredBy(ps, p)))
  }

  ghost predicate AnsweredBy(ps: seq<(Bytes, Bytes)>, p: (Bytes, Bytes)) {
    exists i | 0 <= i < |ps| :: ps[i].1 == p.1 && AtMost(ps[i].0, p.0)
  }

  /** Tree keys of one id are ordered as their user keys. */
  lemma SuffixKeepsOrder(spec: IndexSpec, u: Bytes, v: Bytes, id: Bytes)
    requires !spec.kind.Unique? && IsKeyOf(spec, u) && IsKeyOf(spec, v)
    requires AtMost(StorageKey(spec.kind, u, id), StorageKey(spec.kind, v, id))
    ensures AtMost(u, v)
  {
    if u <= v { KeysPrefixFree(spec, u, v); }
    if v <= u { KeysPrefixFree(spec, v, u); }
    if u != v {
      ApartOrder(u, id, v, id);
    }
  }

  function RangePairs(ix: IndexDescriptor, lo: Bound<Bytes>, hi: Bound<Bytes>): seq<(Bytes, Bytes)> {
    PairsOf(ix.spec.kind, Kept(ix.spec.kind, Scan(ix, lo, hi), {}))
  }

  lemma ScanOfExact(ix: IndexDescriptor, primary: map<Bytes, Doc>, lo: Bound<Bytes>, hi: Bound<Bytes>)
    requires Keyed(primary) && Sound(ix, primary)
    ensures AllIds(Scan(ix, lo, hi)) && KeysAscend(Scan(ix, lo, hi))
    ensures forall e | e in Scan(ix, lo, hi) :: Demands(ix.spec, primary, e.key, e.val)
  {
    var es := Scan(ix, lo, hi);
    forall e | e in es ensures Demands(ix.spec, primary, e.key, e.val) && IsId(e.val) {
      assert e.key in ix.tree;
    }
    assert forall i | 0 <= i < |es| :: es[i] in es;
  }

  lemma PairOfEntry(ix: IndexDescriptor, primary: map<Bytes, Doc>, lo: Bound<Bytes>, hi: Bound<Bytes>,
          p: (Bytes, Bytes))
    requires Keyed(primary) && Exact(ix, primary)
    ensures p in Matching(ix.spec, primary, lo, hi) ==> Entry(StorageKey(ix.spec.kind, p.0, p.1), p.1) in Scan(ix, lo,
              hi)
  {
    if p in Matching(ix.spec, primary, lo, hi) {
      StripOfStorage(ix.spec.kind, p.0, p.1);
      ScanIsMatching(ix, primary, lo, hi, StorageKey(ix.spec.kind, p.0, p.1), p.1);
      assert p == (p.0, p.1);
    }
  }

  /** Each delivered pair matches and comes from the entry at its tree key. */
  lemma PairsMatch(ix: IndexDescriptor, primary: map<Bytes, Doc>, lo: Bound<Bytes>, hi: Bound<Bytes>)
    requires Keyed(primary) && Exact(ix, primary)
    ensures forall i | 0 <= i < |RangePairs(ix, lo, hi)| ::
              && RangePairs(ix, lo, hi)[i] in Matching(ix.spec, primary, lo, hi)
              && StorageKey(ix.spec.kind, RangePairs(ix, lo, hi)[i].0, RangePairs(ix, lo, hi)[i].1) ==
                 Kept(ix.spec.kind, Scan(ix, lo, hi), {})[i].key
  {
    var ks := Kept(ix.spec.kind, Scan(ix, lo, hi), {});
    ScanOfExact(ix, primary, lo, hi);
    KeptIsSubsequence(ix.spec.kind, Scan(ix, lo, hi), {});
    forall i | 0 <= i < |ks|
      ensures RangePairs(ix, lo, hi)[i] in Matching(ix.spec, primary, lo, hi)
      ensures StorageKey(ix.spec.kind, RangePairs(ix, lo, hi)[i].0, RangePairs(ix, lo, hi)[i].1) == ks[i].key
    {
      assert ks[i] in ks && ks[i] == Entry(ks[i].key, ks[i].val);
      ScanIsMatching(ix, primary, lo, hi, ks[i].key, ks[i].val);
    }
  }

  lemma EachRepresented(ix: IndexDescriptor, primary: map<Bytes, Doc>, lo: Bound<Bytes>, hi: Bound<Bytes>,
          p: (Bytes, Bytes))
    requires Keyed(primary) && Exact(ix, primary) && ix.spec.kind.Each?
    requires p in Matching(ix.spec, primary, lo, hi)
    ensures Represented(Kept(ix.spec.kind, Scan(ix, lo, hi), {}), Entry(StorageKey(ix.spec.kind, p.0, p.1), p.1))
  {
    assert ix.spec.kind == Each;
    ScanOfExact(ix, primary, lo, hi);
    PairOfEntry(ix, primary, lo, hi, p);
    KeptOncePerId(Scan(ix, lo, hi), {});
  }

  lemma EachAnswered(ix: IndexDescriptor, primary: map<Bytes, Doc>, lo: Bound<Bytes>, hi: Bound<Bytes>,
          p: (Bytes, Bytes))
    requires Keyed(primary) && Exact(ix, primary) && ix.spec.kind.Each?
    requires p in Matching(ix.spec, primary, lo, hi)
    ensures AnsweredBy(RangePairs(ix, lo, hi), p)
  {
    var ps, ks := RangePairs(ix, lo, hi), Kept(ix.spec.kind, Scan(ix, lo, hi), {});
    EachRepresented(ix, primary, lo, hi, p);
    PairsMatch(ix, primary, lo, hi);
    var i :| 0 <= i < |ks| && ks[i].val == p.1 && AtMost(ks[i].key, StorageKey(ix.spec.kind, p.0, p.1));
    assert ps[i] in Matching(ix.spec, primary, lo, hi);
    ExtractedAreKeys(ix.spec, primary[p.1], p.0);
    ExtractedAreKeys(ix.spec, primary[p.1], ps[i].0);
    SuffixKeepsOrder(ix.spec, ps[i].0, p.0, p.1);
  }

  lemma OthersAnswered(ix: IndexDescriptor, primary: map<Bytes, Doc>, lo: Bound<Bytes>, hi: Bound<Bytes>,
          p: (Bytes, Bytes))
    requires Keyed(primary) && Exact(ix, primary) && !ix.spec.kind.Each?
    requires p in Matching(ix.spec, primary, lo, hi)
    ensures p in RangePairs(ix, lo, hi)
  {
    var es := Scan(ix, lo, hi);
    var e := Entry(StorageKey(ix.spec.kind, p.0, p.1), p.1);
    ScanOfExact(ix, primary, lo, hi);
    KeptIsSubsequence(ix.spec.kind, es, {});
    PairOfEntry(ix, primary, lo, hi, p);
    StripOfStorage(ix.spec.kind, p.0, p.1);
    var i :| 0 <= i < |es| && es[i] == e;
    assert RangePairs(ix, lo, hi)[i] == p;
  }

  predicate PairsAscend(ps: seq<(Bytes, Bytes)>, kind: IndexKind) {
    forall i, j | 0 <= i < j < |ps| :: Less(StorageKey(kind, ps[i].0, ps[i].1), StorageKey(kind, ps[j].0, ps[j].1))
  }

  lemma PairsAscendLikeKeys(ps: seq<(Bytes, Bytes)>, ks: seq<Entry<Bytes>>, kind: IndexKind)
    requires |ps| == |ks| && KeysAscend(ks)
    requires forall i | 0 <= i < |ps| :: StorageKey(kind, ps[i].0, ps[i].1) == ks[i].key
    ensures PairsAscend(ps, kind)
  {}

  lemma RangePairsOrder(ix: IndexDescriptor, primary: map<Bytes, Doc>, lo: Bound<Bytes>, hi: Bound<Bytes>)
    requires Keyed(primary) && Exact(ix, primary)
    ensures PairsAscend(RangePairs(ix, lo, hi), ix.spec.kind)
    ensures ix.spec.kind.Each? ==> DistinctIds(Kept(ix.spec.kind, Scan(ix, lo, hi), {}))
  {
    var kind, es := ix.spec.kind, Scan(ix, lo, hi);
    ScanOfExact(ix, primary, lo, hi);
    KeptIsSubsequence(kind, es, {});
    PairsMatch(ix, primary, lo, hi);
    PairsAscendLikeKeys(RangePairs(ix, lo, hi), Kept(kind, es, {}), kind);
    if kind == Each { KeptOncePerId(es, {}); }
  }

  /** On an exact index a range scan answers the query it was asked. */
  lemma RangeAnswers(ix: IndexDescriptor, primary: map<Bytes, Doc>, lo: Bound<Bytes>, hi: Bound<Bytes>)
    requires Keyed(primary) && Exact(ix, primary)
    ensures Answers(RangePairs(ix, lo, hi), ix.spec, primary, lo, hi)
  {
    var kind, ps := ix.spec.kind, RangePairs(ix, lo, hi);
    RangePairsOrder(ix, primary, lo, hi);
    PairsMatch(ix, primary, lo, hi);
    forall p | p in Matching(ix.spec, primary, lo, hi)
      ensures if kind.Each? then AnsweredBy(ps, p) else p in ps
    {
      if kind.Each? { EachAnswered(ix, primary, lo, hi, p); } else { OthersAnswered(ix, primary, lo, hi, p); }
    }
  }

  /** The rows delivered are the documents of the answer, none of them an error. */
  lemma IndexRangeMeaning(s: State, name: string, lo: Bound<Bytes>, hi: Bound<Bytes>)
    requires Keyed(s.primary) && ActiveIndex(s, name).Ok? && Exact(ActiveIndex(s, name).value, s.primary)
    ensures var ix := ActiveIndex(s, name).value;
            var ps, rows := RangePairs(ix, lo, hi), IndexRange(s, name, lo, hi).value;
            && Answers(ps, ix.spec, s.primary, lo, hi)
            && |rows| == |ps|
            && forall i | 0 <= i < |ps| :: ps[i].1 in s.primary && rows[i] == Ok((ps[i].0, s.primary[ps[i].1]))
  {
    var ix := ActiveIndex(s, name).value;
    RangeAnswers(ix, s.primary, lo, hi);
    ScanOfExact(ix, s.primary, lo, hi);
    StageKeeps(ix.spec.kind, Scan(ix, lo, hi), {});
    var ps := RangePairs(ix, lo, hi);
    forall i | 0 <= i < |ps| ensures ps[i].1 in s.primary {
      assert ps[i] in Matching(ix.spec, s.primary, lo, hi);
    }
  }
}
