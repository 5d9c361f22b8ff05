/** What a query fetches, in terms of stored documents and field values. */
module QueryMeaning {
  import opened ByteOrder
  import opened Outcomes
  import opened OrderedMap
  import opened IndexKey
  import opened IndexExtract
  import opened IndexMaint
  import opened IndexBound
  import opened Collection
  import opened Agreement
  import opened IndexRead
  import opened IndexLookup
  import opened Query

  predicate PairsStored(ps: seq<(Bytes, Bytes)>, primary: map<Bytes, Doc>) {
    forall i | 0 <= i < |ps| :: ps[i].1 in primary
  }

  /** The ids of the pairs whose documents pass the filters, in order. */
  function WantedIds(ps: seq<(Bytes, Bytes)>, primary: map<Bytes, Doc>, filters: seq<Doc -> bool>): (ids: seq<Bytes>)
    requires PairsStored(ps, primary)
  {
    if ps == [] then []
    else
      assert PairsStored(ps[1..], primary) by { assert forall i | 0 <= i < |ps[1..]| :: ps[1..][i] == ps[i + 1]; }
      var rest := WantedIds(ps[1..], primary, filters);
      if Wanted(filters, primary[ps[0].1]) then [ps[0].1] + rest else rest
  }

  predicate IdsDiffer(ps: seq<(Bytes, Bytes)>) {
    forall i, j | 0 <= i < j < |ps| :: ps[i].1 != ps[j].1
  }

  predicate NoRepeats(ids: seq<Bytes>) {
    forall i, j | 0 <= i < j < |ids| :: ids[i] != ids[j]
  }

  lemma {:induction false} WantedIdsAre(ps: seq<(Bytes, Bytes)>, primary: map<Bytes, Doc>, filters: seq<Doc -> bool>)
    requires PairsStored(ps, primary) && IdsDiffer(ps)
    ensures forall id :: id in WantedIds(ps, primary, filters) <==> Delivers(ps, id) && Wanted(filters, primary[id])
    ensures NoRepeats(WantedIds(ps, primary, filters))
  {
    if ps != [] {
      var rest := ps[1..];
      assert forall i | 0 <= i < |rest| :: rest[i] == ps[i + 1];
      WantedIdsAre(rest, primary, filters);
      forall id ensures Delivers(ps, id) <==> id == ps[0].1 || Delivers(rest, id) {
        DeliversCons(ps, id);
      }
    }
  }

  lemma DeliversCons(ps: seq<(Bytes, Bytes)>, id: Bytes)
    requires ps != []
    ensures Delivers(ps, id) <==> id == ps[0].1 || Delivers(ps[1..], id)
  {
    if i :| 0 <= i < |ps[1..]| && ps[1..][i].1 == id { assert ps[i + 1].1 == id; }
    if i :| 0 < i < |ps| && ps[i].1 == id { assert ps[1..][i - 1].1 == id; }
    if ps[0].1 == id { assert Delivers(ps, id); }
  }

  /** What is fetched from candidates that are the pairs' documents. */
  lemma {:induction false} MatchesOfPairs(rows: seq<Result<Doc>>, ps: seq<(Bytes, Bytes)>, primary: map<Bytes, Doc>,
          filters: seq<Doc -> bool>)
    requires PairsStored(ps, primary) && |rows| == |ps| && forall i | 0 <= i < |ps| :: rows[i] == Ok(primary[ps[i].1])
    ensures FirstError(rows).None?
    ensures |Matches(rows, filters)| == |WantedIds(ps, primary, filters)|
    ensures forall i | 0 <= i < |WantedIds(ps, primary, filters)| ::
              WantedIds(ps, primary, filters)[i] in primary &&
                  Matches(rows, filters)[i] == primary[WantedIds(ps, primary, filters)[i]]
  {
    if rows != [] {
      assert forall i | 0 <= i < |ps[1..]| :: ps[1..][i] == ps[i + 1] && rows[1..][i] == rows[i + 1];
      MatchesOfPairs(rows[1..], ps[1..], primary, filters);
    }
  }

  /** A range answer never names a document twice: outside Each a document has one
      key only. */
  lemma AnswersDiffer(ps: seq<(Bytes, Bytes)>, spec: IndexSpec, primary: map<Bytes, Doc>, lo: Bound<Bytes>,
          hi: Bound<Bytes>)
    requires Answers(ps, spec, primary, lo, hi)
    ensures IdsDiffer(ps)
  {
    if !spec.kind.Each? {
      forall i, j | 0 <= i < j < |ps| ensures ps[i].1 != ps[j].1 {
        OneKeyOfPair(spec, primary, lo, hi, ps[i]);
        OneKeyOfPair(spec, primary, lo, hi, ps[j]);
        LessIrreflexive(StorageKey(spec.kind, ps[i].0, ps[i].1));
      }
    }
  }

  lemma OneKeyOfPair(spec: IndexSpec, primary: map<Bytes, Doc>, lo: Bound<Bytes>, hi: Bound<Bytes>, p: (Bytes, Bytes))
    requires p in Matching(spec, primary, lo, hi) && !spec.kind.Each?
    ensures p.1 in primary && ExtractKeys(spec, primary[p.1]).Ok? && p.0 == ExtractKeys(spec, primary[p.1]).value[0]
  {
    var id, u :| id in primary && u in UserKeys(spec, primary[id]) && p == (u, id);
    OneKeyUnlessEach(spec, primary[id]);
  }

  /** A query takes scalar bounds; those are encoded as the collection's own. */
  lemma QueryBound(b: Bound<Dynamic>)
    requires EncodeBound(b).Ok?
    ensures EncodeDynamicBound(b) == EncodeBound(b)
  {}

  /** The fetched documents are those of the wanted ids of the answer. */
  lemma FetchOfPairs(s: State, name: string, lo: Bound<Dynamic>, hi: Bound<Dynamic>, filters: seq<Doc -> bool>,
          ix: IndexDescriptor)
    requires Keyed(s.primary) && ActiveIndex(s, name) == Ok(ix) && Exact(ix, s.primary)
    requires EncodeBound(lo).Ok? && EncodeBound(hi).Ok?
    ensures var ps := RangePairs(ix, EncodeBound(lo).value, EncodeBound(hi).value);
            && PairsStored(ps, s.primary) && IdsDiffer(ps)
            && Fetches(s, Query(OverIndex(name, lo, hi), filters, None, None, None), WantedIds(ps, s.primary, filters))
  {
    var l, h := EncodeBound(lo).value, EncodeBound(hi).value;
    var ps := RangePairs(ix, l, h);
    var rows := CandidateRows(s, name, l, h, ix);
    AnswersDiffer(ps, ix.spec, s.primary, l, h);
    MatchesOfPairs(rows, ps, s.primary, filters);
    FetchUnlimited(s, OverIndex(name, lo, hi), filters, rows);
  }

  /** The candidates of an exact index are the documents of its answer. */
  lemma CandidateRows(s: State, name: string, l: Bound<Bytes>, h: Bound<Bytes>, ix: IndexDescriptor)
    returns (rows: seq<Result<Doc>>)
    requires Keyed(s.primary) && ActiveIndex(s, name) == Ok(ix) && Exact(ix, s.primary)
    ensures IndexRange(s, name, l, h).Ok? && rows == DocsOf(IndexRange(s, name, l, h).value)
    ensures var ps := RangePairs(ix, l, h);
            && Answers(ps, ix.spec, s.primary, l, h) && PairsStored(ps, s.primary) && |rows| == |ps|
            && forall i | 0 <= i < |ps| :: rows[i] == Ok(s.primary[ps[i].1])
  {
    IndexRangeMeaning(s, name, l, h);
    rows := DocsOf(IndexRange(s, name, l, h).value);
  }

  lemma FetchUnlimited(s: State, source: Source, filters: seq<Doc -> bool>, rows: seq<Result<Doc>>)
    requires Candidates(s, source) == Ok(rows) && FirstError(rows).None?
    ensures FetchResult(s, Query(source, filters, None, None, None)) == Ok(Matches(rows, filters))
  {}

  /** The query succeeds with the documents of these ids, in this order. */
  predicate Fetches(s: State, q: Query, ids: seq<Bytes>) {
    var r := FetchResult(s, q);
    && r.Ok? && |r.value| == |ids|
    && forall i | 0 <= i < |ids| :: ids[i] in s.primary && r.value[i] == s.primary[ids[i]]
  }

  /** Scalar bounds separate whatever ids are stored. */
  lemma DeliveredByValue(ix: IndexDescriptor, primary: map<Bytes, Doc>, lo: Bound<Dynamic>, hi: Bound<Dynamic>)
    requires Keyed(primary) && Exact(ix, primary) && EncodeBound(lo).Ok? && EncodeBound(hi).Ok?
    ensures var ps := RangePairs(ix, EncodeBound(lo).value, EncodeBound(hi).value);
            forall id :: Delivers(ps, id) <==> id in primary && HasValueWithin(ix.spec, primary[id], lo, hi)
  {
    QueryBound(lo);
    QueryBound(hi);
    var ps := RangePairs(ix, EncodeBound(lo).value, EncodeBound(hi).value);
    forall id ensures Delivers(ps, id) <==> id in primary && HasValueWithin(ix.spec, primary[id], lo, hi) {
      RangeByValue(ix, primary, lo, hi, id);
    }
  }

  /** On an exact index a query without limit and sort order fetches each stored
      document that passes the filters and has an indexed value between the bounds,
      once, and nothing else. */
  lemma FetchByValue(s: State, name: string, lo: Bound<Dynamic>, hi: Bound<Dynamic>, filters: seq<Doc -> bool>,
          ix: IndexDescriptor)
    returns (ids: seq<Bytes>)
    requires Keyed(s.primary) && ActiveIndex(s, name) == Ok(ix) && Exact(ix, s.primary)
    requires EncodeBound(lo).Ok? && EncodeBound(hi).Ok?
    ensures NoRepeats(ids)
    ensures forall id :: id in ids <==>
              id in s.primary && HasValueWithin(ix.spec, s.primary[id], lo, hi) && Wanted(filters, s.primary[id])
    ensures Fetches(s, Query(OverIndex(name, lo, hi), filters, None, None, None), ids)
  {
    var ps := RangePairs(ix, EncodeBound(lo).value, EncodeBound(hi).value);
    FetchOfPairs(s, name, lo, hi, filters, ix);
    WantedIdsAre(ps, s.primary, filters);
    DeliveredByValue(ix, s.primary, lo, hi);
    ids := WantedIds(ps, s.primary, filters);
  }
}
