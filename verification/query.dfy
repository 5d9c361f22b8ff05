/** The query terminals: fetch with and without sorting, first, and count. */
module Query {
  import opened ByteOrder
  import opened Outcomes
  import opened OrderedMap
  import opened IndexKey
  import opened IndexExtract
  import opened IndexMaint
  import opened Collection
  import opened Agreement
  import opened IndexRead

  const MAX_SORT_BUFFER: nat := 100_000

  datatype Source = FullScan | OverIndex(name: string, lo: Bound<Dynamic>, hi: Bound<Dynamic>)

  datatype SortKey = ByValue(value: Doc -> Dynamic) | ByBytes(bytes: Doc -> Bytes)

  datatype Query = Query(source: Source, filters: seq<Doc -> bool>, limit: Option<nat>,
          sortKey: Option<SortKey>, sortBufferLimit: Option<nat>)

  function EncodeBound(b: Bound<Dynamic>): (r: Result<Bound<Bytes>>) {
    match b
    case Included(d) => var v :- EncodeField(d); Ok(Included(v))
    case Excluded(d) => var v :- EncodeField(d); Ok(Excluded(v))
    case Unbounded => Ok(Unbounded)
  }

  function DocOf(row: Row): Result<Doc> {
    if row.Ok? then Ok(row.value.1) else Err(row.error)
  }

  function AllDocs(primary: map<Bytes, Doc>): (docs: seq<Result<Doc>>)
    ensures |docs| == |Range(primary, Unbounded, Unbounded)|
    ensures forall i | 0 <= i < |docs| :: docs[i] == Ok(Range(primary, Unbounded, Unbounded)[i].val)
  {
    var es := Range(primary, Unbounded, Unbounded);
    seq(|es|, i requires 0 <= i < |es| => Ok(es[i].val))
  }

  function DocsOf(rows: seq<Row>): (docs: seq<Result<Doc>>)
    ensures |docs| == |rows| && forall i | 0 <= i < |rows| :: docs[i] == DocOf(rows[i])
  {
    seq(|rows|, i requires 0 <= i < |rows| => DocOf(rows[i]))
  }

  /** What the source hands to the terminal, in order. */
  function Candidates(s: State, source: Source): (r: Result<seq<Result<Doc>>>) {
    match source
    case FullScan => if Keyed(s.primary) then Ok(AllDocs(s.primary)) else Err(InvalidArgument)
    case OverIndex(name, lo, hi) =>
      var l :- EncodeBound(lo);
      var h :- EncodeBound(hi);
      var rows :- IndexRange(s, name, l, h);
      Ok(DocsOf(rows))
  }

  predicate Wanted(filters: seq<Doc -> bool>, doc: Doc) {
    forall i | 0 <= i < |filters| :: filters[i](doc)
  }

  /** What one candidate contributes to the matches. */
  function Pick(filters: seq<Doc -> bool>, row: Result<Doc>): (docs: seq<Doc>)
    ensures |docs| <= 1
  {
    if row.Ok? && Wanted(filters, row.value) then [row.value] else []
  }

  /** The wanted documents delivered before the first error. */
  function Matches(rows: seq<Result<Doc>>, filters: seq<Doc -> bool>): (docs: seq<Doc>) {
    if rows == [] || rows[0].Err? then [] else Pick(filters, rows[0]) + Matches(rows[1..], filters)
  }

  function FirstError(rows: seq<Result<Doc>>): Option<Error> {
    if rows == [] then None else if rows[0].Err? then Some(rows[0].error) else FirstError(rows[1..])
  }

  lemma {:induction false} MatchesConcat(a: seq<Result<Doc>>, b: seq<Result<Doc>>, filters: seq<Doc -> bool>)
    requires FirstError(a).None?
    ensures Matches(a + b, filters) == Matches(a, filters) + Matches(b, filters)
    ensures FirstError(a + b) == FirstError(b)
  {
    if a == [] {
      assert a + b == b;
    } else {
      assert (a + b)[0] == a[0] && (a + b)[1..] == a[1..] + b;
      MatchesConcat(a[1..], b, filters);
    }
  }

  /** The matches after i candidates, the i-th and the rest. */
  lemma MatchesSplit(rows: seq<Result<Doc>>, i: nat, filters: seq<Doc -> bool>)
    requires i < |rows| && FirstError(rows[..i]).None?
    ensures rows[i].Ok? ==>
              && Matches(rows[..i + 1], filters) == Matches(rows[..i], filters) + Pick(filters, rows[i])
              && FirstError(rows[..i + 1]).None?
    ensures rows[i].Err? ==>
              Matches(rows, filters) == Matches(rows[..i], filters) && FirstError(rows) == Some(rows[i].error)
  {
    var one, rest: seq<Result<Doc>> := [rows[i]], rows[i..];
    assert one[0] == rows[i] && one[1..] == [] && rest[0] == rows[i];
    MatchesConcat(rows[..i], one, filters);
    assert rows[..i] + one == rows[..i + 1];
    MatchesConcat(rows[..i], rest, filters);
    assert rows[..i] + rest == rows;
  }

  lemma MatchesPrefix(rows: seq<Result<Doc>>, i: nat, filters: seq<Doc -> bool>)
    requires i <= |rows| && FirstError(rows[..i]).None?
    ensures Matches(rows[..i], filters) <= Matches(rows, filters)
  {
    MatchesConcat(rows[..i], rows[i..], filters);
    assert rows[..i] + rows[i..] == rows;
  }

  function Take<T>(xs: seq<T>, limit: Option<nat>): (ys: seq<T>) {
    if limit.Some? && limit.value < |xs| then xs[..limit.value] else xs
  }

  /** Without sorting: the first `limit` matches, or the source's error when it
      comes before they are complete. */
  function UnsortedResult(rows: seq<Result<Doc>>, filters: seq<Doc -> bool>,
          limit: Option<nat>): (r: Result<seq<Doc>>) {
    var matches, error := Matches(rows, filters), FirstError(rows);
    if limit.Some? && limit.value <= |matches| then Ok(matches[..limit.value])
    else if error.Some? then Err(error.value)
    else Ok(matches)
  }

  method DrainUnsorted(rows: seq<Result<Doc>>, filters: seq<Doc -> bool>, limit: Option<nat>)
    returns (r: Result<seq<Doc>>)
    requires limit != Some(0)
    ensures r == UnsortedResult(rows, filters, limit)
  {
    var out: seq<Doc> := [];
    for i := 0 to |rows|
      invariant FirstError(rows[..i]).None?
      invariant out == Matches(rows[..i], filters)
      invariant limit.Some? ==> |out| < limit.value
    {
      MatchesSplit(rows, i, filters);
      MatchesPrefix(rows, i, filters);
      if rows[i].Err? {
        return Err(rows[i].error);
      }
      out := out + Pick(filters, rows[i]);
      if limit.Some? && |out| >= limit.value {
        MatchesPrefix(rows, i + 1, filters);
        assert out == Matches(rows, filters)[..limit.value];
        return Ok(out);
      }
    }
    assert rows[..|rows|] == rows;
    return Ok(out);
  }

  function FetchUnsortedResult(s: State, q: Query): (r: Result<seq<Doc>>) {
    if q.limit == Some(0) then Ok([]) else
    var rows :- Candidates(s, q.source);
    UnsortedResult(rows, q.filters, q.limit)
  }

  method FetchUnsorted(s: State, q: Query) returns (r: Result<seq<Doc>>)
    ensures r == FetchUnsortedResult(s, q)
  {
    if q.limit == Some(0) {
      return Ok([]);
    }
    var rows :- Candidates(s, q.source);
    r := DrainUnsorted(rows, q.filters, q.limit);
  }

  // ---- Sorting ----

  function SortBytes(k: SortKey, doc: Doc): (r: Result<Bytes>)
    ensures r.Err? ==> r.error == SortKeyEncode
  {
    match k
    case ByValue(f) => var e := EncodeField(f(doc)); if e.Ok? then e else Err(SortKeyEncode)
    case ByBytes(f) => Ok(f(doc))
  }

  type SortItem = (Bytes, Doc)

  predicate Sorted(xs: seq<SortItem>) {
    forall i, j | 0 <= i < j < |xs| :: AtMost(xs[i].0, xs[j].0)
  }

  /** The elements under one sort key, in order. */
  function Under(xs: seq<SortItem>, k: Bytes): (ys: seq<SortItem>) {
    if xs == [] then []
    else if xs[0].0 == k then [xs[0]] + Under(xs[1..], k)
    else Under(xs[1..], k)
  }

  lemma UnderCons(x: SortItem, xs: seq<SortItem>, k: Bytes)
    ensures Under([x] + xs, k) == if x.0 == k then [x] + Under(xs, k) else Under(xs, k)
  {
    assert ([x] + xs)[1..] == xs;
  }

  /** x in front of the first element that does not sort before it. */
  function Place(x: SortItem, xs: seq<SortItem>): (ys: seq<SortItem>)
    ensures |ys| == |xs| + 1
  {
    if xs == [] || !Less(xs[0].0, x.0) then [x] + xs else [xs[0]] + Place(x, xs[1..])
  }

  function StableSort(xs: seq<SortItem>): (ys: seq<SortItem>)
    ensures |ys| == |xs|
  {
    if xs == [] then [] else Place(xs[0], StableSort(xs[1..]))
  }

  lemma {:induction false} PlaceSorted(x: SortItem, xs: seq<SortItem>)
    requires Sorted(xs)
    ensures Sorted(Place(x, xs))
    ensures forall y | y in Place(x, xs) :: y == x || y in xs
  {
    if xs == [] {
    } else if !Less(xs[0].0, x.0) {
      LessTotal(xs[0].0, x.0);
      forall i | 0 <= i < |xs| ensures AtMost(x.0, xs[i].0) {
        assert AtMost(xs[0].0, xs[i].0);
        if x.0 != xs[0].0 && xs[0].0 != xs[i].0 { LessTransitive(x.0, xs[0].0, xs[i].0); }
      }
    } else {
      assert Sorted(xs[1..]) by { assert forall i | 0 <= i < |xs[1..]| :: xs[1..][i] == xs[i + 1]; }
      PlaceSorted(x, xs[1..]);
      var rest := Place(x, xs[1..]);
      forall i | 0 <= i < |rest| ensures AtMost(xs[0].0, rest[i].0) {
        assert rest[i] in rest;
        if rest[i] != x {
          var j :| 0 <= j < |xs[1..]| && xs[1..][j] == rest[i];
          assert xs[j + 1] == rest[i];
        }
      }
      assert forall y | y in xs[1..] :: y in xs;
    }
  }

  lemma {:induction false} PlaceUnder(x: SortItem, xs: seq<SortItem>, k: Bytes)
    ensures Under(Place(x, xs), k) == Under([x] + xs, k)
  {
    if xs != [] && Less(xs[0].0, x.0) {
      var rest := Place(x, xs[1..]);
      PlaceUnder(x, xs[1..], k);
      UnderCons(xs[0], rest, k);
      UnderCons(x, xs[1..], k);
      UnderCons(x, xs, k);
      LessIrreflexive(x.0);
    }
  }

  /** The result is sorted, and elements with equal keys keep their input order. */
  lemma {:induction false} StableSortIsStable(xs: seq<SortItem>, k: Bytes)
    ensures Sorted(StableSort(xs))
    ensures Under(StableSort(xs), k) == Under(xs, k)
  {
    if xs != [] {
      StableSortIsStable(xs[1..], k);
      PlaceSorted(xs[0], StableSort(xs[1..]));
      PlaceUnder(xs[0], StableSort(xs[1..]), k);
      UnderCons(xs[0], StableSort(xs[1..]), k);
    }
  }

  lemma {:induction false} UnderMember(xs: seq<SortItem>, i: nat)
    requires i < |xs|
    ensures Under(xs, xs[i].0) != []
  {
    if i > 0 {
      UnderMember(xs[1..], i - 1);
    }
  }

  lemma {:induction false} UnderHolds(xs: seq<SortItem>, k: Bytes)
    requires Under(xs, k) != []
    ensures exists i :: 0 <= i < |xs| && xs[i].0 == k
  {
    if xs[0].0 != k {
      UnderHolds(xs[1..], k);
      var i :| 0 <= i < |xs[1..]| && xs[1..][i].0 == k;
      assert xs[i + 1].0 == k;
    }
  }

  /** The least key of one sorted sequence is no greater than that of another
      with the same keys. */
  lemma HeadAtMost(a: seq<SortItem>, b: seq<SortItem>)
    requires a != [] && b != [] && Sorted(a)
    requires forall k :: Under(a, k) == Under(b, k)
    ensures AtMost(a[0].0, b[0].0)
  {
    UnderMember(b, 0);
    UnderHolds(a, b[0].0);
  }

  /** A sorted sequence is determined by what it holds under each key, so any
      stable sort gives this result. */
  lemma {:induction false} StableSortUnique(a: seq<SortItem>, b: seq<SortItem>)
    requires Sorted(a) && Sorted(b)
    requires forall k :: Under(a, k) == Under(b, k)
    ensures a == b
  {
    if a == [] || b == [] {
      if a != [] { UnderMember(a, 0); }
      if b != [] { UnderMember(b, 0); }
    } else {
      HeadAtMost(a, b);
      HeadAtMost(b, a);
      if a[0].0 != b[0].0 { LessAsymmetric(a[0].0, b[0].0); }
      var k0 := a[0].0;
      assert Under(a, k0)[0] == a[0] && Under(b, k0)[0] == b[0];
      assert Sorted(a[1..]) && Sorted(b[1..]) by {
        assert forall i | 0 <= i < |a[1..]| :: a[1..][i] == a[i + 1];
        assert forall i | 0 <= i < |b[1..]| :: b[1..][i] == b[i + 1];
      }
      forall k ensures Under(a[1..], k) == Under(b[1..], k) {
        assert Under(a, k) == Under(b, k);
        if k == k0 {
          assert Under(a[1..], k) == Under(a, k)[1..] && Under(b[1..], k) == Under(b, k)[1..];
        }
      }
      StableSortUnique(a[1..], b[1..]);
      assert a == [a[0]] + a[1..] && b == [b[0]] + b[1..];
    }
  }

  predicate Encodes(k: SortKey, docs: seq<Doc>) {
    forall i | 0 <= i < |docs| :: SortBytes(k, docs[i]).Ok?
  }

  function Items(k: SortKey, docs: seq<Doc>): (items: seq<SortItem>)
    requires Encodes(k, docs)
    ensures |items| == |docs|
    ensures forall i | 0 <= i < |docs| :: items[i] == (SortBytes(k, docs[i]).value, docs[i])
  {
    seq(|docs|, i requires 0 <= i < |docs| => (SortBytes(k, docs[i]).value, docs[i]))
  }

  function DocsIn(items: seq<SortItem>): (docs: seq<Doc>)
    ensures |docs| == |items| && forall i | 0 <= i < |docs| :: docs[i] == items[i].1
  {
    seq(|items|, i requires 0 <= i < |items| => items[i].1)
  }

  /** With sorting: the source is drained before anything is returned, and a
      match past the cap ends the drain before its key is computed. */
  function SortedResult(rows: seq<Result<Doc>>, filters: seq<Doc -> bool>, key: SortKey, cap: nat, limit: Option<nat>)
    : (r: Result<seq<Doc>>)
  {
    var matches, error := Matches(rows, filters), FirstError(rows);
    if !Encodes(key, Take(matches, Some(cap))) then Err(SortKeyEncode)
    else if |matches| > cap then Err(SortBufferExceeded(cap))
    else if error.Some? then Err(error.value)
    else Ok(Take(DocsIn(StableSort(Items(key, matches))), limit))
  }

  /** Where the next wanted document ends the drain, and with which error. */
  lemma SortedDrainStops(rows: seq<Result<Doc>>, i: nat, filters: seq<Doc -> bool>, key: SortKey, cap: nat,
          limit: Option<nat>)
    requires i < |rows| && FirstError(rows[..i]).None?
    requires |Matches(rows[..i], filters)| <= cap && Encodes(key, Matches(rows[..i], filters))
    requires rows[i].Ok? && Wanted(filters, rows[i].value)
    ensures |Matches(rows[..i], filters)| == cap ==>
              SortedResult(rows, filters, key, cap, limit) == Err(SortBufferExceeded(cap))
    ensures |Matches(rows[..i], filters)| < cap && SortBytes(key, rows[i].value).Err? ==>
              SortedResult(rows, filters, key, cap, limit) == Err(SortKeyEncode)
  {
    MatchesSplit(rows, i, filters);
    MatchesPrefix(rows, i + 1, filters);
    var sofar, matches := Matches(rows[..i], filters), Matches(rows, filters);
    assert matches[|sofar|] == rows[i].value && matches[..|sofar|] == sofar;
    if |sofar| < cap {
      assert Take(matches, Some(cap))[|sofar|] == rows[i].value;
    }
  }

  method DrainSorted(rows: seq<Result<Doc>>, filters: seq<Doc -> bool>, key: SortKey, cap: nat, limit: Option<nat>)
    returns (r: Result<seq<Doc>>)
    ensures r == SortedResult(rows, filters, key, cap, limit)
  {
    var buf: seq<SortItem> := [];
    for i := 0 to |rows|
      invariant FirstError(rows[..i]).None?
      invariant |Matches(rows[..i], filters)| <= cap && Encodes(key, Matches(rows[..i], filters))
      invariant buf == Items(key, Matches(rows[..i], filters))
    {
      MatchesSplit(rows, i, filters);
      if rows[i].Err? {
        return Err(rows[i].error);
      }
      if Wanted(filters, rows[i].value) {
        SortedDrainStops(rows, i, filters, key, cap, limit);
        if |buf| >= cap {
          return Err(SortBufferExceeded(cap));
        }
        var bytes := SortBytes(key, rows[i].value);
        if bytes.Err? {
          return Err(bytes.error);
        }
        buf := buf + [(bytes.value, rows[i].value)];
      }
    }
    assert rows[..|rows|] == rows;
    return Ok(Take(DocsIn(StableSort(buf)), limit));
  }

  function SortCap(q: Query): nat {
    if q.sortBufferLimit.Some? then q.sortBufferLimit.value else MAX_SORT_BUFFER
  }

  function FetchResult(s: State, q: Query): (r: Result<seq<Doc>>) {
    if q.sortKey.None? then FetchUnsortedResult(s, q) else
    var rows :- Candidates(s, q.source);
    SortedResult(rows, q.filters, q.sortKey.value, SortCap(q), q.limit)
  }

  method Fetch(s: State, q: Query) returns (r: Result<seq<Doc>>)
    ensures r == FetchResult(s, q)
  {
    if q.sortKey.None? {
      r := FetchUnsorted(s, q);
    } else {
      var rows :- Candidates(s, q.source);
      r := DrainSorted(rows, q.filters, q.sortKey.value, SortCap(q), q.limit);
    }
  }

  /** The buffer error is raised exactly when the matches exceed the cap, given
      encodable sort keys; otherwise the answer is the first `limit` documents of
      the one stable arrangement of the matches by key. */
  lemma SortedFetchMeaning(rows: seq<Result<Doc>>, filters: seq<Doc -> bool>, key: SortKey, cap: nat,
          limit: Option<nat>,
          arranged: seq<SortItem>)
    requires FirstError(rows).None? && Encodes(key, Matches(rows, filters))
    requires Sorted(arranged) && forall k :: Under(arranged, k) == Under(Items(key, Matches(rows, filters)), k)
    ensures var r := SortedResult(rows, filters, key, cap, limit);
            && (r == Err(SortBufferExceeded(cap)) <==> |Matches(rows, filters)| > cap)
            && (|Matches(rows, filters)| <= cap ==> r == Ok(Take(DocsIn(arranged), limit)))
  {
    var items := Items(key, Matches(rows, filters));
    forall k ensures Sorted(StableSort(items)) && Under(StableSort(items), k) == Under(arranged, k) {
      StableSortIsStable(items, k);
    }
    StableSortIsStable(items, []);
    StableSortUnique(StableSort(items), arranged);
  }

  function FirstResult(s: State, q: Query): (r: Result<Option<Doc>>) {
    var docs :- FetchResult(s, q.(limit := Some(1)));
    Ok(if docs == [] then None else Some(docs[0]))
  }

  lemma LimitedDrain(rows: seq<Result<Doc>>, q: Query, n: nat)
    ensures UnsortedResult(rows, q.filters, None).Ok? ==>
              UnsortedResult(rows, q.filters, Some(n)) == Ok(Take(UnsortedResult(rows, q.filters, None).value, Some(n)))
    ensures q.sortKey.Some? && SortedResult(rows, q.filters, q.sortKey.value, SortCap(q), None).Ok? ==>
              SortedResult(rows, q.filters, q.sortKey.value, SortCap(q), Some(n)) ==
              Ok(Take(SortedResult(rows, q.filters, q.sortKey.value, SortCap(q), None).value, Some(n)))
  {
    var matches := Matches(rows, q.filters);
    if n == |matches| { assert matches[..n] == matches; }
  }

  /** A limit keeps a prefix of the unlimited answer. */
  lemma LimitIsPrefix(s: State, q: Query, n: nat)
    requires FetchResult(s, q.(limit := None)).Ok?
    ensures FetchResult(s, q.(limit := Some(n))) == Ok(Take(FetchResult(s, q.(limit := None)).value, Some(n)))
  {
    LimitedDrain(Candidates(s, q.source).value, q, n);
  }

  /** first delivers the head of what the query would fetch without its limit. */
  lemma FirstIsHead(s: State, q: Query)
    requires FetchResult(s, q.(limit := None)).Ok?
    ensures var all := FetchResult(s, q.(limit := None)).value;
            FirstResult(s, q) == Ok(if all == [] then None else Some(all[0]))
  {
    LimitIsPrefix(s, q, 1);
  }

  // ---- Counting ----

  /** The id an index entry stands for, read from the key where it has a suffix. */
  function EntryId(kind: IndexKind, e: Entry<Bytes>): (r: Result<Bytes>)
    ensures r.Err? ==> r.error == Corruption
  {
    var raw := if kind.Unique? then e.val else if |e.key| < 8 then [] else e.key[|e.key| - 8..];
    if IsId(raw) then Ok(raw) else Err(Corruption)
  }

  function EntryIds(kind: IndexKind, es: seq<Entry<Bytes>>): set<Bytes> {
    set e | e in es && EntryId(kind, e).Ok? :: EntryId(kind, e).value
  }

  /** The entries ahead of the first that names no id. */
  function Readable(kind: IndexKind, es: seq<Entry<Bytes>>): (good: seq<Entry<Bytes>>)
    ensures good <= es
    ensures forall e | e in good :: EntryId(kind, e).Ok?
    ensures |good| < |es| ==> EntryId(kind, es[|good|]).Err?
  {
    if es == [] || EntryId(kind, es[0]).Err? then [] else [es[0]] + Readable(kind, es[1..])
  }

  function DistinctCount(kind: IndexKind, es: seq<Entry<Bytes>>): (r: Result<nat>) {
    var good := Readable(kind, es);
    if |EntryIds(kind, good)| > MAX_DISTINCT_IDS then Err(DistinctCountExceeded(MAX_DISTINCT_IDS))
    else if |good| < |es| then Err(Corruption)
    else Ok(|EntryIds(kind, es)|)
  }

  /** Reading one more entry adds its id, or shows that the readable part ends. */
  lemma CountStep(kind: IndexKind, es: seq<Entry<Bytes>>, i: nat)
    requires i < |es| && i <= |Readable(kind, es)|
    ensures EntryId(kind, es[i]).Err? ==> Readable(kind, es) == es[..i]
    ensures EntryId(kind, es[i]).Ok? ==>
              && i < |Readable(kind, es)|
              && EntryIds(kind, es[..i + 1]) == EntryIds(kind, es[..i]) + {EntryId(kind, es[i]).value}
              && |EntryIds(kind, es[..i + 1])| <= |EntryIds(kind, Readable(kind, es))|
  {
    PrefixOfPrefix(Readable(kind, es), es, i);
    var good := Readable(kind, es);
    if i < |good| {
      PrefixOfPrefix(good, es, i + 1);
      assert good[i] in good && good[i] == es[i];
      EntryIdsOfPrefix(kind, good, i);
    } else {
      PrefixOfPrefix(good, es, i);
    }
  }

  lemma PrefixOfPrefix<T>(a: seq<T>, b: seq<T>, n: nat)
    requires a <= b && n <= |a|
    ensures b[..n] == a[..n]
  {}

  lemma EntryIdsOfPrefix(kind: IndexKind, es: seq<Entry<Bytes>>, i: nat)
    requires i < |es| && EntryId(kind, es[i]).Ok?
    ensures EntryIds(kind, es[..i + 1]) == EntryIds(kind, es[..i]) + {EntryId(kind, es[i]).value}
    ensures |EntryIds(kind, es[..i + 1])| <= |EntryIds(kind, es)|
  {
    assert es[..i + 1] == es[..i] + [es[i]];
    forall e | e in es[..i + 1] ensures e in es {}
    SubsetFits(EntryIds(kind, es[..i + 1]), EntryIds(kind, es));
  }

  method CountDistinct(kind: IndexKind, entries: seq<Entry<Bytes>>) returns (r: Result<nat>)
    ensures r == DistinctCount(kind, entries)
  {
    var distinct: set<Bytes> := {};
    for i := 0 to |entries|
      invariant i <= |Readable(kind, entries)|
      invariant distinct == EntryIds(kind, entries[..i]) && |distinct| <= MAX_DISTINCT_IDS
    {
      CountStep(kind, entries, i);
      var id := EntryId(kind, entries[i]);
      if id.Err? {
        return Err(id.error);
      }
      distinct := distinct + {id.value};
      if |distinct| > MAX_DISTINCT_IDS {
        return Err(DistinctCountExceeded(MAX_DISTINCT_IDS));
      }
    }
    assert entries[..|entries|] == entries && Readable(kind, entries) == entries;
    return Ok(|distinct|);
  }

  function CountFast(s: State, source: Source): (r: Result<nat>) {
    match source
    case FullScan => Ok(|s.primary|)
    case OverIndex(name, lo, hi) =>
      var ix :- ActiveIndex(s, name);
      var l :- EncodeBound(lo);
      var h :- EncodeBound(hi);
      if ix.spec.kind.Each? then DistinctCount(ix.spec.kind, Scan(ix, l, h)) else Ok(|Scan(ix, l, h)|)
  }

  function CountSlow(s: State, q: Query): (r: Result<nat>) {
    var rows :- Candidates(s, q.source);
    if FirstError(rows).Some? then Err(FirstError(rows).value) else Ok(|Matches(rows, q.filters)|)
  }

  method DrainCount(rows: seq<Result<Doc>>, filters: seq<Doc -> bool>) returns (r: Result<nat>)
    ensures r == if FirstError(rows).Some? then Err(FirstError(rows).value) else Ok(|Matches(rows, filters)|)
  {
    var n := 0;
    for i := 0 to |rows|
      invariant FirstError(rows[..i]).None? && n == |Matches(rows[..i], filters)|
    {
      MatchesSplit(rows, i, filters);
      if rows[i].Err? {
        return Err(rows[i].error);
      }
      if Wanted(filters, rows[i].value) {
        n := n + 1;
      }
    }
    assert rows[..|rows|] == rows;
    return Ok(n);
  }

  function ApplyCountLimit(total: nat, limit: Option<nat>): nat {
    if limit.Some? && limit.value < total then limit.value else total
  }

  function CountResult(s: State, q: Query): (r: Result<nat>) {
    var total :- if q.filters == [] then CountFast(s, q.source) else CountSlow(s, q);
    Ok(ApplyCountLimit(total, q.limit))
  }

  method Count(s: State, q: Query) returns (r: Result<nat>)
    ensures r == CountResult(s, q)
  {
    var total: nat;
    if q.filters != [] {
      var rows :- Candidates(s, q.source);
      total :- DrainCount(rows, q.filters);
    } else {
      match q.source {
        case FullScan => total := |s.primary|;
        case OverIndex(name, lo, hi) =>
          var ix :- ActiveIndex(s, name);
          var l :- EncodeBound(lo);
          var h :- EncodeBound(hi);
          if ix.spec.kind.Each? {
            total :- CountDistinct(ix.spec.kind, Scan(ix, l, h));
          } else {
            total := |Scan(ix, l, h)|;
          }
      }
    }
    return Ok(ApplyCountLimit(total, q.limit));
  }

  // ---- Counting agrees with fetching ----

  function Values(es: seq<Entry<Bytes>>): set<Bytes> {
    set e | e in es :: e.val
  }

  lemma ValuesCons(e: Entry<Bytes>, es: seq<Entry<Bytes>>)
    ensures Values([e] + es) == {e.val} + Values(es)
  {}

  lemma NewValue(vs: set<Bytes>, v: Bytes, seen: set<Bytes>)
    ensures v in seen ==> ({v} + vs) - seen == vs - seen
    ensures v !in seen ==> |({v} + vs) - seen| == 1 + |vs - (seen + {v})|
  {
    if v !in seen {
      assert ({v} + vs) - seen == {v} + (vs - (seen + {v}));
    }
  }

  /** An Each scan keeps as many entries as it meets new ids. */
  lemma {:induction false} KeptCountsIds(es: seq<Entry<Bytes>>, seen: set<Bytes>)
    requires AllIds(es)
    ensures |Kept(Each, es, seen)| == |Values(es) - seen|
  {
    if es != [] {
      var e, rest := es[0], es[1..];
      assert IsId(e.val);
      assert AllIds(rest) by { assert forall i | 0 <= i < |rest| :: rest[i] == es[i + 1]; }
      assert es == [e] + rest;
      ValuesCons(e, rest);
      NewValue(Values(rest), e.val, seen);
      KeptCountsIds(rest, Remember(Each, e, seen));
      KeptCountsIds(rest, seen);
    }
  }

  /** Over a sound index no candidate is an error, and there are as many as
      entries kept. */
  lemma SoundCandidates(s: State, ix: IndexDescriptor, lo: Bound<Bytes>, hi: Bound<Bytes>)
    requires Keyed(s.primary) && Sound(ix, s.primary)
    ensures var rows := ResolveAll(s.primary, Stage(ix.spec.kind, Scan(ix, lo, hi), {}));
            && |rows| == |Kept(ix.spec.kind, Scan(ix, lo, hi), {})|
            && forall i | 0 <= i < |rows| :: rows[i].Ok?
  {
    var es, kind := Scan(ix, lo, hi), ix.spec.kind;
    ScanOfExact(ix, s.primary, lo, hi);
    StageKeeps(kind, es, {});
    KeptIsSubsequence(kind, es, {});
    var ks := Kept(kind, es, {});
    forall i | 0 <= i < |ks| ensures ks[i].val in s.primary {
      assert ks[i] in ks;
      assert Demands(ix.spec, s.primary, ks[i].key, ks[i].val);
    }
  }

  lemma SoundEntryId(ix: IndexDescriptor, primary: map<Bytes, Doc>, k: Bytes, id: Bytes)
    requires Keyed(primary) && Demands(ix.spec, primary, k, id)
    ensures EntryId(ix.spec.kind, Entry(k, id)) == Ok(id)
  {
    StripOfStorage(ix.spec.kind, StripIdSuffix(ix.spec.kind, k), id);
  }

  lemma ReadableAll(kind: IndexKind, es: seq<Entry<Bytes>>)
    requires forall e | e in es :: EntryId(kind, e) == Ok(e.val)
    ensures Readable(kind, es) == es && EntryIds(kind, es) == Values(es)
  {
    forall i | 0 <= i < |es| ensures EntryId(kind, es[i]) == Ok(es[i].val) {
      assert es[i] in es;
    }
  }

  lemma DistinctCountOfIds(es: seq<Entry<Bytes>>)
    requires AllIds(es) && forall e | e in es :: EntryId(Each, e) == Ok(e.val)
    ensures DistinctCount(Each, es) ==
              if |Kept(Each, es, {})| > MAX_DISTINCT_IDS then Err(DistinctCountExceeded(MAX_DISTINCT_IDS))
              else Ok(|Kept(Each, es, {})|)
  {
    ReadableAll(Each, es);
    KeptCountsIds(es, {});
    assert Values(es) - {} == Values(es);
  }

  /** Reading ids from the keys of a sound index counts those that scanning keeps. */
  lemma SoundDistinctCount(primary: map<Bytes, Doc>, ix: IndexDescriptor, lo: Bound<Bytes>, hi: Bound<Bytes>)
    requires Keyed(primary) && Sound(ix, primary) && ix.spec.kind.Each?
    ensures var n := |Kept(ix.spec.kind, Scan(ix, lo, hi), {})|;
            DistinctCount(ix.spec.kind, Scan(ix, lo, hi)) ==
              if n > MAX_DISTINCT_IDS then Err(DistinctCountExceeded(MAX_DISTINCT_IDS)) else Ok(n)
  {
    var es, kind := Scan(ix, lo, hi), ix.spec.kind;
    assert kind == Each;
    ScanOfExact(ix, primary, lo, hi);
    forall e | e in es ensures EntryId(kind, e) == Ok(e.val) {
      SoundEntryId(ix, primary, e.key, e.val);
    }
    DistinctCountOfIds(es);
  }

  lemma {:induction false} NoErrors(rows: seq<Result<Doc>>)
    requires forall i | 0 <= i < |rows| :: rows[i].Ok?
    ensures FirstError(rows).None? && |Matches(rows, [])| == |rows|
  {
    if rows != [] {
      forall i | 0 <= i < |rows[1..]| ensures rows[1..][i].Ok? { assert rows[1..][i] == rows[i + 1]; }
      NoErrors(rows[1..]);
    }
  }

  /** Every source's index, if it names one, has no dangling entry. */
  ghost predicate SoundSource(s: State, source: Source) {
    source.OverIndex? && ActiveIndex(s, source.name).Ok? ==> Sound(ActiveIndex(s, source.name).value, s.primary)
  }

  /** The count of an unfiltered Each range is refused. */
  ghost predicate TooManyDistinct(s: State, q: Query) {
    && q.filters == [] && q.source.OverIndex?
    && ActiveIndex(s, q.source.name).Ok? && ActiveIndex(s, q.source.name).value.spec.kind.Each?
    && Candidates(s, q.source).Ok? && |Candidates(s, q.source).value| > MAX_DISTINCT_IDS
  }

  /** Counting an index range, entry by entry or id by id, counts the candidates. */
  lemma CountOverIndex(s: State, ix: IndexDescriptor, lo: Bound<Bytes>, hi: Bound<Bytes>)
    requires Keyed(s.primary) && Sound(ix, s.primary)
    ensures var n := |Stage(ix.spec.kind, Scan(ix, lo, hi), {})|;
            if ix.spec.kind.Each? then
              DistinctCount(ix.spec.kind, Scan(ix, lo, hi)) ==
                if n > MAX_DISTINCT_IDS then Err(DistinctCountExceeded(MAX_DISTINCT_IDS)) else Ok(n)
            else |Scan(ix, lo, hi)| == n
  {
    SoundCandidates(s, ix, lo, hi);
    if ix.spec.kind.Each? {
      SoundDistinctCount(s.primary, ix, lo, hi);
    } else {
      ScanOfExact(ix, s.primary, lo, hi);
      KeptIsSubsequence(ix.spec.kind, Scan(ix, lo, hi), {});
    }
  }

  lemma FastCountOfScan(s: State)
    requires Keyed(s.primary)
    ensures var rows := AllDocs(s.primary);
            FirstError(rows).None? && |Matches(rows, [])| == |rows| == |s.primary|
  {
    assert KeysWithin(s.primary, Unbounded, Unbounded) == s.primary.Keys;
    NoErrors(AllDocs(s.primary));
  }

  lemma FastCountOfIndex(s: State, name: string, lo: Bound<Dynamic>, hi: Bound<Dynamic>)
    requires Keyed(s.primary) && SoundSource(s, OverIndex(name, lo, hi)) && Candidates(s, OverIndex(name, lo, hi)).Ok?
    ensures var rows := Candidates(s, OverIndex(name, lo, hi)).value;
            && FirstError(rows).None? && |Matches(rows, [])| == |rows|
            && CountFast(s, OverIndex(name, lo, hi)) ==
                 if ActiveIndex(s, name).value.spec.kind.Each? && |rows| > MAX_DISTINCT_IDS
                 then Err(DistinctCountExceeded(MAX_DISTINCT_IDS)) else Ok(|rows|)
  {
    var ix, l, h := ActiveIndex(s, name).value, EncodeBound(lo).value, EncodeBound(hi).value;
    SoundCandidates(s, ix, l, h);
    CountOverIndex(s, ix, l, h);
    NoErrors(Candidates(s, OverIndex(name, lo, hi)).value);
  }

  lemma FastCountOfSource(s: State, source: Source)
    requires Keyed(s.primary) && SoundSource(s, source) && Candidates(s, source).Ok?
    ensures var rows := Candidates(s, source).value;
            && FirstError(rows).None? && |Matches(rows, [])| == |rows|
            && CountFast(s, source) ==
                 if source.OverIndex? && ActiveIndex(s, source.name).value.spec.kind.Each? && |rows| > MAX_DISTINCT_IDS
                 then Err(DistinctCountExceeded(MAX_DISTINCT_IDS)) else Ok(|rows|)
  {
    match source {
      case FullScan => FastCountOfScan(s);
      case OverIndex(name, lo, hi) => FastCountOfIndex(s, name, lo, hi);
    }
  }

  lemma DrainLength(rows: seq<Result<Doc>>, q: Query)
    requires FirstError(rows).None?
    ensures UnsortedResult(rows, q.filters, q.limit).Ok?
    ensures |UnsortedResult(rows, q.filters, q.limit).value| == ApplyCountLimit(|Matches(rows, q.filters)|, q.limit)
    ensures q.sortKey.Some? && SortedResult(rows, q.filters, q.sortKey.value, SortCap(q), q.limit).Ok? ==>
              |SortedResult(rows, q.filters, q.sortKey.value, SortCap(q), q.limit).value| ==
              ApplyCountLimit(|Matches(rows, q.filters)|, q.limit)
  {}

  /** When fetch succeeds on a consistent state, count is the number fetched,
      exactly unless the limit was 0 on a source that could not be opened or an
      unfiltered Each range has too many ids to count. */
  lemma CountIsFetchedLength(s: State, q: Query)
    requires Keyed(s.primary) && SoundSource(s, q.source) && FetchResult(s, q).Ok?
    ensures Candidates(s, q.source).Ok? && !TooManyDistinct(s, q) <==>
              CountResult(s, q) == Ok(|FetchResult(s, q).value|)
    ensures TooManyDistinct(s, q) ==> CountResult(s, q) == Err(DistinctCountExceeded(MAX_DISTINCT_IDS))
    ensures Candidates(s, q.source).Err? ==> q.limit == Some(0) && q.sortKey.None? && CountResult(s, q).Err?
  {
    if Candidates(s, q.source).Ok? {
      FastCountOfSource(s, q.source);
      DrainLength(Candidates(s, q.source).value, q);
    }
  }
}
