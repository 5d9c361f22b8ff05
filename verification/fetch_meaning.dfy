/** What a fetch returns, sorted or not, position by position in the source, and with
    which error it fails otherwise. */
module FetchMeaning {
  import opened ByteOrder
  import opened Outcomes
  import opened OrderedMap
  import opened IndexKey
  import opened IndexExtract
  import opened Collection
  import opened Agreement
  import opened IndexMaint
  import opened IndexRead
  import opened Query
  import IndexBound

  type Rows = seq<Result<Doc>>

  predicate NoErrorBefore(rows: Rows, p: nat)
    requires p <= |rows|
  {
    forall i | 0 <= i < p :: rows[i].Ok?
  }

  /** The source delivers a wanted document at position p, and no error ahead of it. */
  predicate Match(rows: Rows, filters: seq<Doc -> bool>, p: nat) {
    p < |rows| && rows[p].Ok? && Wanted(filters, rows[p].value) && NoErrorBefore(rows, p)
  }

  /** The first error of the source is at position p. */
  predicate Fails(rows: Rows, p: nat) {
    p < |rows| && rows[p].Err? && NoErrorBefore(rows, p)
  }

  /** The positions of the matches before position n. */
  function MatchesBefore(rows: Rows, filters: seq<Doc -> bool>, n: nat): set<nat> {
    set p: nat | p < n && Match(rows, filters, p)
  }

  /** Sorts strictly before: by field value, or by the bytes the caller computes. */
  predicate Before(key: SortKey, a: Doc, b: Doc) {
    match key
    case ByValue(f) => FieldLess(f(a), f(b))
    case ByBytes(f) => Less(f(a), f(b))
  }

  predicate Sortable(key: SortKey, doc: Doc) {
    key.ByValue? ==> Encodable(key.value(doc))
  }

  /** Position p comes before position o in the answer: by sort key, and by position
      where that does not decide. */
  predicate Precedes(rows: Rows, key: Option<SortKey>, p: nat, o: nat)
    requires p < |rows| && o < |rows| && rows[p].Ok? && rows[o].Ok?
  {
    if key.None? then p < o
    else
      || Before(key.value, rows[p].value, rows[o].value)
      || (!Before(key.value, rows[o].value, rows[p].value) && p < o)
  }

  /** The answer is made of matches, in order, and what a limit leaves out comes later. */
  ghost predicate Answer(rows: Rows, q: Query, at: seq<nat>) {
    && (forall i | 0 <= i < |at| :: Match(rows, q.filters, at[i]))
    && (forall i, j | 0 <= i < j < |at| :: Precedes(rows, q.sortKey, at[i], at[j]))
    && (q.limit.Some? ==> |at| <= q.limit.value)
    && forall p | Match(rows, q.filters, p) && p !in at ::
         q.limit == Some(|at|) && forall i | 0 <= i < |at| :: Precedes(rows, q.sortKey, at[i], p)
  }

  ghost predicate Delivered(rows: Rows, docs: seq<Doc>, at: seq<nat>) {
    |docs| == |at| && forall i | 0 <= i < |at| :: at[i] < |rows| && rows[at[i]] == Ok(docs[i])
  }

  // ---- The matches as positions ----

  predicate Increasing(at: seq<nat>) {
    forall i, j | 0 <= i < j < |at| :: at[i] < at[j]
  }

  function Shift(at: seq<nat>): (s: seq<nat>)
    ensures |s| == |at| && forall i | 0 <= i < |at| :: s[i] == at[i] + 1
  {
    seq(|at|, i requires 0 <= i < |at| => at[i] + 1)
  }

  function Positions(rows: Rows, filters: seq<Doc -> bool>): (at: seq<nat>) {
    if rows == [] || rows[0].Err? then [] else
    (if Wanted(filters, rows[0].value) then [0] else []) + Shift(Positions(rows[1..], filters))
  }

  lemma MatchCons(rows: Rows, filters: seq<Doc -> bool>, p: nat)
    requires rows != [] && rows[0].Ok?
    ensures Match(rows, filters, p + 1) <==> Match(rows[1..], filters, p)
    ensures Fails(rows, p + 1) <==> Fails(rows[1..], p)
  {
    if p <= |rows[1..]| && NoErrorBefore(rows[1..], p) && p + 1 <= |rows| {
      forall i | 0 <= i < p + 1 ensures rows[i].Ok? { assert i > 0 ==> rows[1..][i - 1].Ok?; }
    }
    if p + 1 <= |rows| && NoErrorBefore(rows, p + 1) {
      forall i | 0 <= i < p ensures rows[1..][i].Ok? { assert rows[i + 1].Ok?; }
    }
  }

  lemma ShiftedMember(at: seq<nat>, p: nat)
    ensures p + 1 in Shift(at) <==> p in at
  {
    if p in at {
      var i :| 0 <= i < |at| && at[i] == p;
      assert Shift(at)[i] == p + 1;
    }
  }

  lemma {:induction false} PositionsAre(rows: Rows, filters: seq<Doc -> bool>)
    ensures Increasing(Positions(rows, filters))
    ensures Delivered(rows, Matches(rows, filters), Positions(rows, filters))
    ensures forall p: nat :: p in Positions(rows, filters) <==> Match(rows, filters, p)
  {
    var at := Positions(rows, filters);
    if rows != [] && rows[0].Ok? {
      PositionsAre(rows[1..], filters);
      forall p: nat ensures p in at <==> Match(rows, filters, p) {
        if p > 0 {
          MatchCons(rows, filters, p - 1);
          ShiftedMember(Positions(rows[1..], filters), p - 1);
        }
      }
    }
  }

  function Members(at: seq<nat>): set<nat> {
    set p | p in at
  }

  lemma MembersSnoc(at: seq<nat>, p: nat)
    ensures Members(at + [p]) == Members(at) + {p}
  {}

  lemma {:induction false} CountIncreasing(at: seq<nat>)
    requires Increasing(at)
    ensures |Members(at)| == |at|
  {
    if at != [] {
      var n := |at| - 1;
      CountIncreasing(at[..n]);
      assert at == at[..n] + [at[n]];
      MembersSnoc(at[..n], at[n]);
    }
  }

  /** As many matches lie before position n as Positions lists there. */
  lemma CountMatches(rows: Rows, filters: seq<Doc -> bool>, at: seq<nat>, n: nat)
    requires Increasing(at) && forall p: nat :: p in at <==> p < n && Match(rows, filters, p)
    ensures |MatchesBefore(rows, filters, n)| == |at|
  {
    CountIncreasing(at);
    assert MatchesBefore(rows, filters, n) == Members(at);
  }

  lemma {:induction false} FirstErrorIs(rows: Rows)
    ensures FirstError(rows).None? ==> NoErrorBefore(rows, |rows|)
    ensures FirstError(rows).Some? ==> exists p: nat :: Fails(rows, p) && FirstError(rows) == Some(rows[p].error)
  {
    if rows == [] {
    } else if rows[0].Err? {
      assert Fails(rows, 0);
    } else {
      FirstErrorIs(rows[1..]);
      assert FirstError(rows) == FirstError(rows[1..]);
      if FirstError(rows).Some? {
        var p: nat :| Fails(rows[1..], p) && FirstError(rows[1..]) == Some(rows[1..][p].error);
        MatchCons(rows, [], p);
        assert Fails(rows, p + 1);
      } else {
        forall i | 0 <= i < |rows| ensures rows[i].Ok? { assert i > 0 ==> rows[1..][i - 1].Ok?; }
      }
    }
  }

  /** There is one first error. */
  lemma FailsOnce(rows: Rows, p: nat)
    requires Fails(rows, p)
    ensures FirstError(rows) == Some(rows[p].error)
  {
    FirstErrorIs(rows);
    if FirstError(rows).Some? {
      var o: nat :| Fails(rows, o) && FirstError(rows) == Some(rows[o].error);
      assert o == p;
    }
  }

  // ---- Stable sorting, as positions ----

  predicate Distinct(at: seq<nat>) {
    forall i, j | 0 <= i < j < |at| :: at[i] != at[j]
  }

  /** ys lists the elements of xs at the positions perm, all of them. */
  ghost predicate Rearranges(xs: seq<SortItem>, ys: seq<SortItem>, perm: seq<nat>) {
    && |ys| == |perm| == |xs|
    && (forall i | 0 <= i < |perm| :: perm[i] < |xs| && ys[i] == xs[perm[i]])
    && forall p: nat | p < |xs| :: p in perm
  }

  predicate InTurn(ys: seq<SortItem>, perm: seq<nat>, i: nat, j: nat)
    requires i < |ys| == |perm| && j < |perm|
  {
    Less(ys[i].0, ys[j].0) || (ys[i].0 == ys[j].0 && perm[i] < perm[j])
  }

  /** Elements at smaller positions come first among equal keys. */
  predicate KeepsTies(ys: seq<SortItem>, perm: seq<nat>)
    requires |ys| == |perm|
  {
    forall i: nat, j: nat | i < j < |perm| :: InTurn(ys, perm, i, j)
  }

  lemma {:induction false} PlaceAt(x: SortItem, xs: seq<SortItem>) returns (n: nat)
    ensures n <= |xs| && Place(x, xs) == xs[..n] + [x] + xs[n..]
    ensures forall i | 0 <= i < n :: Less(xs[i].0, x.0)
    ensures n < |xs| ==> !Less(xs[n].0, x.0)
  {
    if xs == [] || !Less(xs[0].0, x.0) {
      n := 0;
    } else {
      var m := PlaceAt(x, xs[1..]);
      n := m + 1;
      assert xs[..n] == [xs[0]] + xs[1..][..m] && xs[n..] == xs[1..][m..];
      forall i | 0 <= i < n ensures Less(xs[i].0, x.0) { if i > 0 { assert xs[i] == xs[1..][i - 1]; } }
    }
  }

  /** The positions after the first element has been put in at n. */
  function PutIn(perm: seq<nat>, n: nat): (r: seq<nat>)
    requires n <= |perm|
    ensures |r| == |perm| + 1 && r[n] == 0
    ensures forall i | 0 <= i < n :: r[i] == perm[i] + 1
    ensures forall i | n < i < |r| :: r[i] == perm[i - 1] + 1
  {
    Shift(perm[..n]) + [0] + Shift(perm[n..])
  }

  lemma RearrangesCons(xs: seq<SortItem>, ys: seq<SortItem>, perm: seq<nat>, n: nat)
    requires xs != [] && n <= |ys| && Rearranges(xs[1..], ys, perm)
    ensures Rearranges(xs, ys[..n] + [xs[0]] + ys[n..], PutIn(perm, n))
  {
    var zs, r := ys[..n] + [xs[0]] + ys[n..], PutIn(perm, n);
    forall i | 0 <= i < |r| ensures r[i] < |xs| && zs[i] == xs[r[i]] {
      if i < n { assert zs[i] == ys[i] && xs[perm[i] + 1] == xs[1..][perm[i]]; }
      if i > n { assert zs[i] == ys[i - 1] && xs[perm[i - 1] + 1] == xs[1..][perm[i - 1]]; }
    }
    forall p: nat | p < |xs| ensures p in r {
      if p == 0 {
        assert r[n] == 0;
      } else {
        assert p - 1 in perm;
        var i :| 0 <= i < |perm| && perm[i] == p - 1;
        assert r[if i < n then i else i + 1] == p;
      }
    }
  }

  /** Nothing from n on sorts before x. */
  lemma AtMostTail(x: SortItem, ys: seq<SortItem>, n: nat, j: nat)
    requires n <= j < |ys| && Sorted(ys) && !Less(ys[n].0, x.0)
    ensures AtMost(x.0, ys[j].0)
  {
    LessTotal(ys[n].0, x.0);
    assert AtMost(ys[n].0, ys[j].0);
    if Less(x.0, ys[n].0) && Less(ys[n].0, ys[j].0) { LessTransitive(x.0, ys[n].0, ys[j].0); }
  }

  /** zs is ys with x put in at n, r the positions that go with it. */
  predicate PutInAt(x: SortItem, ys: seq<SortItem>, perm: seq<nat>, n: nat, zs: seq<SortItem>, r: seq<nat>) {
    && n <= |ys| == |perm| && |zs| == |r| == |ys| + 1
    && zs[n] == x && r[n] == 0
    && (forall i | 0 <= i < n :: zs[i] == ys[i] && r[i] == perm[i] + 1)
    && forall i | n <= i < |ys| :: zs[i + 1] == ys[i] && r[i + 1] == perm[i] + 1
  }

  lemma TiesPair(x: SortItem, ys: seq<SortItem>, perm: seq<nat>, n: nat, zs: seq<SortItem>, r: seq<nat>, i: nat,
          j: nat)
    requires PutInAt(x, ys, perm, n, zs, r) && i < j < |r|
    requires Sorted(ys) && KeepsTies(ys, perm)
    requires forall i | 0 <= i < n :: Less(ys[i].0, x.0)
    requires n < |ys| ==> !Less(ys[n].0, x.0)
    ensures InTurn(zs, r, i, j)
  {
    if i == n {
      AtMostTail(x, ys, n, j - 1);
      assert zs[j - 1 + 1] == ys[j - 1];
    } else if j == n {
      assert Less(ys[i].0, x.0);
    } else if i < n {
      var l := if j < n then j else j - 1;
      assert InTurn(ys, perm, i, l) && zs[i] == ys[i] && zs[if l < n then l else l + 1] == ys[l];
    } else {
      assert InTurn(ys, perm, i - 1, j - 1) && zs[i - 1 + 1] == ys[i - 1] && zs[j - 1 + 1] == ys[j - 1];
    }
  }

  lemma TiesCons(x: SortItem, ys: seq<SortItem>, perm: seq<nat>, n: nat)
    requires n <= |ys| == |perm| && Sorted(ys) && KeepsTies(ys, perm)
    requires forall i | 0 <= i < n :: Less(ys[i].0, x.0)
    requires n < |ys| ==> !Less(ys[n].0, x.0)
    ensures KeepsTies(ys[..n] + [x] + ys[n..], PutIn(perm, n))
  {
    var zs, r := ys[..n] + [x] + ys[n..], PutIn(perm, n);
    assert PutInAt(x, ys, perm, n, zs, r);
    forall i: nat, j: nat | i < j < |r| ensures InTurn(zs, r, i, j) {
      TiesPair(x, ys, perm, n, zs, r, i, j);
    }
  }

  lemma {:induction false} SortPositions(xs: seq<SortItem>) returns (perm: seq<nat>)
    ensures Rearranges(xs, StableSort(xs), perm) && KeepsTies(StableSort(xs), perm)
  {
    if xs == [] {
      perm := [];
    } else {
      var ys := StableSort(xs[1..]);
      var rest := SortPositions(xs[1..]);
      StableSortIsStable(xs[1..], []);
      var n := PlaceAt(xs[0], ys);
      RearrangesCons(xs, ys, rest, n);
      TiesCons(xs[0], ys, rest, n);
      perm := PutIn(rest, n);
    }
  }

  // ---- The answer ----

  /** Among encodable sort keys, byte order of what is sorted by is the order asked for. */
  lemma BeforeByBytes(key: SortKey, a: Doc, b: Doc)
    requires SortBytes(key, a).Ok? && SortBytes(key, b).Ok?
    ensures Less(SortBytes(key, a).value, SortBytes(key, b).value) <==> Before(key, a, b)
  {
    match key {
      case ByValue(f) => EncOrder(f(a), f(b));
      case ByBytes(f) =>
    }
  }

  lemma EncodesExactly(key: SortKey, doc: Doc)
    ensures SortBytes(key, doc).Ok? <==> Sortable(key, doc)
  {}

  /** All positions of the sorted matches, before any limit. */
  lemma SortedPositions(rows: Rows, filters: seq<Doc -> bool>, key: SortKey) returns (at: seq<nat>)
    requires Encodes(key, Matches(rows, filters))
    ensures Delivered(rows, DocsIn(StableSort(Items(key, Matches(rows, filters)))), at)
    ensures forall p: nat :: p in at <==> Match(rows, filters, p)
    ensures forall i, j | 0 <= i < j < |at| :: Precedes(rows, Some(key), at[i], at[j])
  {
    var matches, positions := Matches(rows, filters), Positions(rows, filters);
    var items := Items(key, matches);
    var ys := StableSort(items);
    PositionsAre(rows, filters);
    var perm := SortPositions(items);
    at := seq(|perm|, i requires 0 <= i < |perm| => positions[perm[i]]);
    forall p: nat ensures p in at <==> p in positions {
      if p in positions {
        var i :| 0 <= i < |positions| && positions[i] == p;
        assert i in perm;
        var j :| 0 <= j < |perm| && perm[j] == i;
        assert at[j] == p;
      }
    }
    forall i: nat, j: nat | i < j < |at| ensures Precedes(rows, Some(key), at[i], at[j]) {
      var a, b := matches[perm[i]], matches[perm[j]];
      assert InTurn(ys, perm, i, j);
      BeforeByBytes(key, a, b);
      BeforeByBytes(key, b, a);
      LessIrreflexive(ys[i].0);
    }
  }

  /** A prefix of the whole arrangement is the answer under a limit. */
  lemma LimitedAnswer(rows: Rows, q: Query, all: seq<nat>, docs: seq<Doc>)
    requires Delivered(rows, docs, all) && forall p: nat :: p in all <==> Match(rows, q.filters, p)
    requires forall i, j | 0 <= i < j < |all| :: Precedes(rows, q.sortKey, all[i], all[j])
    ensures Answer(rows, q, Take(all, q.limit)) && Delivered(rows, Take(docs, q.limit), Take(all, q.limit))
  {
    var at := Take(all, q.limit);
    forall i | 0 <= i < |at| ensures Match(rows, q.filters, at[i]) { assert at[i] in all; }
    forall p | Match(rows, q.filters, p) && p !in at
      ensures q.limit == Some(|at|) && forall i | 0 <= i < |at| :: Precedes(rows, q.sortKey, at[i], p)
    {
      assert p in all;
      var k :| 0 <= k < |all| && all[k] == p;
      forall i | 0 <= i < |at| ensures all[i] != p { assert at[i] in at; }
    }
  }

  /** What a successful fetch returns: the documents at the positions of the answer. */
  lemma FetchAnswers(s: State, q: Query) returns (at: seq<nat>)
    requires Candidates(s, q.source).Ok? && FetchResult(s, q).Ok?
    ensures Answer(Candidates(s, q.source).value, q, at)
    ensures Delivered(Candidates(s, q.source).value, FetchResult(s, q).value, at)
  {
    var rows := Candidates(s, q.source).value;
    if q.sortKey.Some? {
      var matches := Matches(rows, q.filters);
      var docs := DocsIn(StableSort(Items(q.sortKey.value, matches)));
      at := SortedPositions(rows, q.filters, q.sortKey.value);
      LimitedAnswer(rows, q, at, docs);
    } else {
      at := Positions(rows, q.filters);
      PositionsAre(rows, q.filters);
      LimitedAnswer(rows, q, at, Matches(rows, q.filters));
      assert q.limit == Some(0) ==> Take(Matches(rows, q.filters), q.limit) == [];
    }
    at := Take(at, q.limit);
  }

  /** first delivers what comes before all other matches, and fails as fetching one
      document does. */
  lemma FirstAnswers(s: State, q: Query) returns (at: seq<nat>)
    requires Candidates(s, q.source).Ok?
    ensures var rows, one, first := Candidates(s, q.source).value, q.(limit := Some(1)), FirstResult(s, q);
            if FetchResult(s, one).Err? then first == Err(FetchResult(s, one).error)
            else
              && Answer(rows, one, at) && (at == [] <==> first == Ok(None))
              && (at != [] ==> first.Ok? && first.value.Some? && Delivered(rows, [first.value.value], at))
  {
    var one := q.(limit := Some(1));
    at := [];
    if FetchResult(s, one).Ok? {
      at := FetchAnswers(s, one);
      var docs := FetchResult(s, one).value;
      assert docs != [] ==> docs == [docs[0]];
    }
  }

  lemma KeysOfRange(primary: map<Bytes, Doc>, id: Bytes)
    ensures id in KeysOf(Range(primary, Unbounded, Unbounded)) <==> id in primary
  {
    var es := Range(primary, Unbounded, Unbounded);
    if id in primary {
      var i :| 0 <= i < |es| && es[i] == Entry(id, primary[id]);
      assert KeysOf(es)[i] == id;
    }
    if id in KeysOf(es) {
      var i :| 0 <= i < |es| && KeysOf(es)[i] == id;
      assert es[i] in es;
    }
  }

  /** A full scan delivers the stored documents in the order of their ids. */
  lemma FullScanRows(s: State) returns (ids: seq<Bytes>)
    requires Keyed(s.primary)
    ensures Ascending(ids) && forall id :: id in ids <==> id in s.primary
    ensures Candidates(s, FullScan).Ok? && |Candidates(s, FullScan).value| == |ids|
    ensures forall i | 0 <= i < |ids| ::
              ids[i] in s.primary && Candidates(s, FullScan).value[i] == Ok(s.primary[ids[i]])
  {
    var es := Range(s.primary, Unbounded, Unbounded);
    ids := KeysOf(es);
    forall id ensures id in ids <==> id in s.primary { KeysOfRange(s.primary, id); }
    assert forall i | 0 <= i < |es| :: es[i] in es;
  }

  // ---- The errors ----

  /** A match whose sort value cannot be encoded, among the first cap. */
  predicate Unsortable(rows: Rows, filters: seq<Doc -> bool>, key: SortKey, cap: nat, p: nat) {
    Match(rows, filters, p) && !Sortable(key, rows[p].value) && |MatchesBefore(rows, filters, p)| < cap
  }

  /** The n-th match has n matches before it. */
  lemma PositionRank(rows: Rows, filters: seq<Doc -> bool>, n: nat)
    requires n < |Positions(rows, filters)|
    ensures |MatchesBefore(rows, filters, Positions(rows, filters)[n])| == n
  {
    var at := Positions(rows, filters);
    PositionsAre(rows, filters);
    forall p: nat ensures p in at[..n] <==> p < at[n] && Match(rows, filters, p) {
      if p in at {
        var i :| 0 <= i < |at| && at[i] == p;
        assert p in at[..n] ==> p < at[n];
        if p < at[n] { assert i < n && at[..n][i] == p; }
      }
    }
    CountMatches(rows, filters, at[..n], at[n]);
  }

  lemma AllMatches(rows: Rows, filters: seq<Doc -> bool>)
    ensures |MatchesBefore(rows, filters, |rows|)| == |Matches(rows, filters)|
  {
    PositionsAre(rows, filters);
    CountMatches(rows, filters, Positions(rows, filters), |rows|);
  }

  lemma NthUnsortable(rows: Rows, filters: seq<Doc -> bool>, key: SortKey, cap: nat, n: nat)
    requires n < |Matches(rows, filters)|
    ensures n < |Positions(rows, filters)|
    ensures Unsortable(rows, filters, key, cap, Positions(rows, filters)[n]) <==>
              n < cap && SortBytes(key, Matches(rows, filters)[n]).Err?
  {
    PositionsAre(rows, filters);
    PositionRank(rows, filters, n);
    assert Positions(rows, filters)[n] in Positions(rows, filters);
    EncodesExactly(key, Matches(rows, filters)[n]);
  }

  lemma EncodesWithin(rows: Rows, filters: seq<Doc -> bool>, key: SortKey, cap: nat)
    ensures Encodes(key, Take(Matches(rows, filters), Some(cap))) <==>
              forall p: nat :: !Unsortable(rows, filters, key, cap, p)
  {
    var taken := Take(Matches(rows, filters), Some(cap));
    if n: nat :| n < |taken| && SortBytes(key, taken[n]).Err? {
      NthUnsortable(rows, filters, key, cap, n);
    }
    if p: nat :| Unsortable(rows, filters, key, cap, p) {
      PositionsAre(rows, filters);
      var n: nat :| n < |Positions(rows, filters)| && Positions(rows, filters)[n] == p;
      NthUnsortable(rows, filters, key, cap, n);
      assert n < |taken| && SortBytes(key, taken[n]).Err?;
    }
  }

  /** How a fetch ends. A source that cannot be opened fails it, unless nothing is asked
      of it. Sorted, it drains the source: an unencodable sort value within the buffer
      bound is reported first, then matches beyond the bound, then the source's own
      error. Unsorted, that error counts only while the limit is not reached. */
  lemma FetchFailsExactly(s: State, q: Query, rows: Rows, cap: nat)
    requires q.sortBufferLimit == Some(cap) || (q.sortBufferLimit.None? && cap == 100_000)
    requires Candidates(s, q.source).Ok? ==> rows == Candidates(s, q.source).value
    ensures Candidates(s, q.source).Err? ==>
              FetchResult(s, q) == if q.sortKey.None? && q.limit == Some(0) then Ok([])
                                   else Err(Candidates(s, q.source).error)
    ensures Candidates(s, q.source).Ok? && q.sortKey.Some? ==>
              var r, n := FetchResult(s, q), |MatchesBefore(rows, q.filters, |rows|)|;
              if exists p: nat :: Unsortable(rows, q.filters, q.sortKey.value, cap, p) then r == Err(SortKeyEncode)
              else if n > cap then r == Err(SortBufferExceeded(cap))
              else if exists p: nat :: Fails(rows, p) then exists p: nat :: Fails(rows, p) && r == Err(rows[p].error)
              else r.Ok?
    ensures Candidates(s, q.source).Ok? && q.sortKey.None? ==>
              var r, n := FetchResult(s, q), |MatchesBefore(rows, q.filters, |rows|)|;
              if (exists p: nat :: Fails(rows, p)) && (q.limit.Some? ==> n < q.limit.value)
              then exists p: nat :: Fails(rows, p) && r == Err(rows[p].error)
              else r.Ok?
  {
    AllMatches(rows, q.filters);
    FirstErrorIs(rows);
    if q.sortKey.Some? { EncodesWithin(rows, q.filters, q.sortKey.value, cap); }
    if p: nat :| Fails(rows, p) { FailsOnce(rows, p); }
  }

  // ---- Counting ----

  /** A filtered count is the number of matches up to the limit; it fails with the error
      of the source, on opening it or first met in it. */
  lemma FilteredCountExactly(s: State, q: Query, rows: Rows)
    requires q.filters != [] && (Candidates(s, q.source).Ok? ==> rows == Candidates(s, q.source).value)
    ensures var r, n := CountResult(s, q), |MatchesBefore(rows, q.filters, |rows|)|;
            if Candidates(s, q.source).Err? then r == Err(Candidates(s, q.source).error)
            else if exists p: nat :: Fails(rows, p) then exists p: nat :: Fails(rows, p) && r == Err(rows[p].error)
            else r == Ok(if q.limit.Some? && q.limit.value < n then q.limit.value else n)
  {
    AllMatches(rows, q.filters);
    FirstErrorIs(rows);
    if p: nat :| Fails(rows, p) { FailsOnce(rows, p); }
  }

  /** An unfiltered count, too, fails when the source cannot be opened. */
  lemma CountNeedsSource(s: State, q: Query)
    requires Keyed(s.primary) && Candidates(s, q.source).Err?
    ensures CountResult(s, q).Err?
    ensures q.source.OverIndex? && ActiveIndex(s, q.source.name).Err? && q.filters == [] ==>
              CountResult(s, q) == Err(IndexNotFound(q.source.name))
  {}
}
