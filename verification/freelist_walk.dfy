/** The freelist sweep of the integrity check. */
module FreelistWalk {
  import opened Outcomes
  import opened PageWalk

  predicate Links(pages: Pages, p: nat) {
    pages(p).Sealed? && pages(p).link.Some?
  }

  /** From cur, n free pages below the page count lead to the end of the list. */
  predicate Chain(pages: Pages, count: nat, cur: nat, n: nat)
    decreases n
  {
    if n == 0 then cur == 0
    else 0 < cur < count && Links(pages, cur) && Chain(pages, count, pages(cur).link.value, n - 1)
  }

  function ChainPages(pages: Pages, count: nat, cur: nat, n: nat): set<nat>
    requires Chain(pages, count, cur, n)
    decreases n
  {
    if n == 0 then {} else {cur} + ChainPages(pages, count, pages(cur).link.value, n - 1)
  }

  lemma {:induction false} ChainInFile(pages: Pages, count: nat, cur: nat, n: nat, p: nat)
    requires Chain(pages, count, cur, n) && p in ChainPages(pages, count, cur, n)
    ensures 0 < p < count
    decreases n
  {
    if p != cur {
      ChainInFile(pages, count, pages(cur).link.value, n - 1, p);
    }
  }

  /** The freelist ends. */
  ghost predicate CleanFreelist(pages: Pages, count: nat, head: nat) {
    exists n :: Chain(pages, count, head, n)
  }

  lemma {:induction false} ChainLengthUnique(pages: Pages, count: nat, cur: nat, n: nat, m: nat)
    requires Chain(pages, count, cur, n) && Chain(pages, count, cur, m)
    ensures n == m
    decreases n
  {
    if n > 0 && m > 0 {
      ChainLengthUnique(pages, count, pages(cur).link.value, n - 1, m - 1);
    }
  }

  lemma {:induction false} FewBelow(ps: set<nat>, count: nat)
    requires forall p | p in ps :: 0 < p < count
    ensures count > 0 ==> |ps| < count
    ensures count == 0 ==> ps == {}
  {
    if count > 1 {
      var rest := ps - {count - 1};
      FewBelow(rest, count - 1);
      assert ps == rest || ps == rest + {count - 1};
    } else {
      forall p ensures p !in ps {}
    }
  }

  // ---- The pages swept so far ----

  /** The pages of the trail are free pages linked in turn, from the head up to cur. */
  predicate Trail(pages: Pages, count: nat, head: nat, trail: seq<nat>, cur: nat) {
    && (forall i | 0 <= i < |trail| :: 0 < trail[i] < count && Links(pages, trail[i]))
    && (forall i | 0 <= i < |trail| - 1 :: pages(trail[i]).link.value == trail[i + 1])
    && (if trail == [] then cur == head else trail[0] == head && pages(trail[|trail| - 1]).link.value == cur)
  }

  function Elems(trail: seq<nat>): set<nat> {
    set p | p in trail
  }

  lemma TrailFront(pages: Pages, count: nat, head: nat, trail: seq<nat>, cur: nat)
    requires trail != [] && Trail(pages, count, head, trail, cur)
    ensures trail[0] == head && 0 < head < count && Links(pages, head)
    ensures Trail(pages, count, pages(head).link.value, trail[1..], cur)
    ensures Elems(trail) == {head} + Elems(trail[1..])
  {
    assert trail == [trail[0]] + trail[1..];
  }

  /** A list whose front is the trail goes on from cur. */
  lemma {:induction false} ListPastTrail(pages: Pages, count: nat, head: nat, trail: seq<nat>, cur: nat, n: nat)
    requires Trail(pages, count, head, trail, cur) && Chain(pages, count, head, n)
    ensures |trail| <= n && Chain(pages, count, cur, n - |trail|)
    ensures ChainPages(pages, count, head, n) == Elems(trail) + ChainPages(pages, count, cur, n - |trail|)
    decreases |trail|
  {
    if trail != [] {
      TrailFront(pages, count, head, trail, cur);
      ListPastTrail(pages, count, pages(head).link.value, trail[1..], cur, n - 1);
    }
  }

  /** A trail that leads to the end is a list. */
  lemma {:induction false} TrailToEnd(pages: Pages, count: nat, head: nat, trail: seq<nat>)
    requires Trail(pages, count, head, trail, 0)
    ensures Chain(pages, count, head, |trail|)
    decreases |trail|
  {
    if trail != [] {
      TrailFront(pages, count, head, trail, 0);
      TrailToEnd(pages, count, pages(head).link.value, trail[1..]);
    }
  }

  /** A list that comes back to a page of its trail does not end. */
  lemma NoReturn(pages: Pages, count: nat, head: nat, trail: seq<nat>, cur: nat, n: nat)
    requires Trail(pages, count, head, trail, cur) && Chain(pages, count, head, n)
    ensures cur !in trail
  {
    ListPastTrail(pages, count, head, trail, cur, n);
    if i :| 0 <= i < |trail| && trail[i] == cur {
      assert Trail(pages, count, head, trail[..i], cur);
      ListPastTrail(pages, count, head, trail[..i], cur, n);
      ChainLengthUnique(pages, count, cur, n - |trail|, n - i);
    }
  }

  lemma TrailGrows(pages: Pages, count: nat, head: nat, trail: seq<nat>, cur: nat)
    requires Trail(pages, count, head, trail, cur) && 0 < cur < count && Links(pages, cur)
    ensures Trail(pages, count, head, trail + [cur], pages(cur).link.value)
    ensures Elems(trail + [cur]) == Elems(trail) + {cur}
  {}

  // ---- What the sweep reports ----

  /** Following the links from the head gets to this page of the file. */
  ghost predicate OnList(pages: Pages, count: nat, head: nat, p: nat) {
    0 < p < count && exists trail :: Trail(pages, count, head, trail, p)
  }

  /** The trail cannot be followed past cur, which is not the end of the list. */
  predicate StopsAt(pages: Pages, count: nat, head: nat, trail: seq<nat>, cur: nat) {
    && Trail(pages, count, head, trail, cur) && |Elems(trail)| == |trail|
    && cur != 0 && (cur >= count || cur in trail || !Links(pages, cur))
  }

  /** What is wrong there, if it can be read at all. */
  function FaultAt(pages: Pages, count: nat, again: bool, cur: nat): Option<Failure> {
    if cur >= count || again then Some(FreelistChainBroken(cur))
    else match pages(cur)
      case ReadsCorrupt(reported) => Some(ChecksumMismatch(reported))
      case ReadFails(_) => None
      case BadTrailer => Some(ChecksumMismatch(cur))
      case Sealed(_, _) => Some(FreelistChainBroken(cur))
  }

  ghost predicate ListFault(pages: Pages, count: nat, head: nat, f: Failure) {
    exists trail, cur :: StopsAt(pages, count, head, trail, cur) && FaultAt(pages, count, cur in trail, cur) == Some(f)
  }

  lemma TrailBack(pages: Pages, count: nat, head: nat, trail: seq<nat>, cur: nat)
    requires trail != [] && Trail(pages, count, head, trail, cur)
    ensures Trail(pages, count, head, trail[..|trail| - 1], trail[|trail| - 1])
  {}

  /** Of two trails the shorter is the front of the longer. */
  lemma {:induction false} TrailsAgree(pages: Pages, count: nat, head: nat, a: seq<nat>, p: nat, b: seq<nat>, q: nat)
    requires Trail(pages, count, head, a, p) && Trail(pages, count, head, b, q) && |a| <= |b|
    ensures a == b[..|a|]
    ensures p == if |a| < |b| then b[|a|] else q
    decreases |b|
  {
    if |a| < |b| {
      TrailBack(pages, count, head, b, q);
      TrailsAgree(pages, count, head, a, p, b[..|b| - 1], b[|b| - 1]);
    } else if a != [] {
      TrailBack(pages, count, head, a, p);
      TrailBack(pages, count, head, b, q);
      TrailsAgree(pages, count, head, a[..|a| - 1], a[|a| - 1], b[..|b| - 1], b[|b| - 1]);
      assert a == a[..|a| - 1] + [a[|a| - 1]] && b == b[..|b| - 1] + [b[|b| - 1]];
    }
  }

  lemma FewerElems(trail: seq<nat>, n: nat)
    requires n < |trail| && |Elems(trail)| == |trail|
    ensures trail[n] !in trail[..n]
  {
    if trail[n] in trail[..n] {
      var rest := trail[..n] + trail[n + 1..];
      assert Elems(trail) == Elems(rest) by {
        assert trail == trail[..n] + [trail[n]] + trail[n + 1..];
      }
      ElemsFit(rest);
    }
  }

  lemma {:induction false} ElemsFit(trail: seq<nat>)
    ensures |Elems(trail)| <= |trail|
  {
    if trail != [] {
      ElemsFit(trail[1..]);
      assert trail == [trail[0]] + trail[1..];
      assert Elems(trail) == {trail[0]} + Elems(trail[1..]);
    }
  }

  /** The list goes wrong in one place. */
  lemma StopsOnce(pages: Pages, count: nat, head: nat, a: seq<nat>, p: nat, b: seq<nat>, q: nat)
    requires StopsAt(pages, count, head, a, p) && StopsAt(pages, count, head, b, q) && |a| <= |b|
    ensures a == b && p == q
  {
    TrailsAgree(pages, count, head, a, p, b, q);
    if |a| < |b| { FewerElems(b, |a|); } else { assert b[..|a|] == b; }
  }

  /** A list that ends does not go wrong. */
  lemma EndsOrStops(pages: Pages, count: nat, head: nat, n: nat, b: seq<nat>, q: nat)
    requires Chain(pages, count, head, n)
    ensures !StopsAt(pages, count, head, b, q)
  {
    if StopsAt(pages, count, head, b, q) {
      ListPastTrail(pages, count, head, b, q, n);
      NoReturn(pages, count, head, b, q, n);
    }
  }

  /** Every page the links lead to is on the trail, or where it ends. */
  lemma {:induction false} LeadsAlongTrail(pages: Pages, count: nat, head: nat, trail: seq<nat>, cur: nat, b: seq<nat>,
          q: nat)
    requires Trail(pages, count, head, trail, cur) && (cur == 0 || StopsAt(pages, count, head, trail, cur))
    requires Trail(pages, count, head, b, q)
    ensures q in trail || q == cur
    decreases |b|
  {
    if b == [] {
      if trail != [] { assert trail[0] == head; }
    } else {
      var r := b[|b| - 1];
      TrailBack(pages, count, head, b, q);
      LeadsAlongTrail(pages, count, head, trail, cur, b[..|b| - 1], r);
      var i :| 0 <= i < |trail| && trail[i] == r;
      if i + 1 < |trail| { assert trail[i + 1] == q; }
    }
  }

  /** What has been seen is what the links lead to. */
  lemma SeenIsOnList(pages: Pages, count: nat, head: nat, trail: seq<nat>, cur: nat, p: nat)
    requires Trail(pages, count, head, trail, cur) && (cur == 0 || StopsAt(pages, count, head, trail, cur))
    ensures OnList(pages, count, head, p) <==> p in trail || (0 < p < count && p == cur)
  {
    if OnList(pages, count, head, p) {
      var b :| Trail(pages, count, head, b, p);
      LeadsAlongTrail(pages, count, head, trail, cur, b, p);
    }
    if i :| 0 <= i < |trail| && trail[i] == p {
      assert Trail(pages, count, head, trail[..i], p);
    }
  }

  // ---- The sweep ----

  method ReadLink(pages: Pages, p: nat) returns (r: Result<Option<nat>>, found: seq<Failure>)
    ensures Links(pages, p) ==> r == Ok(Some(pages(p).link.value)) && found == []
    ensures !Links(pages, p) ==> if pages(p).ReadFails? then r == Err(pages(p).error) && found == []
              else r == Ok(None) && |found| == 1
    ensures pages(p).ReadsCorrupt? ==> found == [ChecksumMismatch(pages(p).reported)]
    ensures pages(p).BadTrailer? ==> found == [ChecksumMismatch(p)]
    ensures pages(p).Sealed? && pages(p).link.None? ==> found == [FreelistChainBroken(p)]
  {
    match pages(p) {
      case ReadsCorrupt(reported) => return Ok(None), [ChecksumMismatch(reported)];
      case ReadFails(e) => return Err(e), [];
      case BadTrailer => return Ok(None), [ChecksumMismatch(p)];
      case Sealed(_, None) => return Ok(None), [FreelistChainBroken(p)];
      case Sealed(_, Some(next)) => return Ok(Some(next)), [];
    }
  }

  predicate MayFollow(pages: Pages, count: nat, cur: nat, seen: set<nat>, steps: nat) {
    steps < count && cur < count && cur !in seen && Links(pages, cur)
  }

  /** How the checks on a page that cannot be followed turn out. */
  predicate Outcome(pages: Pages, count: nat, cur: nat, seen: set<nat>, steps: nat, r: Result<Option<nat>>,
          seen': set<nat>, found: seq<Failure>) {
    var fault := FaultAt(pages, count, cur in seen, cur);
    && (cur >= count ==> seen' == seen)
    && (cur < count ==> seen' == seen + {cur} || (steps >= count && seen' == seen))
    && (cur >= count || steps < count ==>
          if fault.Some? then r.Ok? && found == [fault.value]
          else pages(cur).ReadFails? && r == Err(pages(cur).error) && found == [])
  }

  /** The checks on one page of the list: enough steps left, inside the file, not
      met before, readable as a free page. */
  method FollowLink(pages: Pages, count: nat, cur: nat, seen: set<nat>, steps: nat)
    returns (r: Result<Option<nat>>, seen': set<nat>, found: seq<Failure>)
    requires cur != 0
    ensures MayFollow(pages, count, cur, seen, steps) ==>
              r == Ok(Some(pages(cur).link.value)) && seen' == seen + {cur} && found == []
    ensures !MayFollow(pages, count, cur, seen, steps) ==> if r.Err? then found == [] else r.value.None? && |found| == 1
    ensures !MayFollow(pages, count, cur, seen, steps) ==> Outcome(pages, count, cur, seen, steps, r, seen', found)
  {
    if steps + 1 > count || cur >= count || cur in seen {
      return Ok(None), seen, [FreelistChainBroken(cur)];
    }
    r, found := ReadLink(pages, cur);
    seen' := seen + {cur};
  }

  /** In a list that ends no check fails before its end. */
  lemma ListMayBeFollowed(pages: Pages, count: nat, head: nat, trail: seq<nat>, cur: nat, n: nat)
    requires Trail(pages, count, head, trail, cur) && cur != 0 && |Elems(trail)| == |trail| &&
              Chain(pages, count, head, n)
    ensures MayFollow(pages, count, cur, Elems(trail), |trail|)
  {
    ListPastTrail(pages, count, head, trail, cur, n);
    NoReturn(pages, count, head, trail, cur, n);
    FewBelow(Elems(trail), count);
  }

  ghost predicate ListUnreadable(pages: Pages, count: nat, head: nat, e: Error) {
    exists p :: OnList(pages, count, head, p) && pages(p) == ReadFails(e)
  }

  /** What has been seen is what the links lead to, unless it could not be read, and what
      is reported is where the list goes wrong. */
  ghost predicate Exactly(pages: Pages, count: nat, head: nat, complete: bool, seen: set<nat>, found: seq<Failure>) {
    && (complete ==> forall p :: p in seen <==> OnList(pages, count, head, p))
    && forall f :: f in found <==> ListFault(pages, count, head, f)
  }

  /** Where the sweep stops before the end of the list. */
  lemma SweepStops(pages: Pages, count: nat, head: nat, trail: seq<nat>, cur: nat, seen: set<nat>,
          next: Result<Option<nat>>, after: set<nat>, bad: seq<Failure>)
    requires Trail(pages, count, head, trail, cur) && cur != 0
    requires seen == Elems(trail) && |seen| == |trail| && !MayFollow(pages, count, cur, seen, |trail|)
    requires Outcome(pages, count, cur, seen, |trail|, next, after, bad)
    ensures Exactly(pages, count, head, next.Ok?, after, bad)
    ensures next.Err? ==> ListUnreadable(pages, count, head, next.error)
  {
    FewBelow(Elems(trail), count);
    assert StopsAt(pages, count, head, trail, cur);
    forall p ensures OnList(pages, count, head, p) <==> p in seen || (cur < count && p == cur) {
      SeenIsOnList(pages, count, head, trail, cur, p);
    }
    forall f | ListFault(pages, count, head, f) ensures FaultAt(pages, count, cur in trail, cur) == Some(f) {
      var b, q :| StopsAt(pages, count, head, b, q) && FaultAt(pages, count, q in b, q) == Some(f);
      if |b| <= |trail| {
        StopsOnce(pages, count, head, b, q, trail, cur);
      } else {
        StopsOnce(pages, count, head, trail, cur, b, q);
      }
    }
  }

  lemma SweepEnds(pages: Pages, count: nat, head: nat, trail: seq<nat>)
    requires Trail(pages, count, head, trail, 0)
    ensures Exactly(pages, count, head, true, Elems(trail), [])
  {
    TrailToEnd(pages, count, head, trail);
    forall p ensures OnList(pages, count, head, p) <==> p in Elems(trail) {
      SeenIsOnList(pages, count, head, trail, 0, p);
    }
    forall f ensures !ListFault(pages, count, head, f) {
      if ListFault(pages, count, head, f) {
        var b, q :| StopsAt(pages, count, head, b, q) && FaultAt(pages, count, q in b, q) == Some(f);
        EndsOrStops(pages, count, head, |trail|, b, q);
      }
    }
  }

  /** Sweeps the list. Nothing is reported, and no error met, exactly when the
      list ends; what was seen is then the whole list, one step a page. */
  method WalkFreelist(pages: Pages, head: nat, count: nat) returns (r: Result<nat>, seen: set<nat>, found: seq<Failure>)
    ensures r.Ok? && found == [] <==> CleanFreelist(pages, count, head)
    ensures forall n: nat | Chain(pages, count, head, n) :: r == Ok(n) && seen == ChainPages(pages, count, head, n)
    ensures forall p | p in seen :: 0 < p < count
    ensures r.Ok? && found == [] ==> r.value == |seen|
    ensures |found| <= 1
    ensures Exactly(pages, count, head, r.Ok?, seen, found)
    ensures r.Err? ==> ListUnreadable(pages, count, head, r.error)
  {
    seen, found := {}, [];
    var current: nat, steps: nat := head, 0;
    ghost var trail: seq<nat> := [];
    while current != 0
      invariant Trail(pages, count, head, trail, current)
      invariant seen == Elems(trail) && |seen| == |trail| == steps
      decreases count - steps
    {
      forall n: nat | Chain(pages, count, head, n) ensures MayFollow(pages, count, current, seen, steps) {
        ListMayBeFollowed(pages, count, head, trail, current, n);
      }
      var next, after, bad := FollowLink(pages, count, current, seen, steps);
      if next.Err? || next.value.None? {
        SweepStops(pages, count, head, trail, current, seen, next, after, bad);
        r, seen, found := if next.Err? then Err(next.error) else Ok(steps + 1), after, bad;
        return;
      }
      TrailGrows(pages, count, head, trail, current);
      trail := trail + [current];
      seen, current, steps := after, next.value.value, steps + 1;
    }
    TrailToEnd(pages, count, head, trail);
    SweepEnds(pages, count, head, trail);
    forall n: nat | Chain(pages, count, head, n) ensures n == steps && seen == ChainPages(pages, count, head, n) {
      ListPastTrail(pages, count, head, trail, 0, n);
    }
    r := Ok(steps);
  }
}
