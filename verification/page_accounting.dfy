/** Counting pages over several sets of them: when the sum of their sizes tells that
    no page is in two. */
module PageAccounting {
  function Total(parts: seq<set<nat>>): nat {
    if parts == [] then 0 else |parts[0]| + Total(parts[1..])
  }

  function Pool(parts: seq<set<nat>>): set<nat> {
    if parts == [] then {} else parts[0] + Pool(parts[1..])
  }

  predicate PairwiseDisjoint(parts: seq<set<nat>>) {
    forall i, j | 0 <= i < j < |parts| :: parts[i] !! parts[j]
  }

  lemma {:induction false} TotalConcat(a: seq<set<nat>>, b: seq<set<nat>>)
    ensures Total(a + b) == Total(a) + Total(b)
    decreases |a|
  {
    if a == [] {
      assert a + b == b;
    } else {
      assert (a + b)[1..] == a[1..] + b;
      TotalConcat(a[1..], b);
    }
  }

  lemma {:induction false} PoolConcat(a: seq<set<nat>>, b: seq<set<nat>>)
    ensures Pool(a + b) == Pool(a) + Pool(b)
    decreases |a|
  {
    if a == [] {
      assert a + b == b;
    } else {
      assert (a + b)[1..] == a[1..] + b;
      PoolConcat(a[1..], b);
    }
  }

  lemma {:induction false} PoolMember(parts: seq<set<nat>>, p: nat)
    ensures p in Pool(parts) <==> exists i | 0 <= i < |parts| :: p in parts[i]
    decreases |parts|
  {
    if parts != [] {
      PoolMember(parts[1..], p);
      if p in Pool(parts[1..]) {
        var i :| 0 <= i < |parts[1..]| && p in parts[1..][i];
        assert p in parts[i + 1];
      }
      if i :| 0 <= i < |parts| && p in parts[i] {
        if i > 0 { assert p in parts[1..][i - 1]; }
      }
    }
  }

  lemma SumOfTwo(a: set<nat>, b: set<nat>)
    ensures |a + b| + |a * b| == |a| + |b|
    ensures a !! b <==> |a * b| == 0
  {}

  lemma RestMember(parts: seq<set<nat>>, p: nat)
    requires parts != []
    ensures p in Pool(parts[1..]) <==> exists j | 0 < j < |parts| :: p in parts[j]
  {
    PoolMember(parts[1..], p);
    assert forall j | 0 < j < |parts| :: parts[j] == parts[1..][j - 1];
    if i :| 0 <= i < |parts[1..]| && p in parts[1..][i] {
      assert p in parts[i + 1];
    }
  }

  lemma FirstDisjoint(parts: seq<set<nat>>)
    requires parts != []
    ensures parts[0] !! Pool(parts[1..]) <==> forall j | 0 < j < |parts| :: parts[0] !! parts[j]
  {
    forall p: nat ensures p in Pool(parts[1..]) <==> exists j | 0 < j < |parts| :: p in parts[j] {
      RestMember(parts, p);
    }
  }

  lemma DisjointCons(parts: seq<set<nat>>)
    requires parts != []
    ensures PairwiseDisjoint(parts) <==> parts[0] !! Pool(parts[1..]) && PairwiseDisjoint(parts[1..])
  {
    FirstDisjoint(parts);
    assert forall j | 0 < j < |parts| :: parts[j] == parts[1..][j - 1];
    assert forall j | 0 <= j < |parts| - 1 :: parts[1..][j] == parts[j + 1];
  }

  /** The sizes add up to that of the whole exactly if no page is counted twice. */
  lemma {:induction false} TotalTells(parts: seq<set<nat>>)
    ensures |Pool(parts)| <= Total(parts)
    ensures |Pool(parts)| == Total(parts) <==> PairwiseDisjoint(parts)
    decreases |parts|
  {
    if parts != [] {
      TotalTells(parts[1..]);
      SumOfTwo(parts[0], Pool(parts[1..]));
      DisjointCons(parts);
    }
  }

  /** The page ids a file of so many pages has besides the header's. */
  function Below(count: nat): (ps: set<nat>)
    ensures forall p :: p in ps <==> 0 < p < count
    ensures count > 0 ==> |ps| == count - 1
  {
    if count <= 1 then {} else Below(count - 1) + {count - 1}
  }
}
