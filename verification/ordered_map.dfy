/** The B+tree seen through its contract: a finite map from byte strings whose
    range scans deliver the entries between two bounds in key order. */
module OrderedMap {
  import opened ByteOrder
  import opened Outcomes

  datatype Bound<+T> = Included(key: T) | Excluded(key: T) | Unbounded

  datatype Entry<+V> = Entry(key: Bytes, val: V)

  predicate AboveLower(k: Bytes, lo: Bound<Bytes>) {
    match lo
    case Included(b) => AtMost(b, k)
    case Excluded(b) => Less(b, k)
    case Unbounded => true
  }

  predicate BelowUpper(k: Bytes, hi: Bound<Bytes>) {
    match hi
    case Included(b) => AtMost(k, b)
    case Excluded(b) => Less(k, b)
    case Unbounded => true
  }

  predicate Within(k: Bytes, lo: Bound<Bytes>, hi: Bound<Bytes>) {
    AboveLower(k, lo) && BelowUpper(k, hi)
  }

  predicate Ascending(ks: seq<Bytes>) {
    forall i, j | 0 <= i < j < |ks| :: Less(ks[i], ks[j])
  }

  predicate IsMin(k: Bytes, s: set<Bytes>) {
    k in s && forall x | x in s :: AtMost(k, x)
  }

  lemma MinExists(s: set<Bytes>)
    requires s != {}
    ensures exists k :: IsMin(k, s)
  {
    var x :| x in s;
    if s == {x} {
      assert IsMin(x, s);
    } else {
      MinExists(s - {x});
      var y :| IsMin(y, s - {x});
      LessTotal(x, y);
      if Less(x, y) {
        forall z | z in s ensures AtMost(x, z) {
          if z != x && z != y { assert AtMost(y, z); LessTransitive(x, y, z); }
        }
        assert IsMin(x, s);
      } else {
        assert IsMin(y, s);
      }
    }
  }

  lemma MinUnique(s: set<Bytes>, a: Bytes, b: Bytes)
    requires IsMin(a, s) && IsMin(b, s)
    ensures a == b
  {
    if a != b {
      LessAsymmetric(a, b);
    }
  }

  function MinKey(s: set<Bytes>): (k: Bytes)
    requires s != {}
    ensures IsMin(k, s)
  {
    MinExists(s);
    assert forall a, b | IsMin(a, s) && IsMin(b, s) :: a == b by {
      forall a, b | IsMin(a, s) && IsMin(b, s) ensures a == b { MinUnique(s, a, b); }
    }
    assert exists k :: IsMin(k, s);
    var k :| k in s && IsMin(k, s);
    k
  }

  /** The elements of s, least first. */
  function SortedKeys(s: set<Bytes>): (ks: seq<Bytes>)
    ensures |ks| == |s|
    ensures forall k :: k in ks <==> k in s
    ensures Ascending(ks)
  {
    if s == {} then [] else
    var k := MinKey(s);
    var rest := SortedKeys(s - {k});
    assert forall i | 0 <= i < |rest| :: rest[i] in rest;
    [k] + rest
  }

  lemma HeadIsElement(ks: seq<Bytes>)
    requires ks != []
    ensures ks[0] in ks
  {}

  /** An ascending sequence is determined by its elements. */
  lemma {:induction false} AscendingUnique(a: seq<Bytes>, b: seq<Bytes>)
    requires Ascending(a) && Ascending(b)
    requires forall k :: k in a <==> k in b
    ensures a == b
  {
    if a == [] {
      if b != [] {
        HeadIsElement(b);
        assert false;
      }
    } else {
      assert a[0] in b && b != [] && b[0] in a;
      if a[0] != b[0] {
        LessAsymmetric(a[0], b[0]);
      }
      LessIrreflexive(a[0]);
      forall k ensures k in a[1..] <==> k in b[1..] {
        assert k in a <==> k == a[0] || k in a[1..];
        assert k in b <==> k == b[0] || k in b[1..];
        assert a[0] !in a[1..] && b[0] !in b[1..];
      }
      AscendingUnique(a[1..], b[1..]);
      assert a == [a[0]] + a[1..] && b == [b[0]] + b[1..];
    }
  }

  lemma SubsetFits<T>(a: set<T>, b: set<T>)
    requires a <= b
    ensures |a| <= |b|
  {
    assert b == a + (b - a);
  }

  function KeysWithin<V>(m: map<Bytes, V>, lo: Bound<Bytes>, hi: Bound<Bytes>): set<Bytes> {
    set k | k in m && Within(k, lo, hi)
  }

  function EntriesOf<V>(m: map<Bytes, V>, ks: seq<Bytes>): (es: seq<Entry<V>>)
    requires forall k | k in ks :: k in m
    ensures |es| == |ks|
    ensures forall i | 0 <= i < |es| :: es[i] == Entry(ks[i], m[ks[i]])
  {
    seq(|ks|, i requires 0 <= i < |ks| => assert ks[i] in ks; Entry(ks[i], m[ks[i]]))
  }

  /** A range scan. */
  function Range<V(!new)>(m: map<Bytes, V>, lo: Bound<Bytes>, hi: Bound<Bytes>): (es: seq<Entry<V>>)
    ensures forall e: Entry<V> :: e in es <==> e.key in m && e.val == m[e.key] && Within(e.key, lo, hi)
    ensures forall i, j | 0 <= i < j < |es| :: Less(es[i].key, es[j].key)
    ensures |es| == |KeysWithin(m, lo, hi)|
  {
    var ks := SortedKeys(KeysWithin(m, lo, hi));
    var es := EntriesOf(m, ks);
    assert forall i | 0 <= i < |es| :: ks[i] in ks;
    assert forall e: Entry<V> | e.key in m && e.val == m[e.key] && Within(e.key, lo, hi) :: e in es by {
      forall e: Entry<V> | e.key in m && e.val == m[e.key] && Within(e.key, lo, hi) ensures e in es {
        assert e.key in ks;
        var i :| 0 <= i < |ks| && ks[i] == e.key;
        assert es[i] == e;
      }
    }
    es
  }

  function KeysOf<V>(es: seq<Entry<V>>): (ks: seq<Bytes>)
    ensures |ks| == |es|
    ensures forall i | 0 <= i < |es| :: ks[i] == es[i].key
  {
    seq(|es|, i requires 0 <= i < |es| => es[i].key)
  }

  /** Any ascending listing of exactly the entries between the bounds is the scan. */
  lemma RangeUnique<V(!new)>(m: map<Bytes, V>, lo: Bound<Bytes>, hi: Bound<Bytes>, es: seq<Entry<V>>)
    requires forall i, j | 0 <= i < j < |es| :: Less(es[i].key, es[j].key)
    requires forall e: Entry<V> :: e in es <==> e.key in m && e.val == m[e.key] && Within(e.key, lo, hi)
    ensures es == Range(m, lo, hi)
  {
    var rs := Range(m, lo, hi);
    forall k ensures k in KeysOf(es) <==> k in KeysOf(rs) {
      if k in KeysOf(es) {
        var i :| 0 <= i < |es| && KeysOf(es)[i] == k;
        assert es[i] in rs;
        var j :| 0 <= j < |rs| && rs[j] == es[i];
        assert KeysOf(rs)[j] == k;
      }
      if k in KeysOf(rs) {
        var i :| 0 <= i < |rs| && KeysOf(rs)[i] == k;
        assert rs[i] in es;
        var j :| 0 <= j < |es| && es[j] == rs[i];
        assert KeysOf(es)[j] == k;
      }
    }
    AscendingUnique(KeysOf(es), KeysOf(rs));
    forall i | 0 <= i < |es| ensures es[i] == rs[i] {
      assert es[i] in es && rs[i] in rs && KeysOf(es)[i] == KeysOf(rs)[i];
    }
  }

  lemma PastLastWithin(k: Bytes, last: Bytes, lo: Bound<Bytes>)
    requires AboveLower(last, lo) && Less(last, k)
    ensures AboveLower(k, lo)
  {
    match lo {
      case Included(b) => if b != last { LessTransitive(b, last, k); }
      case Excluded(b) => LessTransitive(b, last, k);
      case Unbounded =>
    }
  }

  /** The entries of a scan sorting after its n-th are those from position n on. */
  lemma TailOfScan<V(!new)>(es: seq<Entry<V>>, n: nat, e: Entry<V>)
    requires 0 < n <= |es|
    requires forall i, j | 0 <= i < j < |es| :: Less(es[i].key, es[j].key)
    ensures e in es[n..] <==> e in es && Less(es[n - 1].key, e.key)
  {
    if e in es && Less(es[n - 1].key, e.key) {
      var i :| 0 <= i < |es| && es[i] == e;
      LessAsymmetric(es[n - 1].key, e.key);
      LessIrreflexive(e.key);
      assert i >= n;
      assert es[n..][i - n] == e;
    }
  }

  /** Restarting a scan just past its n-th entry continues it: the resumption
      step of every chunked iterator. */
  lemma RangeResume<V(!new)>(m: map<Bytes, V>, lo: Bound<Bytes>, hi: Bound<Bytes>, n: nat)
    requires 0 < n <= |Range(m, lo, hi)|
    ensures Range(m, Excluded(Range(m, lo, hi)[n - 1].key), hi) == Range(m, lo, hi)[n..]
  {
    var rs := Range(m, lo, hi);
    var last := rs[n - 1].key;
    assert rs[n - 1] in rs;
    forall e: Entry<V>
      ensures e in rs[n..] <==> e.key in m && e.val == m[e.key] && Within(e.key, Excluded(last), hi)
    {
      TailOfScan(rs, n, e);
      if Less(last, e.key) {
        PastLastWithin(e.key, last, lo);
      }
    }
    RangeUnique(m, Excluded(last), hi, rs[n..]);
  }

  /** How many entry insertions and deletions a tree handle has carried out. */
  datatype Work = Work(inserts: nat, deletes: nat)

  /** A mutable tree handle. The ghost field records the work done on it. */
  class BTree<V(==)> {
    var entries: map<Bytes, V>
    ghost var work: Work

    constructor (contents: map<Bytes, V>)
      ensures entries == contents && work == Work(0, 0)
    {
      entries := contents;
      work := Work(0, 0);
    }

    method Get(key: Bytes) returns (r: Option<V>)
      ensures r == if key in entries then Some(entries[key]) else None
    {
      r := if key in entries then Some(entries[key]) else None;
    }

    /** Fails on an occupied key and then leaves the tree alone. */
    method Insert(key: Bytes, val: V) returns (r: Result<()>)
      modifies this
      ensures key in old(entries) ==> r == Err(BTreeKeyExists) && entries == old(entries) && work == old(work)
      ensures key !in old(entries) ==>
                r == Ok(()) && entries == old(entries)[key := val] &&
                    work == old(work).(inserts := old(work).inserts + 1)
    {
      if key in entries {
        return Err(BTreeKeyExists);
      }
      entries := entries[key := val];
      work := work.(inserts := work.inserts + 1);
      return Ok(());
    }

    /** Reports whether the key was there. */
    method Delete(key: Bytes) returns (removed: bool)
      modifies this
      ensures removed <==> key in old(entries)
      ensures entries == old(entries) - {key}
      ensures work == old(work).(deletes := old(work).deletes + 1)
    {
      removed := key in entries;
      entries := entries - {key};
      work := work.(deletes := work.deletes + 1);
    }
  }
}
