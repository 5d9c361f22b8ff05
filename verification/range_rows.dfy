/** What an index range delivers, row by row, whatever state the index is in. */
module RangeRows {
  import opened ByteOrder
  import opened Outcomes
  import opened OrderedMap
  import opened IndexKey
  import opened IndexExtract
  import opened IndexMaint
  import opened Collection
  import opened Agreement
  import opened IndexRead
  import opened FetchMeaning
  import IndexBound

  /** The row for one entry: the document the entry names, under its user key. */
  predicate RowFor(primary: map<Bytes, Doc>, kind: IndexKind, e: Entry<Bytes>, row: Row) {
    if IsId(e.val) && e.val in primary then row == Ok((StripIdSuffix(kind, e.key), primary[e.val]))
    else row == Err(Corruption)
  }

  /** Under an Each index an id is passed over where it was met before. */
  predicate Repeats(kind: IndexKind, es: seq<Entry<Bytes>>, seen: set<Bytes>, p: nat)
    requires p < |es|
  {
    kind.Each? && IsId(es[p].val) && (es[p].val in seen || exists o | 0 <= o < p :: es[o].val == es[p].val)
  }

  lemma RepeatsCons(kind: IndexKind, es: seq<Entry<Bytes>>, seen: set<Bytes>, p: nat)
    requires p + 1 < |es|
    ensures Repeats(kind, es, seen, p + 1) <==> Repeats(kind, es[1..], Remember(kind, es[0], seen), p)
  {
    if o :| 0 <= o < p + 1 && es[o].val == es[p + 1].val {
      if o > 0 { assert es[1..][o - 1].val == es[p + 1].val; }
    }
    if o :| 0 <= o < p && es[1..][o].val == es[1..][p].val { assert es[o + 1].val == es[p + 1].val; }
  }

  /** The entries that get a row: all that do not repeat, in order. */
  function EntriesKept(kind: IndexKind, es: seq<Entry<Bytes>>, seen: set<Bytes>): (at: seq<nat>) {
    if es == [] then [] else
    (if StageOne(kind, es[0], seen) == [] then [] else [0]) +
    Shift(EntriesKept(kind, es[1..], Remember(kind, es[0], seen)))
  }

  lemma ConsIncreasing(head: seq<nat>, rest: seq<nat>, p: nat)
    requires (head == [] || head == [0]) && Increasing(rest)
    ensures Increasing(head + Shift(rest))
    ensures p + 1 in head + Shift(rest) <==> p in rest
    ensures 0 in head + Shift(rest) <==> head == [0]
  {
    ShiftedMember(rest, p);
  }

  lemma {:induction false} KeptIncreasing(kind: IndexKind, es: seq<Entry<Bytes>>, seen: set<Bytes>)
    ensures Increasing(EntriesKept(kind, es, seen))
    ensures |EntriesKept(kind, es, seen)| == |Stage(kind, es, seen)|
  {
    if es != [] {
      var later := Remember(kind, es[0], seen);
      KeptIncreasing(kind, es[1..], later);
      ConsIncreasing(if StageOne(kind, es[0], seen) == [] then [] else [0], EntriesKept(kind, es[1..], later), 0);
    }
  }

  lemma {:induction false} StagedAt(kind: IndexKind, es: seq<Entry<Bytes>>, seen: set<Bytes>, i: nat)
    requires i < |EntriesKept(kind, es, seen)| == |Stage(kind, es, seen)|
    ensures var p := EntriesKept(kind, es, seen)[i];
            p < |es| && StageOne(kind, es[p], {}) == [Stage(kind, es, seen)[i]]
  {
    var later, n := Remember(kind, es[0], seen), |StageOne(kind, es[0], seen)|;
    if n <= i {
      KeptIncreasing(kind, es[1..], later);
      StagedAt(kind, es[1..], later, i - n);
      assert EntriesKept(kind, es, seen)[i] == EntriesKept(kind, es[1..], later)[i - n] + 1;
      assert Stage(kind, es, seen)[i] == Stage(kind, es[1..], later)[i - n];
    }
  }

  lemma KeptCons(kind: IndexKind, es: seq<Entry<Bytes>>, seen: set<Bytes>, p: nat)
    requires es != []
    ensures p + 1 in EntriesKept(kind, es, seen) <==> p in EntriesKept(kind, es[1..], Remember(kind, es[0], seen))
    ensures 0 in EntriesKept(kind, es, seen) <==> StageOne(kind, es[0], seen) != []
  {
    var rest := EntriesKept(kind, es[1..], Remember(kind, es[0], seen));
    KeptIncreasing(kind, es[1..], Remember(kind, es[0], seen));
    ConsIncreasing(if StageOne(kind, es[0], seen) == [] then [] else [0], rest, p);
  }

  predicate KeptAt(kind: IndexKind, es: seq<Entry<Bytes>>, seen: set<Bytes>, p: nat) {
    p in EntriesKept(kind, es, seen)
  }

  lemma FirstKept(kind: IndexKind, es: seq<Entry<Bytes>>, seen: set<Bytes>)
    requires es != []
    ensures KeptAt(kind, es, seen, 0) <==> !Repeats(kind, es, seen, 0)
  {
    KeptCons(kind, es, seen, 0);
  }

  lemma LaterKept(kind: IndexKind, es: seq<Entry<Bytes>>, seen: set<Bytes>, p: nat)
    requires p + 1 < |es|
    requires var later := Remember(kind, es[0], seen);
             KeptAt(kind, es[1..], later, p) <==> !Repeats(kind, es[1..], later, p)
    ensures KeptAt(kind, es, seen, p + 1) <==> !Repeats(kind, es, seen, p + 1)
  {
    KeptCons(kind, es, seen, p);
    RepeatsCons(kind, es, seen, p);
  }

  lemma {:induction false} KeptUnlessRepeated(kind: IndexKind, es: seq<Entry<Bytes>>, seen: set<Bytes>, p: nat)
    requires p < |es|
    ensures KeptAt(kind, es, seen, p) <==> !Repeats(kind, es, seen, p)
  {
    if p == 0 {
      FirstKept(kind, es, seen);
    } else {
      KeptUnlessRepeated(kind, es[1..], Remember(kind, es[0], seen), p - 1);
      LaterKept(kind, es, seen, p - 1);
    }
  }

  lemma RowsOfStaged(primary: map<Bytes, Doc>, kind: IndexKind, es: seq<Entry<Bytes>>, at: seq<nat>)
    requires at == EntriesKept(kind, es, {})
    ensures var rows := ResolveAll(primary, Stage(kind, es, {}));
            |rows| == |at| && forall i | 0 <= i < |at| :: at[i] < |es| && RowFor(primary, kind, es[at[i]], rows[i])
  {
    KeptIncreasing(kind, es, {});
    var staged := Stage(kind, es, {});
    forall i: nat | i < |at| ensures at[i] < |es| && RowFor(primary, kind, es[at[i]], Resolve(primary, staged[i])) {
      StagedAt(kind, es, {}, i);
      assert StageOne(kind, es[at[i]], {}) == [staged[i]];
      assert [staged[i]][0] == staged[i];
    }
  }

  /** A range over any index, sound or not: one row for each entry within the widened
      bounds that does not repeat an id, in key order; an entry that names no stored
      document makes an error. */
  lemma RangeDelivers(s: State, name: string, ix: IndexDescriptor, lo: Bound<Bytes>, hi: Bound<Bytes>)
    returns (es: seq<Entry<Bytes>>, at: seq<nat>)
    requires ActiveIndex(s, name) == Ok(ix)
    ensures var l, h := IndexBound.WidenLowerFor(ix.spec.kind, lo), IndexBound.WidenUpperFor(ix.spec.kind, hi);
            forall e: Entry<Bytes> :: e in es <==> Has(ix.tree, e.key, e.val) && Within(e.key, l, h)
    ensures forall i, j | 0 <= i < j < |es| :: Less(es[i].key, es[j].key)
    ensures Increasing(at) && forall p: nat :: p in at <==> p < |es| && !Repeats(ix.spec.kind, es, {}, p)
    ensures IndexRange(s, name, lo, hi).Ok? && |IndexRange(s, name, lo, hi).value| == |at|
    ensures forall i | 0 <= i < |at| ::
              at[i] < |es| && RowFor(s.primary, ix.spec.kind, es[at[i]], IndexRange(s, name, lo, hi).value[i])
  {
    es := Scan(ix, lo, hi);
    at := EntriesKept(ix.spec.kind, es, {});
    KeptIncreasing(ix.spec.kind, es, {});
    RowsOfStaged(s.primary, ix.spec.kind, es, at);
    forall p: nat ensures p in at <==> p < |es| && !Repeats(ix.spec.kind, es, {}, p) {
      if p < |es| { KeptUnlessRepeated(ix.spec.kind, es, {}, p); }
    }
  }
}
