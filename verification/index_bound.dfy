/** Widening of user-facing range bounds to bounds on the tree keys of an index. */
module IndexBound {
  import opened ByteOrder
  import opened Outcomes
  import opened OrderedMap
  import opened IndexKey
  import opened IndexExtract
  import opened IndexMaint

  const SUFFIX_HIGH: Bytes := [255, 255, 255, 255, 255, 255, 255, 255]

  function WidenLower(b: Bound<Bytes>): Bound<Bytes> {
    match b
    case Included(v) => Included(v)
    case Excluded(v) => Excluded(v + SUFFIX_HIGH)
    case Unbounded => Unbounded
  }

  function WidenUpper(b: Bound<Bytes>): Bound<Bytes> {
    match b
    case Included(v) => Included(v + SUFFIX_HIGH)
    case Excluded(v) => Excluded(v)
    case Unbounded => Unbounded
  }

  function WidenLowerFor(kind: IndexKind, b: Bound<Bytes>): Bound<Bytes> {
    if kind.Unique? then b else WidenLower(b)
  }

  function WidenUpperFor(kind: IndexKind, b: Bound<Bytes>): Bound<Bytes> {
    if kind.Unique? then b else WidenUpper(b)
  }

  lemma {:induction false} AllOnesIsMaximal(a: Bytes, top: Bytes)
    requires |a| == |top| && forall i | 0 <= i < |top| :: top[i] == 255
    ensures AtMost(a, top)
  {
    if a != [] {
      AllOnesIsMaximal(a[1..], top[1..]);
      assert a == [a[0]] + a[1..] && top == [top[0]] + top[1..];
    }
  }

  /** Neither string is a proper prefix of the other. */
  predicate Apart(a: Bytes, b: Bytes) {
    a <= b || b <= a ==> a == b
  }

  predicate ApartFromBound(u: Bytes, b: Bound<Bytes>) {
    b.Unbounded? || Apart(u, b.key)
  }

  lemma ApartOrder(u: Bytes, x: Bytes, b: Bytes, y: Bytes)
    requires Apart(u, b) && u != b
    ensures u + x != b + y
    ensures Less(u + x, b + y) <==> Less(u, b)
    ensures Less(b + y, u + x) <==> Less(b, u)
  {
    LessDiverging(u, x, b, y);
    LessDiverging(b, y, u, x);
    if u + x == b + y {
      PrefixesComparable(u, x, b, y);
    }
  }

  lemma WidenedLowerExact(u: Bytes, id: Bytes, lo: Bound<Bytes>)
    requires |id| == 8 && ApartFromBound(u, lo)
    ensures AboveLower(u + id, WidenLower(lo)) <==> AboveLower(u, lo)
  {
    if !lo.Unbounded? {
      var b := lo.key;
      assert b + [] == b;
      if u == b {
        LessExtension(b, id);
        LessCommonPrefix(b, SUFFIX_HIGH, id);
        AllOnesIsMaximal(id, SUFFIX_HIGH);
        LessIrreflexive(b);
        if Less(SUFFIX_HIGH, id) { LessAsymmetric(SUFFIX_HIGH, id); }
      } else {
        ApartOrder(u, id, b, []);
        ApartOrder(u, id, b, SUFFIX_HIGH);
      }
    }
  }

  lemma WidenedUpperExact(u: Bytes, id: Bytes, hi: Bound<Bytes>)
    requires |id| == 8 && ApartFromBound(u, hi)
    ensures BelowUpper(u + id, WidenUpper(hi)) <==> BelowUpper(u, hi)
  {
    if !hi.Unbounded? {
      var b := hi.key;
      assert b + [] == b;
      if u == b {
        LessExtension(b, id);
        LessAsymmetric(b, b + id);
        LessCommonPrefix(b, id, SUFFIX_HIGH);
        AllOnesIsMaximal(id, SUFFIX_HIGH);
        LessIrreflexive(b);
      } else {
        ApartOrder(u, id, b, []);
        ApartOrder(u, id, b, SUFFIX_HIGH);
      }
    }
  }

  /** The widened bounds select a tree key exactly when its user key lies within
      the user's bounds. */
  lemma WideningExact(kind: IndexKind, u: Bytes, id: Bytes, lo: Bound<Bytes>, hi: Bound<Bytes>)
    requires IsId(id) && ApartFromBound(u, lo) && ApartFromBound(u, hi)
    ensures Within(StorageKey(kind, u, id), WidenLowerFor(kind, lo), WidenUpperFor(kind, hi)) <==> Within(u, lo, hi)
  {
    if !kind.Unique? {
      WidenedLowerExact(u, id, lo);
      WidenedUpperExact(u, id, hi);
    }
  }

  /** Without prefix-freeness the widened range is too wide: the key [1, 2] lies
      outside ..=[1], its tree key does not. */
  lemma WideningNeedsPrefixFreedom(id: Bytes)
    requires IsId(id)
    ensures !BelowUpper([1, 2], Included([1]))
    ensures BelowUpper([1, 2] + id, WidenUpper(Included([1])))
  {
    assert [1, 2] + id == [1] + ([2] + id);
    LessCommonPrefix([1], [2] + id, SUFFIX_HIGH);
    LessExtension([1], [2]);
    LessAsymmetric([1], [1] + [2]);
  }

  // ---- Bounds given as field values ----

  /** A bound value: one scalar, or the leading fields of a composite key. */
  function EncodeBoundValue(d: Dynamic): (r: Result<Bytes>) {
    if d.Seq? then
      var body :- EncodeFields(d.items);
      Ok([COMPOSITE_TAG] + body)
    else EncodeField(d)
  }

  function EncodeDynamicBound(b: Bound<Dynamic>): (r: Result<Bound<Bytes>>) {
    match b
    case Included(d) => var v :- EncodeBoundValue(d); Ok(Included(v))
    case Excluded(d) => var v :- EncodeBoundValue(d); Ok(Excluded(v))
    case Unbounded => Ok(Unbounded)
  }

  /** The one family of bounds that can be a proper prefix of a stored key: a
      tuple of another length than the composite index has fields. */
  predicate PartialTuple(spec: IndexSpec, d: Dynamic) {
    spec.kind.Composite? && d.Seq? && |d.items| != |spec.keyPaths|
  }

  lemma ScalarTagBelowComposite(d: Dynamic)
    requires Encodable(d)
    ensures Enc(d)[0] < COMPOSITE_TAG
  {}

  lemma BoundValueApart(spec: IndexSpec, u: Bytes, d: Dynamic)
    requires IsKeyOf(spec, u) && EncodeBoundValue(d).Ok? && !PartialTuple(spec, d)
    ensures Apart(u, EncodeBoundValue(d).value)
  {
    var b := EncodeBoundValue(d).value;
    var fs :| EncodeKey(spec.kind, |spec.keyPaths|, fs) == Ok(u);
    if spec.kind.Composite? {
      if d.Seq? {
        assert EncodeKey(spec.kind, |spec.keyPaths|, d.items) == Ok(b);
        EncodeKeyOrder(spec.kind, |spec.keyPaths|, fs, d.items);
        EncodeKeyOrder(spec.kind, |spec.keyPaths|, d.items, fs);
      } else {
        ScalarTagBelowComposite(d);
        assert u[0] == COMPOSITE_TAG && u[0] != b[0];
      }
    } else {
      ScalarTagBelowComposite(fs[0]);
      if d.Seq? {
        assert b[0] == COMPOSITE_TAG && u[0] != b[0];
      } else {
        if u <= b { EncPrefixFree(fs[0], d); }
        if b <= u { EncPrefixFree(d, fs[0]); }
      }
    }
  }

  // ---- Where a key lies relative to a bound ----

  /** Inside: the bound is a longer tuple that begins with the key's. */
  datatype Side = Before | Inside | At | After

  /** Field by field; a bound of fewer fields than the key counts as met by every
      key that begins with it. */
  function PlaceTuple(fs: seq<Dynamic>, gs: seq<Dynamic>): Side {
    if gs == [] then At
    else if fs == [] then Inside
    else if fs[0] == gs[0] then PlaceTuple(fs[1..], gs[1..])
    else if FieldLess(fs[0], gs[0]) then Before
    else After
  }

  /** A scalar lies below every composite key, a tuple above every other key. */
  function Place(kind: IndexKind, fs: seq<Dynamic>, d: Dynamic): Side {
    if kind.Composite? then (if d.Seq? then PlaceTuple(fs, d.items) else After)
    else if d.Seq? then Before
    else PlaceTuple(fs, [d])
  }

  function BytesPlace(u: Bytes, b: Bytes): Side {
    if b <= u then At else if u <= b then Inside else if Less(u, b) then Before else After
  }

  lemma PlaceAfterPrefix(p: Bytes, u: Bytes, b: Bytes)
    ensures BytesPlace(p + u, p + b) == BytesPlace(u, b)
  {
    LessCommonPrefix(p, u, b);
    assert (p + u)[|p|..] == u && (p + b)[|p|..] == b;
    assert p + b <= p + u <==> b <= u by {
      if p + b <= p + u { assert (p + u)[..|p + b|] == p + b && u[..|b|] == b; }
      if b <= u { assert (p + u)[..|p + b|] == p + b; }
    }
    assert p + u <= p + b <==> u <= b by {
      if p + u <= p + b { assert (p + b)[..|p + u|] == p + u && b[..|u|] == u; }
      if u <= b { assert (p + b)[..|p + u|] == p + u; }
    }
  }

  lemma PlaceDiverging(u: Bytes, x: Bytes, b: Bytes, y: Bytes)
    requires !(u <= b) && !(b <= u)
    ensures BytesPlace(u + x, b + y) == if Less(u, b) then Before else After
  {
    LessDiverging(u, x, b, y);
    if b + y <= u + x { PrefixesComparable(b, y, u, x); }
    if u + x <= b + y { PrefixesComparable(u, x, b, y); }
  }

  /** What the encodings' places are, the values' are. */
  lemma {:induction false} TuplePlaceIsBytesPlace(fs: seq<Dynamic>, gs: seq<Dynamic>)
    requires AllEncodable(fs) && AllEncodable(gs)
    ensures BytesPlace(EncodeFields(fs).value, EncodeFields(gs).value) == PlaceTuple(fs, gs)
    decreases |fs|
  {
    if gs != [] && fs != [] {
      PartsEncodable(fs, 1);
      PartsEncodable(gs, 1);
      var x, y := EncodeFields(fs[1..]).value, EncodeFields(gs[1..]).value;
      if fs[0] == gs[0] {
        TuplePlaceIsBytesPlace(fs[1..], gs[1..]);
        PlaceAfterPrefix(Enc(fs[0]), x, y);
      } else {
        if Enc(fs[0]) <= Enc(gs[0]) { EncPrefixFree(fs[0], gs[0]); }
        if Enc(gs[0]) <= Enc(fs[0]) { EncPrefixFree(gs[0], fs[0]); }
        EncOrder(fs[0], gs[0]);
        PlaceDiverging(Enc(fs[0]), x, Enc(gs[0]), y);
      }
    }
  }

  lemma SingleField(f: Dynamic)
    requires Encodable(f)
    ensures AllEncodable([f]) && EncodeFields([f]).value == Enc(f)
  {
    assert [f][1..] == [];
  }

  lemma PlaceIsBytesPlace(kind: IndexKind, n: nat, fs: seq<Dynamic>, d: Dynamic)
    requires EncodeKey(kind, n, fs).Ok? && EncodeBoundValue(d).Ok?
    ensures BytesPlace(EncodeKey(kind, n, fs).value, EncodeBoundValue(d).value) == Place(kind, fs, d)
  {
    var u, b := EncodeKey(kind, n, fs).value, EncodeBoundValue(d).value;
    if kind.Composite? && d.Seq? {
      TuplePlaceIsBytesPlace(fs, d.items);
      PlaceAfterPrefix([COMPOSITE_TAG], EncodeFields(fs).value, EncodeFields(d.items).value);
    } else if kind.Composite? {
      ScalarTagBelowComposite(d);
      assert u[0] == COMPOSITE_TAG;
    } else {
      assert fs == [fs[0]];
      ScalarTagBelowComposite(fs[0]);
      if d.Seq? {
        assert b[0] == COMPOSITE_TAG;
      } else {
        SingleField(fs[0]);
        SingleField(d);
        TuplePlaceIsBytesPlace(fs, [d]);
      }
    }
  }

  /** A key that continues a bound goes on with a field tag. */
  lemma ContinuesWithTag(kind: IndexKind, n: nat, fs: seq<Dynamic>, d: Dynamic)
    requires EncodeKey(kind, n, fs).Ok? && EncodeBoundValue(d).Ok?
    ensures var u, b := EncodeKey(kind, n, fs).value, EncodeBoundValue(d).value;
            b <= u ==> u == b || u[|b|] < 0xFF
  {
    PlaceIsBytesPlace(kind, n, fs, d);
    var u, b := EncodeKey(kind, n, fs).value, EncodeBoundValue(d).value;
    if kind.Composite? && d.Seq? && PlaceTuple(fs, d.items).At? {
      TagsContinue(fs, d.items);
    }
  }

  lemma {:induction false} TagsContinue(fs: seq<Dynamic>, gs: seq<Dynamic>)
    requires AllEncodable(fs) && AllEncodable(gs) && PlaceTuple(fs, gs) == At
    ensures var u, b := EncodeFields(fs).value, EncodeFields(gs).value;
            |b| <= |u| && (|b| < |u| ==> u[|b|] < 0xFF)
    decreases |fs|
  {
    if gs == [] {
      if fs != [] { ScalarTagBelowComposite(fs[0]); }
    } else {
      PartsEncodable(fs, 1);
      PartsEncodable(gs, 1);
      TagsContinue(fs[1..], gs[1..]);
    }
  }

  // ---- What the widened bounds select ----

  predicate PlacedAbove(side: Side, lo: Bound<Dynamic>) {
    lo.Unbounded? || side.After? || (lo.Included? && side.At?)
  }

  predicate PlacedBelow(side: Side, hi: Bound<Dynamic>) {
    hi.Unbounded? || side.Before? || side.Inside? || (hi.Included? && side.At?)
  }

  /** A key that continues b with less than the widening suffix counts as equal to
      b on either side. */
  lemma ContinuationWithinBounds(b: Bytes, rest: Bytes)
    requires rest != [] && AtMost(rest, SUFFIX_HIGH)
    ensures AboveLower(b + rest, WidenLower(Included(b))) && BelowUpper(b + rest, WidenUpper(Included(b)))
    ensures !AboveLower(b + rest, WidenLower(Excluded(b))) && !BelowUpper(b + rest, WidenUpper(Excluded(b)))
  {
    LessExtension(b, rest);
    LessAsymmetric(b, b + rest);
    LessCommonPrefix(b, rest, SUFFIX_HIGH);
    LessCommonPrefix(b, SUFFIX_HIGH, rest);
    if Less(SUFFIX_HIGH, rest) { LessAsymmetric(SUFFIX_HIGH, rest); LessIrreflexive(rest); }
  }

  /** Against a bound the key does not lie inside of, the tree key is on the key's side. */
  lemma WidenedPlace(u: Bytes, id: Bytes, b: Bytes)
    requires |id| == 8 && (b <= u ==> u == b || u[|b|] < 0xFF) && !BytesPlace(u, b).Inside?
    ensures AboveLower(u + id, WidenLower(Included(b))) <==> !BytesPlace(u, b).Before?
    ensures AboveLower(u + id, WidenLower(Excluded(b))) <==> BytesPlace(u, b).After?
    ensures BelowUpper(u + id, WidenUpper(Included(b))) <==> !BytesPlace(u, b).After?
    ensures BelowUpper(u + id, WidenUpper(Excluded(b))) <==> BytesPlace(u, b).Before?
  {
    AllOnesIsMaximal(id, SUFFIX_HIGH);
    if b <= u {
      var rest := u[|b|..] + id;
      assert u + id == b + rest;
      if u == b { assert rest == id; } else { assert rest[0] == u[|b|]; }
      ContinuationWithinBounds(b, rest);
    } else {
      assert b + [] == b;
      ApartOrder(u, id, b, []);
      ApartOrder(u, id, b, SUFFIX_HIGH);
      LessTotal(u, b);
      if Less(u, b) { LessAsymmetric(u, b); }
    }
  }

  /** A bound that begins with the key goes by the id: it lies above the tree key,
      as a longer tuple should, exactly if the id sorts before what the bound has more. */
  lemma InsideGoesById(u: Bytes, id: Bytes, rest: Bytes)
    requires |id| == 8 && rest != []
    ensures var b := u + rest;
            (&& !AboveLower(u + id, WidenLower(Included(b))) && !AboveLower(u + id, WidenLower(Excluded(b)))
             && BelowUpper(u + id, WidenUpper(Included(b))) && BelowUpper(u + id, WidenUpper(Excluded(b))))
            <==> Less(id, rest)
  {
    var b := u + rest;
    assert b + SUFFIX_HIGH == u + (rest + SUFFIX_HIGH);
    LessCommonPrefix(u, id, rest);
    LessCommonPrefix(u, rest, id);
    LessCommonPrefix(u, id, rest + SUFFIX_HIGH);
    LessCommonPrefix(u, rest + SUFFIX_HIGH, id);
    if Less(id, rest) {
      LessExtension(rest, SUFFIX_HIGH);
      LessTransitive(id, rest, rest + SUFFIX_HIGH);
      LessAsymmetric(id, rest);
      LessAsymmetric(id, rest + SUFFIX_HIGH);
      LessIrreflexive(id);
    }
  }

  /** The bound does not have more fields than the index, or the id sorts before
      those it has more. Ids below 2^56 do, unless the first such field is Null. */
  predicate Separates(n: nat, d: Dynamic, id: Bytes) {
    d.Seq? && |d.items| > n && AllEncodable(d.items) ==> Less(id, EncodeFields(d.items[n..]).value)
  }

  /** A key inside of a bound is the encoding of the bound's first fields. */
  lemma {:induction false} InsideRest(fs: seq<Dynamic>, gs: seq<Dynamic>)
    requires PlaceTuple(fs, gs) == Inside && AllEncodable(fs) && AllEncodable(gs)
    ensures |fs| < |gs| && AllEncodable(gs[|fs|..])
    ensures EncodeFields(gs).value == EncodeFields(fs).value + EncodeFields(gs[|fs|..]).value
    ensures EncodeFields(gs[|fs|..]).value != []
    decreases |fs|
  {
    if fs == [] {
      assert gs[0..] == gs;
    } else {
      PartsEncodable(fs, 1);
      PartsEncodable(gs, 1);
      InsideRest(fs[1..], gs[1..]);
      assert gs[1..][|fs| - 1..] == gs[|fs|..];
    }
  }

  /** The widened forms of bound b place tree key k as the side says. */
  predicate SelectsBySide(k: Bytes, b: Bytes, side: Side) {
    && (AboveLower(k, WidenLower(Included(b))) <==> side.At? || side.After?)
    && (AboveLower(k, WidenLower(Excluded(b))) <==> side.After?)
    && (BelowUpper(k, WidenUpper(Included(b))) <==> !side.After?)
    && (BelowUpper(k, WidenUpper(Excluded(b))) <==> side.Before? || side.Inside?)
  }

  /** A tree key lies relative to the widened forms of a bound given by value as its
      fields lie relative to the value. */
  lemma WidenedByValue(kind: IndexKind, n: nat, fs: seq<Dynamic>, d: Dynamic, id: Bytes)
    requires EncodeKey(kind, n, fs).Ok? && EncodeBoundValue(d).Ok? && IsId(id) && Separates(n, d, id)
    ensures SelectsBySide(EncodeKey(kind, n, fs).value + id, EncodeBoundValue(d).value, Place(kind, fs, d))
  {
    var u, b := EncodeKey(kind, n, fs).value, EncodeBoundValue(d).value;
    PlaceIsBytesPlace(kind, n, fs, d);
    if Place(kind, fs, d).Inside? {
      InsideOfTuple(kind, n, fs, d);
      InsideGoesById(u, id, EncodeFields(d.items[n..]).value);
    } else {
      ContinuesWithTag(kind, n, fs, d);
      WidenedPlace(u, id, b);
    }
  }

  lemma InsideOfTuple(kind: IndexKind, n: nat, fs: seq<Dynamic>, d: Dynamic)
    requires EncodeKey(kind, n, fs).Ok? && EncodeBoundValue(d).Ok? && Place(kind, fs, d).Inside?
    ensures d.Seq? && |d.items| > n && AllEncodable(d.items)
    ensures EncodeFields(d.items[n..]).Ok? && EncodeFields(d.items[n..]).value != []
    ensures EncodeBoundValue(d).value == EncodeKey(kind, n, fs).value + EncodeFields(d.items[n..]).value
  {
    if |fs| == 1 { OneFieldNotInside(fs, d); }
    if kind.Composite? && d.Seq? { InsideRest(fs, d.items); }
  }

  lemma OneFieldNotInside(fs: seq<Dynamic>, d: Dynamic)
    requires |fs| == 1
    ensures PlaceTuple(fs, [d]) != Inside
  {
    assert [d][1..] == [];
  }

  /** The same for the bounds of a Unique index, which are not widened. */
  lemma PlainByValue(n: nat, fs: seq<Dynamic>, d: Dynamic)
    requires EncodeKey(Unique, n, fs).Ok? && EncodeBoundValue(d).Ok?
    ensures var k, b, side := EncodeKey(Unique, n, fs).value, EncodeBoundValue(d).value, Place(Unique, fs, d);
            && (AboveLower(k, Included(b)) <==> PlacedAbove(side, Included(d)))
            && (AboveLower(k, Excluded(b)) <==> PlacedAbove(side, Excluded(d)))
            && (BelowUpper(k, Included(b)) <==> PlacedBelow(side, Included(d)))
            && (BelowUpper(k, Excluded(b)) <==> PlacedBelow(side, Excluded(d)))
  {
    var u, b := EncodeKey(Unique, n, fs).value, EncodeBoundValue(d).value;
    PlaceIsBytesPlace(Unique, n, fs, d);
    LessTotal(u, b);
    LessIrreflexive(u);
    if Less(u, b) { LessAsymmetric(u, b); }
  }

  lemma SmallIdsSeparate(n: nat, d: Dynamic, id: Bytes)
    requires d.Seq? && |d.items| > n && AllEncodable(d.items)
    requires |id| == 8 && id[0] == 0 && !d.items[n].Null?
    ensures Separates(n, d, id)
  {
    PartsEncodable(d.items, n);
    assert d.items[n..][0] == d.items[n];
    assert EncodeFields(d.items[n..]).value[0] == Enc(d.items[n])[0] > 0;
  }

  lemma PartsEncodable(fs: seq<Dynamic>, n: nat)
    requires n <= |fs| && AllEncodable(fs)
    ensures AllEncodable(fs[..n]) && AllEncodable(fs[n..])
  {
    forall f | f in fs[..n] ensures f in fs {}
    forall f | f in fs[n..] ensures f in fs {}
  }
}
