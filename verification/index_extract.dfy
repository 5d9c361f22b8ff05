/** Index declarations and the extraction of a document's index keys. */
module IndexExtract {
  import opened ByteOrder
  import opened Outcomes
  import opened IndexKey

  const MAX_EACH_ENTRIES: nat := 16384

  datatype IndexSpec = IndexSpec(name: string, kind: IndexKind, keyPaths: seq<string>)

  /** A document as index extraction sees it: top-level field name to value. */
  type Doc = map<string, Dynamic>

  predicate ValidSpec(spec: IndexSpec) {
    spec.name != "" && "" !in spec.keyPaths &&
    if spec.kind.Composite? then |spec.keyPaths| >= 2 else |spec.keyPaths| == 1
  }

  /** The values at the given paths. Each path is consumed once, so a path named
      twice is reported missing the second time. */
  function Project(doc: Doc, paths: seq<string>): (r: Result<seq<Dynamic>>)
    ensures r.Ok? ==> |r.value| == |paths|
    ensures r.Err? ==> r.error.FromExtraction()
  {
    if paths == [] then Ok([])
    else if paths[0] !in doc then Err(IndexFieldMissing(paths[0]))
    else
      var rest :- Project(doc - {paths[0]}, paths[1..]);
      Ok([doc[paths[0]]] + rest)
  }

  /** The value tuples a document contributes to an index, one per entry. */
  function Tuples(spec: IndexSpec, doc: Doc): (r: Result<seq<seq<Dynamic>>>)
    ensures r.Ok? && !spec.kind.Each? ==> |r.value| == 1
    ensures r.Err? ==> r.error.FromExtraction()
  {
    if !ValidSpec(spec) then Err(InvalidArgument) else
    var fields :- Project(doc, spec.keyPaths);
    if !spec.kind.Each? then Ok([fields])
    else if !fields[0].Seq? then Err(IndexFieldTypeMismatch(spec.keyPaths[0]))
    else if |fields[0].items| > MAX_EACH_ENTRIES then Err(EachIndexTooLarge)
    else Ok(seq(|fields[0].items|, i requires 0 <= i < |fields[0].items| => [fields[0].items[i]]))
  }

  function EncodeAll(spec: IndexSpec, tuples: seq<seq<Dynamic>>): (r: Result<seq<Bytes>>)
    ensures r.Ok? ==> |r.value| == |tuples|
    ensures r.Err? ==> r.error.FromExtraction()
    ensures r.Ok? ==>
              forall i | 0 <= i < |tuples| :: EncodeKey(spec.kind, |spec.keyPaths|, tuples[i]) == Ok(r.value[i])
  {
    if tuples == [] then Ok([]) else
    var key :- EncodeKey(spec.kind, |spec.keyPaths|, tuples[0]);
    var rest :- EncodeAll(spec, tuples[1..]);
    Ok([key] + rest)
  }

  function ExtractKeys(spec: IndexSpec, doc: Doc): (r: Result<seq<Bytes>>)
    ensures r.Ok? && !spec.kind.Each? ==> |r.value| == 1
    ensures r.Err? ==> r.error.FromExtraction()
  {
    var tuples :- Tuples(spec, doc);
    EncodeAll(spec, tuples)
  }

  /** The keys as a set; empty when extraction fails. */
  function UserKeys(spec: IndexSpec, doc: Doc): (ks: set<Bytes>) {
    var r := ExtractKeys(spec, doc);
    if r.Ok? then set k | k in r.value else {}
  }

  ghost predicate IsKeyOf(spec: IndexSpec, k: Bytes) {
    exists fs :: EncodeKey(spec.kind, |spec.keyPaths|, fs) == Ok(k)
  }

  lemma ExtractedAreKeys(spec: IndexSpec, doc: Doc, k: Bytes)
    requires k in UserKeys(spec, doc)
    ensures IsKeyOf(spec, k)
  {
    var tuples := Tuples(spec, doc).value;
    var keys := ExtractKeys(spec, doc).value;
    var i :| 0 <= i < |keys| && keys[i] == k;
    assert EncodeKey(spec.kind, |spec.keyPaths|, tuples[i]) == Ok(k);
  }

  /** The keys of one index form a prefix-free set. */
  lemma KeysPrefixFree(spec: IndexSpec, j: Bytes, k: Bytes)
    requires IsKeyOf(spec, j) && IsKeyOf(spec, k) && j <= k
    ensures j == k
  {
    var fs :| EncodeKey(spec.kind, |spec.keyPaths|, fs) == Ok(j);
    var gs :| EncodeKey(spec.kind, |spec.keyPaths|, gs) == Ok(k);
    EncodeKeyOrder(spec.kind, |spec.keyPaths|, fs, gs);
  }

  /** A document contributes exactly one key to every index that is not an Each. */
  lemma OneKeyUnlessEach(spec: IndexSpec, doc: Doc)
    requires ExtractKeys(spec, doc).Ok? && !spec.kind.Each?
    ensures UserKeys(spec, doc) == {ExtractKeys(spec, doc).value[0]}
  {}

  // ---- What is extracted, in the document's fields ----

  /** The n-th path names a field of the document that no earlier path has named. */
  predicate Resolves(doc: Doc, paths: seq<string>, n: nat)
    requires n < |paths|
  {
    paths[n] in doc && paths[n] !in paths[..n]
  }

  predicate AllResolve(doc: Doc, paths: seq<string>) {
    forall n: nat | n < |paths| :: Resolves(doc, paths, n)
  }

  lemma ResolvesRest(doc: Doc, paths: seq<string>, n: nat)
    requires n + 1 < |paths|
    ensures Resolves(doc - {paths[0]}, paths[1..], n) <==> Resolves(doc, paths, n + 1)
  {
    assert paths[..n + 1] == [paths[0]] + paths[1..][..n];
  }

  lemma {:induction false} ProjectedFields(doc: Doc, paths: seq<string>)
    requires AllResolve(doc, paths)
    ensures var r := Project(doc, paths);
            r.Ok? && forall n | 0 <= n < |paths| :: paths[n] in doc && r.value[n] == doc[paths[n]]
  {
    if paths != [] {
      assert Resolves(doc, paths, 0);
      forall n: nat | n < |paths[1..]| ensures Resolves(doc - {paths[0]}, paths[1..], n) {
        ResolvesRest(doc, paths, n);
        assert Resolves(doc, paths, n + 1);
      }
      ProjectedFields(doc - {paths[0]}, paths[1..]);
    }
  }

  lemma {:induction false} FirstUnresolved(doc: Doc, paths: seq<string>, n: nat)
    requires n < |paths| && !Resolves(doc, paths, n)
    requires forall m: nat | m < n :: Resolves(doc, paths, m)
    ensures Project(doc, paths) == Err(IndexFieldMissing(paths[n]))
  {
    if n > 0 {
      assert Resolves(doc, paths, 0);
      ResolvesRest(doc, paths, n - 1);
      forall m: nat | m < n - 1 ensures Resolves(doc - {paths[0]}, paths[1..], m) {
        ResolvesRest(doc, paths, m);
        assert Resolves(doc, paths, m + 1);
      }
      FirstUnresolved(doc - {paths[0]}, paths[1..], n - 1);
    }
  }

  /** A field that cannot be read is reported, the first of them by path order. */
  lemma MissingFieldIsReported(spec: IndexSpec, doc: Doc, n: nat)
    requires ValidSpec(spec) && n < |spec.keyPaths| && !Resolves(doc, spec.keyPaths, n)
    requires forall m: nat | m < n :: Resolves(doc, spec.keyPaths, m)
    ensures ExtractKeys(spec, doc) == Err(IndexFieldMissing(spec.keyPaths[n]))
  {
    FirstUnresolved(doc, spec.keyPaths, n);
  }

  lemma OnePathResolves(doc: Doc, paths: seq<string>)
    requires |paths| == 1
    ensures AllResolve(doc, paths) <==> Resolves(doc, paths, 0)
    ensures Resolves(doc, paths, 0) <==> paths[0] in doc
  {}

  lemma {:induction false} EncodeAllScalars(spec: IndexSpec, tuples: seq<seq<Dynamic>>, items: seq<Dynamic>)
    requires !spec.kind.Composite? && |spec.keyPaths| == 1
    requires |tuples| == |items| && forall i | 0 <= i < |items| :: tuples[i] == [items[i]]
    ensures EncodeAll(spec, tuples).Ok? <==> AllEncodable(items)
    ensures EncodeAll(spec, tuples).Err? ==> EncodeAll(spec, tuples).error == InvalidArgument
    ensures EncodeAll(spec, tuples).Ok? ==>
              forall i | 0 <= i < |items| :: EncodeAll(spec, tuples).value[i] == Enc(items[i])
  {
    if items != [] {
      assert forall i | 0 <= i < |items[1..]| :: tuples[1..][i] == tuples[i + 1] && items[1..][i] == items[i + 1];
      EncodeAllScalars(spec, tuples[1..], items[1..]);
      assert forall d :: d in items <==> d == items[0] || d in items[1..];
    }
  }

  /** Standard and Unique: the encoding of the one field. */
  lemma ScalarKey(spec: IndexSpec, doc: Doc)
    requires ValidSpec(spec) && (spec.kind.Standard? || spec.kind.Unique?)
    ensures var p, r := spec.keyPaths[0], ExtractKeys(spec, doc);
            if p !in doc then r == Err(IndexFieldMissing(p))
            else if !Encodable(doc[p]) then r == Err(InvalidArgument)
            else r == Ok([Enc(doc[p])]) && UserKeys(spec, doc) == {Enc(doc[p])}
  {
    var p := spec.keyPaths[0];
    OnePathResolves(doc, spec.keyPaths);
    if p in doc {
      ProjectedFields(doc, spec.keyPaths);
      EncodeAllScalars(spec, [[doc[p]]], [doc[p]]);
      assert Project(doc, spec.keyPaths).value == [doc[p]];
      if Encodable(doc[p]) { assert ExtractKeys(spec, doc).value == [Enc(doc[p])]; }
    } else {
      MissingFieldIsReported(spec, doc, 0);
    }
  }

  /** Each: the encodings of the elements, in their order. */
  lemma EachKeys(spec: IndexSpec, doc: Doc)
    requires ValidSpec(spec) && spec.kind.Each?
    ensures var p, r := spec.keyPaths[0], ExtractKeys(spec, doc);
            if p !in doc then r == Err(IndexFieldMissing(p))
            else if !doc[p].Seq? then r == Err(IndexFieldTypeMismatch(p))
            else if |doc[p].items| > MAX_EACH_ENTRIES then r == Err(EachIndexTooLarge)
            else if !AllEncodable(doc[p].items) then r == Err(InvalidArgument)
            else
              && r.Ok? && |r.value| == |doc[p].items|
              && forall i | 0 <= i < |r.value| :: r.value[i] == Enc(doc[p].items[i])
  {
    var p := spec.keyPaths[0];
    OnePathResolves(doc, spec.keyPaths);
    if p in doc {
      ProjectedFields(doc, spec.keyPaths);
      if doc[p].Seq? && |doc[p].items| <= MAX_EACH_ENTRIES {
        EncodeAllScalars(spec, Tuples(spec, doc).value, doc[p].items);
      }
    } else {
      MissingFieldIsReported(spec, doc, 0);
    }
  }

  /** Under an Each index a document is filed once for every value in its sequence. */
  lemma EachMember(spec: IndexSpec, doc: Doc, u: Bytes)
    requires ValidSpec(spec) && spec.kind.Each?
    ensures var p := spec.keyPaths[0];
            u in UserKeys(spec, doc) <==>
              && p in doc && doc[p].Seq? && |doc[p].items| <= MAX_EACH_ENTRIES && AllEncodable(doc[p].items)
              && exists d | d in doc[p].items :: u == Enc(d)
  {
    EachKeys(spec, doc);
  }

  /** Composite: the envelope tag and the encodings of the fields in path order. */
  lemma CompositeKey(spec: IndexSpec, doc: Doc, fs: seq<Dynamic>)
    requires ValidSpec(spec) && spec.kind.Composite? && AllResolve(doc, spec.keyPaths)
    requires |fs| == |spec.keyPaths|
    requires forall n: nat | n < |fs| :: Resolves(doc, spec.keyPaths, n) && fs[n] == doc[spec.keyPaths[n]]
    ensures ExtractKeys(spec, doc) ==
            if AllEncodable(fs) then Ok([[COMPOSITE_TAG] + EncodeFields(fs).value]) else Err(InvalidArgument)
    ensures AllEncodable(fs) ==> UserKeys(spec, doc) == {[COMPOSITE_TAG] + EncodeFields(fs).value}
  {
    ProjectedFields(doc, spec.keyPaths);
    assert Project(doc, spec.keyPaths).value == fs;
    EncodeFieldsFails(fs);
    assert EncodeAll(spec, [fs]).Ok? ==> EncodeAll(spec, [fs]).value == [EncodeKey(spec.kind, |fs|, fs).value];
  }

  /** The document can be indexed: its fields are there, one for each path, and
      what is to be encoded can be. */
  predicate Yields(spec: IndexSpec, doc: Doc) {
    && ValidSpec(spec) && AllResolve(doc, spec.keyPaths)
    && if spec.kind.Each? then
         assert Resolves(doc, spec.keyPaths, 0);
         var field := doc[spec.keyPaths[0]];
         field.Seq? && |field.items| <= MAX_EACH_ENTRIES && AllEncodable(field.items)
       else forall n: nat | n < |spec.keyPaths| :: Resolves(doc, spec.keyPaths, n) && Encodable(doc[spec.keyPaths[n]])
  }

  lemma YieldsExactly(spec: IndexSpec, doc: Doc)
    ensures ExtractKeys(spec, doc).Ok? <==> Yields(spec, doc)
  {
    if !ValidSpec(spec) {
    } else if n: nat :| n < |spec.keyPaths| && !Resolves(doc, spec.keyPaths, n) {
      UnresolvedFails(spec, doc, n);
    } else if spec.kind.Each? {
      OnePathResolves(doc, spec.keyPaths);
      EachKeys(spec, doc);
    } else if spec.kind.Composite? {
      var paths := spec.keyPaths;
      CompositeKey(spec, doc, seq(|paths|, n requires 0 <= n < |paths| && Resolves(doc, paths, n) => doc[paths[n]]));
    } else {
      OnePathResolves(doc, spec.keyPaths);
      ScalarKey(spec, doc);
    }
  }

  lemma UnresolvedFails(spec: IndexSpec, doc: Doc, n: nat)
    requires ValidSpec(spec) && n < |spec.keyPaths| && !Resolves(doc, spec.keyPaths, n)
    ensures ExtractKeys(spec, doc).Err?
    decreases n
  {
    if m: nat :| m < n && !Resolves(doc, spec.keyPaths, m) {
      UnresolvedFails(spec, doc, m);
    } else {
      MissingFieldIsReported(spec, doc, n);
    }
  }

  /** t is one of the values the document is indexed under: for an Each index an
      element of its sequence, otherwise its fields in path order. */
  predicate IndexedValue(spec: IndexSpec, doc: Doc, t: seq<Dynamic>) {
    && |t| == |spec.keyPaths| && AllResolve(doc, spec.keyPaths)
    && forall n: nat | n < |t| :: Resolves(doc, spec.keyPaths, n) && Holds(spec.kind, doc[spec.keyPaths[n]], t[n])
  }

  predicate Holds(kind: IndexKind, field: Dynamic, d: Dynamic) {
    if kind.Each? then field.Seq? && d in field.items else d == field
  }

  lemma TuplesAreValues(spec: IndexSpec, doc: Doc, t: seq<Dynamic>)
    requires ExtractKeys(spec, doc).Ok?
    ensures t in Tuples(spec, doc).value <==> IndexedValue(spec, doc, t)
  {
    YieldsExactly(spec, doc);
    ProjectedFields(doc, spec.keyPaths);
    var tuples := Tuples(spec, doc).value;
    if spec.kind.Each? {
      OnePathResolves(doc, spec.keyPaths);
      var items := doc[spec.keyPaths[0]].items;
      if i :| 0 <= i < |tuples| && tuples[i] == t { assert t == [items[i]]; }
      if IndexedValue(spec, doc, t) {
        var i :| 0 <= i < |items| && items[i] == t[0];
        assert tuples[i] == [items[i]] == t;
      }
    } else {
      var fields := Project(doc, spec.keyPaths).value;
      assert tuples == [fields];
      if IndexedValue(spec, doc, t) { assert t == fields; }
      if t == fields {
        forall n: nat | n < |t|
          ensures Resolves(doc, spec.keyPaths, n) && Holds(spec.kind, doc[spec.keyPaths[n]], t[n])
        {}
      }
    }
  }
}
