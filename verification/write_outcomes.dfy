/** When a write succeeds, and with which error it fails otherwise, in terms of the
    documents' fields. */
module WriteOutcomes {
  import opened ByteOrder
  import opened Outcomes
  import opened IndexKey
  import opened IndexExtract
  import opened IndexMaint
  import opened Collection
  import opened Agreement
  import opened Steps
  import IndexCatalog

  /** The field a Unique index reads. */
  function UniqueField(spec: IndexSpec, doc: Doc): Dynamic
    requires Yields(spec, doc) && spec.kind.Unique?
  {
    assert Resolves(doc, spec.keyPaths, 0);
    doc[spec.keyPaths[0]]
  }

  /** The old version has another value there, or there is no old version. */
  predicate FieldMoves(spec: IndexSpec, prior: Option<Doc>, doc: Doc)
    requires Yields(spec, doc) && spec.kind.Unique?
    requires prior.Some? ==> Yields(spec, prior.value)
  {
    prior.None? || UniqueField(spec, prior.value) != UniqueField(spec, doc)
  }

  /** What a sound index has against replacing prior by next under id. */
  function Objection(ix: IndexDescriptor, prior: Option<Doc>, next: Option<Doc>, id: Bytes): (e: Option<Error>) {
    if prior.Some? && !Yields(ix.spec, prior.value) then Some(ExtractionError(ix.spec, prior.value))
    else if next.None? then None
    else if !Yields(ix.spec, next.value) then Some(ExtractionError(ix.spec, next.value))
    else if !ix.spec.kind.Unique? || !FieldMoves(ix.spec, prior, next.value) then None
    else
      var k := Enc(UniqueField(ix.spec, next.value));
      if k in ix.tree && ix.tree[k] != id then Some(UniqueConstraintViolation(ix.spec.name, k)) else None
  }

  function ExtractionError(spec: IndexSpec, doc: Doc): Error
    requires !Yields(spec, doc)
  {
    YieldsExactly(spec, doc);
    ExtractKeys(spec, doc).error
  }

  lemma UniqueFieldKey(spec: IndexSpec, doc: Doc)
    requires Yields(spec, doc) && spec.kind.Unique?
    ensures Encodable(UniqueField(spec, doc)) && ExtractKeys(spec, doc) == Ok([Enc(UniqueField(spec, doc))])
    ensures UserKeys(spec, doc) == {Enc(UniqueField(spec, doc))}
  {
    YieldsExactly(spec, doc);
    ScalarKey(spec, doc);
  }

  /** One sound index: it accepts the write unless it has an objection. */
  lemma MaintainedUnlessObjecting(ix: IndexDescriptor, primary: map<Bytes, Doc>, id: Bytes, next: Option<Doc>)
    requires Keyed(primary) && IsId(id) && Sound(ix, primary) && ValidSpec(ix.spec)
    ensures var r, e := MaintainOne(ix, Lookup(primary, id), next, id), Objection(ix, Lookup(primary, id), next, id);
            if e.Some? then r == Err(e.value) else r.Ok?
  {
    var prior := Lookup(primary, id);
    NeverKeyExists(ix, primary, id, next);
    if prior.Some? { YieldsExactly(ix.spec, prior.value); }
    if next.Some? { YieldsExactly(ix.spec, next.value); }
    if ix.spec.kind.Unique? && KeysOfOpt(ix.spec, prior).Ok? && next.Some? && Yields(ix.spec, next.value) {
      MovesByKey(ix.spec, prior, next.value);
      UniqueFieldKey(ix.spec, next.value);
    }
  }

  lemma MovesByKey(spec: IndexSpec, prior: Option<Doc>, doc: Doc)
    requires spec.kind.Unique? && Yields(spec, doc) && (prior.Some? ==> Yields(spec, prior.value))
    ensures KeysOfOpt(spec, prior).Ok? && KeysOfOpt(spec, Some(doc)).Ok?
    ensures FieldMoves(spec, prior, doc) <==>
              First(KeysOfOpt(spec, prior).value) != First(KeysOfOpt(spec, Some(doc)).value)
  {
    UniqueFieldKey(spec, doc);
    if prior.Some? {
      UniqueFieldKey(spec, prior.value);
      EncInjective(UniqueField(spec, prior.value), UniqueField(spec, doc));
    }
  }

  lemma EncInjective(a: Dynamic, b: Dynamic)
    requires Encodable(a) && Encodable(b)
    ensures Enc(a) == Enc(b) <==> a == b
  {
    if Enc(a) == Enc(b) { EncPrefixFree(a, b); }
  }

  /** Active index i has an objection to the write. */
  predicate Objects(s: State, id: Bytes, next: Option<Doc>, i: nat) {
    && i < |s.indexes| && s.indexes[i].status.Active?
    && Objection(s.indexes[i], Lookup(s.primary, id), next, id).Some?
  }

  /** A write succeeds exactly when no Active index objects, and otherwise reports the
      first objection in roster order. Dropped indexes have no say and are left alone. */
  lemma WriteSucceedsExactly(s: State, id: Bytes, next: Option<Doc>)
    requires IsId(id) && Good(s)
    ensures Write(s, id, next).1.Ok? <==> forall i: nat :: !Objects(s, id, next, i)
    ensures forall i: nat | Objects(s, id, next, i) && (forall j: nat | j < i :: !Objects(s, id, next, j)) ::
              Write(s, id, next).1 == Err(Objection(s.indexes[i], Lookup(s.primary, id), next, id).value)
    ensures forall i: nat | i < |s.indexes| && s.indexes[i].status.DroppedPending? ::
              i < |Write(s, id, next).0.indexes| && Write(s, id, next).0.indexes[i] == s.indexes[i]
  {
    var prior := Lookup(s.primary, id);
    var n := FirstFailure(s.indexes, 0, prior, next, id);
    forall i: nat | i < |s.indexes|
      ensures After(s.indexes[i], prior, next, id).Err? <==> Objects(s, id, next, i)
      ensures Objects(s, id, next, i) ==>
                After(s.indexes[i], prior, next, id) == Err(Objection(s.indexes[i], prior, next, id).value)
    {
      if s.indexes[i].status.Active? {
        MaintainedUnlessObjecting(s.indexes[i], s.primary, id, next);
      }
    }
  }

  // ---- Where every Active index is exact ----

  /** Another document has the same value in the field. */
  ghost predicate ValueTaken(spec: IndexSpec, primary: map<Bytes, Doc>, id: Bytes, doc: Doc)
    requires Yields(spec, doc) && spec.kind.Unique?
  {
    exists other | other in primary :: other != id && SameField(spec, primary[other], doc)
  }

  predicate SameField(spec: IndexSpec, a: Doc, b: Doc)
    requires Yields(spec, b) && spec.kind.Unique?
  {
    Yields(spec, a) && UniqueField(spec, a) == UniqueField(spec, b)
  }

  /** The document can be indexed and, in a Unique index, no other has its value. */
  ghost predicate Fits(spec: IndexSpec, primary: map<Bytes, Doc>, id: Bytes, doc: Doc) {
    Yields(spec, doc) && (spec.kind.Unique? ==> !ValueTaken(spec, primary, id, doc))
  }

  /** The document fits every Active index. */
  ghost predicate FitsAll(s: State, id: Bytes, doc: Doc) {
    forall i | 0 <= i < |s.indexes| && s.indexes[i].status.Active? :: Fits(s.indexes[i].spec, s.primary, id, doc)
  }

  lemma TakenByValue(spec: IndexSpec, primary: map<Bytes, Doc>, id: Bytes, doc: Doc)
    requires Yields(spec, doc) && spec.kind.Unique?
    ensures ValueTaken(spec, primary, id, doc) <==> Taken(spec, primary, id, Enc(UniqueField(spec, doc)))
  {
    var k := Enc(UniqueField(spec, doc));
    UniqueFieldKey(spec, doc);
    if other :| other in primary && other != id && k in UserKeys(spec, primary[other]) {
      YieldsExactly(spec, primary[other]);
      UniqueFieldKey(spec, primary[other]);
      EncInjective(UniqueField(spec, primary[other]), UniqueField(spec, doc));
      assert ValueTaken(spec, primary, id, doc);
    }
    if other :| other in primary && other != id && SameField(spec, primary[other], doc) {
      UniqueFieldKey(spec, primary[other]);
      assert k in UserKeys(spec, primary[other]);
    }
  }

  /** In an exact Unique index a value is filed under another id when another document
      has it; the document's own value is filed under its own. */
  lemma FiledElsewhere(ix: IndexDescriptor, primary: map<Bytes, Doc>, id: Bytes, doc: Doc)
    requires Keyed(primary) && IsId(id) && Exact(ix, primary) && ix.spec.kind.Unique? && Yields(ix.spec, doc)
    requires id in primary ==> Yields(ix.spec, primary[id])
    ensures var k := Enc(UniqueField(ix.spec, doc));
            && (k in ix.tree && ix.tree[k] != id <==> ValueTaken(ix.spec, primary, id, doc))
            && (id in primary && !FieldMoves(ix.spec, Some(primary[id]), doc) ==> Has(ix.tree, k, id))
  {
    var k := Enc(UniqueField(ix.spec, doc));
    TakenByValue(ix.spec, primary, id, doc);
    TakenIsFiled(ix, primary, id, k);
    if id in primary && !FieldMoves(ix.spec, Some(primary[id]), doc) {
      UniqueFieldKey(ix.spec, primary[id]);
      assert Demands(ix.spec, primary, k, id);
    }
  }

  /** An exact index objects to a document exactly when it does not fit, and to a
      deletion never. */
  lemma ObjectsUnlessFitting(ix: IndexDescriptor, primary: map<Bytes, Doc>, id: Bytes, doc: Doc)
    requires Keyed(primary) && IsId(id) && Exact(ix, primary)
    ensures Objection(ix, Lookup(primary, id), Some(doc), id) ==
            if !Yields(ix.spec, doc) then Some(ExtractionError(ix.spec, doc))
            else if Fits(ix.spec, primary, id, doc) then None
            else Some(UniqueConstraintViolation(ix.spec.name, Enc(UniqueField(ix.spec, doc))))
    ensures Objection(ix, Lookup(primary, id), None, id) == None
  {
    if id in primary { YieldsExactly(ix.spec, primary[id]); }
    if Yields(ix.spec, doc) && ix.spec.kind.Unique? { FiledElsewhere(ix, primary, id, doc); }
  }

  lemma FitsOrObjects(s: State, id: Bytes, doc: Doc)
    requires IsId(id) && Good(s) && AllExact(s)
    ensures FitsAll(s, id, doc) <==> Write(s, id, Some(doc)).1.Ok?
    ensures Write(s, id, None).1.Ok?
  {
    WriteSucceedsExactly(s, id, Some(doc));
    WriteSucceedsExactly(s, id, None);
    forall i: nat | i < |s.indexes| && s.indexes[i].status.Active?
      ensures Objects(s, id, Some(doc), i) <==> !Fits(s.indexes[i].spec, s.primary, id, doc)
      ensures !Objects(s, id, None, i)
    {
      assert ExactAt(s, i);
      ObjectsUnlessFitting(s.indexes[i], s.primary, id, doc);
    }
  }

  /** When the calls succeed, from a state whose Active indexes are exact: an insert when
      its id is free and the document fits, an update when there is a document and the
      new one fits, an upsert when the document fits, a delete always. */
  lemma CallsSucceedExactly(s: State, id: Id, doc: Doc, f: Doc -> Doc)
    requires Good(s) && AllExact(s)
    ensures Insert(s, doc).1.Ok? <==>
              s.nextId != 0 && Be64(s.nextId) !in s.primary && FitsAll(s, Be64(s.nextId), doc)
    ensures Update(s, id, f).1.Ok? <==> id in s.primary && FitsAll(s, id, f(s.primary[id]))
    ensures Upsert(s, id, doc).1.Ok? <==> FitsAll(s, id, doc)
    ensures Delete(s, id).1 == Ok(id in s.primary)
  {
    FitsOrObjects(s, id, doc);
    if id in s.primary { FitsOrObjects(s, id, f(s.primary[id])); }
    if s.nextId != 0 {
      BeIsId(s.nextId);
      var s1 := s.(nextId := Bump(s.nextId));
      forall i | 0 <= i < |s.indexes| && s.indexes[i].status.Active? ensures ExactAt(s1, i) { assert ExactAt(s, i); }
      FitsOrObjects(s1, Be64(s.nextId), doc);
      assert FitsAll(s1, Be64(s.nextId), doc) <==> FitsAll(s, Be64(s.nextId), doc);
    }
  }

  /** A document that does not fit is refused, by whichever call, for the first index it
      does not fit: for what cannot be read or encoded, or for the value another has. */
  lemma FirstMisfitReports(s: State, id: Id, doc: Doc, i: nat, f: Doc -> Doc)
    requires Good(s) && AllExact(s) && i < |s.indexes| && s.indexes[i].status.Active?
    requires !Fits(s.indexes[i].spec, s.primary, id, doc)
    requires forall j | 0 <= j < i && s.indexes[j].status.Active? :: Fits(s.indexes[j].spec, s.primary, id, doc)
    ensures var spec := s.indexes[i].spec;
            var e := if Yields(spec, doc) then UniqueConstraintViolation(spec.name, Enc(UniqueField(spec, doc)))
                     else ExtractionError(spec, doc);
            && Upsert(s, id, doc).1 == Err(e)
            && (id in s.primary && f(s.primary[id]) == doc ==> Update(s, id, f).1 == Err(e))
            && (id !in s.primary && s.nextId != 0 && id == Be64(s.nextId) ==> Insert(s, doc).1 == Err(e))
  {
    WriteSucceedsExactly(s, id, Some(doc));
    forall j: nat | j <= i && s.indexes[j].status.Active?
      ensures Objects(s, id, Some(doc), j) <==> !Fits(s.indexes[j].spec, s.primary, id, doc)
    {
      assert ExactAt(s, j);
      ObjectsUnlessFitting(s.indexes[j], s.primary, id, doc);
    }
    assert ExactAt(s, i);
    ObjectsUnlessFitting(s.indexes[i], s.primary, id, doc);
    assert Objects(s, id, Some(doc), i);
  }
}
