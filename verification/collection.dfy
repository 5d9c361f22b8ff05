/** A collection under writes: primary tree, id watermark and every index, as one
    transaction's cached descriptor holds them. */
module Collection {
  import opened ByteOrder
  import opened Outcomes
  import opened OrderedMap
  import opened IndexKey
  import opened IndexExtract
  import opened IndexMaint

  /** The primary tree maps ids to documents. nextId is the watermark; 0 marks an
      exhausted id space. */
  datatype State = State(nextId: uint64, primary: map<Bytes, Doc>, indexes: seq<IndexDescriptor>)

  function Lookup(primary: map<Bytes, Doc>, id: Bytes): Option<Doc> {
    if id in primary then Some(primary[id]) else None
  }

  /** The primary map with the document at id set or removed. */
  function Put(primary: map<Bytes, Doc>, id: Bytes, doc: Option<Doc>): map<Bytes, Doc> {
    if doc.Some? then primary[id := doc.value] else primary - {id}
  }

  function Bump(next: uint64): uint64 {
    if next + 1 == TWO64 then 0 else next + 1
  }

  // ---- One call: new state and outcome ----

  function Write(s: State, id: Bytes, next: Option<Doc>): (r: (State, Result<()>)) {
    var ixs := MaintainAll(s.indexes, Lookup(s.primary, id), next, id);
    (s.(primary := Put(s.primary, id, next), indexes := ixs.0), ixs.1)
  }

  function Insert(s: State, doc: Doc): (r: (State, Result<Bytes>)) {
    if s.nextId == 0 then (s, Err(IdSpaceExhausted)) else
    var id := Be64(s.nextId);
    var s1 := s.(nextId := Bump(s.nextId));
    if id in s.primary then (s1, Err(BTreeKeyExists)) else
    var w := Write(s1, id, Some(doc));
    (w.0, if w.1.Ok? then Ok(id) else Err(w.1.error))
  }

  function Update(s: State, id: Bytes, f: Doc -> Doc): (r: (State, Result<()>)) {
    if id !in s.primary then (s, Err(DocumentNotFound)) else
    Write(s, id, Some(f(s.primary[id])))
  }

  function Delete(s: State, id: Bytes): (r: (State, Result<bool>)) {
    var w := Write(s, id, None);
    (w.0, if w.1.Ok? then Ok(id in s.primary) else Err(w.1.error))
  }

  function Upsert(s: State, id: Bytes, doc: Doc): (r: (State, Result<()>)) {
    Write(s, id, Some(doc))
  }

  // ---- The write handle ----

  class Handle {
    var nextId: uint64
    var primary: map<Bytes, Doc>
    var indexes: seq<IndexDescriptor>

    ghost function View(): State
      reads this
    {
      State(nextId, primary, indexes)
    }

    constructor (s: State)
      ensures View() == s
    {
      nextId, primary, indexes := s.nextId, s.primary, s.indexes;
    }

    method MaintainOneIndex(idx: nat, prior: Option<Doc>, next: Option<Doc>, id: Bytes) returns (r: Result<()>)
      requires idx < |indexes|
      modifies this`indexes
      ensures r.Ok? <==> MaintainOne(old(indexes)[idx], prior, next, id).Ok?
      ensures r.Ok? ==> indexes == old(indexes)[idx := MaintainOne(old(indexes)[idx], prior, next, id).value]
      ensures r.Err? ==> indexes == old(indexes) && Err(r.error) == MaintainOne(old(indexes)[idx], prior, next, id)
    {
      var ix := indexes[idx];
      if !ValidSpec(ix.spec) {
        return Err(InvalidArgument);
      }
      var oldKeys :- KeysOfOpt(ix.spec, prior);
      var newKeys :- KeysOfOpt(ix.spec, next);
      var moved :- MaintainIndexFromKeys(ix, oldKeys, newKeys, id);
      indexes := indexes[idx := moved];
      return Ok(());
    }

    method ApplyDocChange(prior: Option<Doc>, next: Option<Doc>, id: Bytes) returns (r: Result<()>)
      modifies this`indexes
      ensures (indexes, r) == MaintainAll(old(indexes), prior, next, id)
    {
      ghost var was := indexes;
      for idx := 0 to |indexes|
        invariant |indexes| == |was|
        invariant forall i | 0 <= i < idx :: After(was[i], prior, next, id) == Ok(indexes[i])
        invariant forall i | idx <= i < |was| :: indexes[i] == was[i]
      {
        if indexes[idx].status.Active? {
          var step := MaintainOneIndex(idx, prior, next, id);
          if step.Err? {
            assert After(was[idx], prior, next, id) == Err(step.error);
            assert FirstFailure(was, 0, prior, next, id) == idx;
            assert indexes == MaintainAll(was, prior, next, id).0;
            return step;
          }
        }
      }
      assert FirstFailure(was, 0, prior, next, id) == |was|;
      assert indexes == MaintainAll(was, prior, next, id).0;
      return Ok(());
    }

    /** Allocates an id, files the document and maintains the indexes. Whatever
        was staged before an error stays staged. */
    method DoInsert(doc: Doc) returns (r: Result<Bytes>)
      modifies this
      ensures (View(), r) == Insert(old(View()), doc)
    {
      if nextId == 0 {
        return Err(IdSpaceExhausted);
      }
      var id := Be64(nextId);
      nextId := Bump(nextId);
      var tree := new BTree<Doc>(primary);
      var _ :- tree.Insert(id, doc);
      primary := tree.entries;
      var _ :- ApplyDocChange(None, Some(doc), id);
      return Ok(id);
    }

    method DoUpdate(id: Bytes, f: Doc -> Doc) returns (r: Result<()>)
      modifies this
      ensures (View(), r) == Update(old(View()), id, f)
    {
      var tree := new BTree<Doc>(primary);
      var existing := tree.Get(id);
      if existing.None? {
        return Err(DocumentNotFound);
      }
      var prior := existing.value;
      var next := f(prior);
      var _ := tree.Delete(id);
      var refiled := tree.Insert(id, next);
      assert refiled.Ok?;
      primary := tree.entries;
      assert primary == old(primary)[id := next];
      r := ApplyDocChange(Some(prior), Some(next), id);
    }

    method DoDelete(id: Bytes) returns (r: Result<bool>)
      modifies this
      ensures (View(), r) == Delete(old(View()), id)
    {
      var tree := new BTree<Doc>(primary);
      var prior := tree.Get(id);
      var removed := tree.Delete(id);
      primary := tree.entries;
      var _ :- ApplyDocChange(prior, None, id);
      return Ok(removed);
    }

    method DoUpsert(id: Bytes, doc: Doc) returns (r: Result<()>)
      modifies this
      ensures (View(), r) == Upsert(old(View()), id, doc)
    {
      var tree := new BTree<Doc>(primary);
      var prior := tree.Get(id);
      var _ := tree.Delete(id);
      var refiled := tree.Insert(id, doc);
      assert refiled.Ok?;
      primary := tree.entries;
      assert primary == old(primary)[id := doc];
      r := ApplyDocChange(prior, Some(doc), id);
    }
  }
}
