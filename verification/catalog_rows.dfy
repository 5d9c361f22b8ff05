/** The catalog tree as one key space: the watermark row, schema rows and
    collection rows, and the ids handed out from them. */
module CatalogRows {
  import opened ByteOrder
  import opened Outcomes
  import opened OrderedMap
  import opened IndexKey
  import opened IndexMaint
  import Collection

  type uint32 = x: nat | x < 0x1_0000_0000

  const MAX_COLLECTIONS: nat := 0x10_0000
  const MAX_COLLECTION_NAME_LEN: nat := 255
  const RESERVED_NEXT_ID_KEY: Bytes := []
  const SYSTEM_ROW_SENTINEL: Byte := 0
  const SCHEMA_ROW_SUBTYPE: Byte := 1

  /** `rest` stands for the fields the catalog does not look at. */
  datatype Descriptor = Descriptor(collectionId: uint32, nextId: uint64, rest: int)

  datatype Row = WatermarkRow(next: uint32) | SchemaRow(format: nat, shape: int) | CollectionRow(desc: Descriptor)

  type Rows = map<Bytes, Row>

  // ---- Keys ----

  /** A NUL or other control character in the UTF-8 bytes of a name: U+0000 to
      U+001F and U+007F are one byte, U+0080 to U+009F the byte C2 and that one. */
  predicate ControlAt(name: Bytes, i: nat)
    requires i < |name|
  {
    name[i] < 0x20 || name[i] == 0x7F || (name[i] == 0xC2 && i + 1 < |name| && 0x80 <= name[i + 1] <= 0x9F)
  }

  predicate ValidName(name: Bytes) {
    0 < |name| <= MAX_COLLECTION_NAME_LEN && forall i | 0 <= i < |name| :: !ControlAt(name, i)
  }

  function Be32(n: uint32): (b: Bytes)
    ensures |b| == 4
  {
    WordBounds();
    ToBe(n, 4)
  }

  function SchemaKey(collection: uint32, version: uint32): (k: Bytes)
    ensures |k| == 10
  {
    [SYSTEM_ROW_SENTINEL, SCHEMA_ROW_SUBTYPE] + (Be32(collection) + Be32(version))
  }

  predicate IsSchemaKey(k: Bytes) {
    |k| == 10 && k[0] == SYSTEM_ROW_SENTINEL && k[1] == SCHEMA_ROW_SUBTYPE
  }

  lemma Be32Order(n: uint32, m: uint32)
    ensures Less(Be32(n), Be32(m)) <==> n < m
    ensures Be32(n) == Be32(m) <==> n == m
  {
    WordBounds();
    ToBeOrder(n, m, 4);
    FromBeOfToBe(n, 4);
    FromBeOfToBe(m, 4);
  }

  /** Schema keys sort by collection, then version, and differ as those do. */
  lemma SchemaKeyOrder(c: uint32, v: uint32, d: uint32, w: uint32)
    ensures Less(SchemaKey(c, v), SchemaKey(d, w)) <==> c < d || (c == d && v < w)
    ensures SchemaKey(c, v) == SchemaKey(d, w) <==> c == d && v == w
  {
    LessCommonPrefix([SYSTEM_ROW_SENTINEL, SCHEMA_ROW_SUBTYPE], Be32(c) + Be32(v), Be32(d) + Be32(w));
    Be32Order(c, d);
    Be32Order(v, w);
    if c == d {
      LessCommonPrefix(Be32(c), Be32(v), Be32(w));
    } else {
      LessDiverging(Be32(c), Be32(v), Be32(d), Be32(w));
    }
    if SchemaKey(c, v) == SchemaKey(d, w) {
      assert SchemaKey(c, v)[2..6] == Be32(c) && SchemaKey(d, w)[2..6] == Be32(d);
      assert SchemaKey(c, v)[6..] == Be32(v) && SchemaKey(d, w)[6..] == Be32(w);
    }
  }

  /** No key belongs to two classes, and the classes sort watermark, schemas, names. */
  lemma KeyClassesDisjoint(c: uint32, v: uint32, name: Bytes)
    requires ValidName(name)
    ensures RESERVED_NEXT_ID_KEY != SchemaKey(c, v) && SchemaKey(c, v) != name && name != RESERVED_NEXT_ID_KEY
    ensures Less(RESERVED_NEXT_ID_KEY, SchemaKey(c, v)) && Less(SchemaKey(c, v), name)
  {
    assert !ControlAt(name, 0);
    assert SchemaKey(c, v)[0] == SYSTEM_ROW_SENTINEL;
  }

  // ---- Ids ----

  /** Document ids in bytes and back. */
  function IdFromBytes(b: Bytes): (id: Option<uint64>) {
    if IsId(b) then WordBounds(); Some(FromBe(b)) else None
  }

  lemma IdBytesRoundTrip(id: uint64, b: Bytes)
    ensures id != 0 ==> IdFromBytes(Be64(id)) == Some(id)
    ensures id == 0 ==> IdFromBytes(Be64(id)) == None
    ensures IdFromBytes(b).Some? ==> IdFromBytes(b).value != 0 && Be64(IdFromBytes(b).value) == b
  {
    WordBounds();
    FromBeOfToBe(id, 8);
    ToBeOfFromBe(b);
    ToBeOfFromBe(NO_ID);
    ZerosSpellZero(NO_ID);
  }

  lemma {:induction false} ZerosSpellZero(b: Bytes)
    requires forall i | 0 <= i < |b| :: b[i] == 0
    ensures FromBe(b) == 0
  {
    if b != [] {
      ZerosSpellZero(b[..|b| - 1]);
    }
  }

  // ---- Operations ----

  datatype State = State(rows: Rows, nextCollectionId: uint32)

  function InitFresh(): State {
    State(map[RESERVED_NEXT_ID_KEY := WatermarkRow(1)], 1)
  }

  /** The row read as a collection descriptor; other rows do not decode as one. */
  function DescriptorAt(rows: Rows, name: Bytes): (r: Result<Option<Descriptor>>) {
    if name !in rows then Ok(None)
    else if rows[name].CollectionRow? then Ok(Some(rows[name].desc))
    else Err(Corruption)
  }

  function Insert(s: State, name: Bytes, desc: Descriptor): (r: (State, Result<uint32>)) {
    if !ValidName(name) then (s, Err(InvalidArgument))
    else if name in s.rows then (s, Err(CollectionAlreadyExists))
    else if s.nextCollectionId + 1 == TWO32 then (s, Err(IdSpaceExhausted))
    else
      var next: uint32 := s.nextCollectionId + 1;
      var rows := s.rows[name := CollectionRow(desc.(collectionId := s.nextCollectionId))];
      (State(rows[RESERVED_NEXT_ID_KEY := WatermarkRow(next)], next), Ok(s.nextCollectionId))
  }

  function Update(s: State, name: Bytes, desc: Descriptor): (r: (State, Result<()>)) {
    if !ValidName(name) then (s, Err(InvalidArgument)) else
    var existing := DescriptorAt(s.rows, name);
    if existing.Err? then (s, Err(existing.error))
    else if existing.value.None? then (s, Err(InvalidArgument))
    else if existing.value.value.collectionId != desc.collectionId then (s, Err(Corruption))
    else (s.(rows := s.rows[name := CollectionRow(desc)]), Ok(()))
  }

  const STORED_SCHEMA_FORMAT_V1: nat := 1

  /** `live` is the schema's normalised shape, or None where it nests too deep. */
  function PutSchema(s: State, collection: uint32, version: uint32, live: Option<int>): (r: (State, Result<()>)) {
    var key := SchemaKey(collection, version);
    if live.None? then (s, Err(SchemaDepthExceeded))
    else if key !in s.rows then
      (s.(rows := s.rows[key := SchemaRow(STORED_SCHEMA_FORMAT_V1, live.value)]), Ok(()))
    else if !s.rows[key].SchemaRow? then (s, Err(Corruption))
    else if s.rows[key].format != STORED_SCHEMA_FORMAT_V1 then (s, Err(UnsupportedSchemaFormat))
    else if s.rows[key].shape != live.value then (s, Err(SchemaShapeChanged))
    else (s, Ok(()))
  }

  function NextId(s: State, name: Bytes): (r: (State, Result<uint64>)) {
    if !ValidName(name) then (s, Err(InvalidArgument)) else
    var existing := DescriptorAt(s.rows, name);
    if existing.Err? then (s, Err(existing.error))
    else if existing.value.None? then (s, Err(InvalidArgument))
    else
      var desc := existing.value.value;
      if desc.nextId == 0 then (s, Err(IdSpaceExhausted))
      else (s.(rows := s.rows[name := CollectionRow(desc.(nextId := Collection.Bump(desc.nextId)))]), Ok(desc.nextId))
  }

  // ---- Invariant ----

  /** Each key class holds rows of its own kind. */
  predicate RowFits(k: Bytes, row: Row) {
    match row
    case WatermarkRow(_) => k == RESERVED_NEXT_ID_KEY
    case SchemaRow(_, _) => IsSchemaKey(k)
    case CollectionRow(_) => ValidName(k)
  }

  predicate RowsFit(rows: Rows) {
    forall k | k in rows :: RowFits(k, rows[k])
  }

  predicate IsCollection(rows: Rows, k: Bytes) {
    k in rows && rows[k].CollectionRow?
  }

  ghost predicate IdsDistinct(rows: Rows) {
    forall j, k | IsCollection(rows, j) && IsCollection(rows, k) &&
        j != k :: rows[j].desc.collectionId != rows[k].desc.collectionId
  }

  ghost predicate IdsBelow(rows: Rows, next: uint32) {
    forall k | IsCollection(rows, k) :: 0 < rows[k].desc.collectionId < next
  }

  ghost predicate WellFormed(s: State) {
    && RESERVED_NEXT_ID_KEY in s.rows && s.rows[RESERVED_NEXT_ID_KEY] == WatermarkRow(s.nextCollectionId)
    && s.nextCollectionId > 0
    && RowsFit(s.rows) && IdsDistinct(s.rows) && IdsBelow(s.rows, s.nextCollectionId)
  }

  /** What no operation takes back: a schema row never changes, a collection keeps
      its name and id, the watermark does not fall. */
  predicate SchemasKept(a: Rows, b: Rows) {
    forall k | k in a && a[k].SchemaRow? :: k in b && b[k] == a[k]
  }

  ghost predicate CollectionsKept(a: Rows, b: Rows) {
    forall k | IsCollection(a, k) :: IsCollection(b, k) && b[k].desc.collectionId == a[k].desc.collectionId
  }

  ghost predicate Later(a: State, b: State) {
    SchemasKept(a.rows, b.rows) && CollectionsKept(a.rows, b.rows) && a.nextCollectionId <= b.nextCollectionId
  }

  datatype Op =
    | InsertOp(name: Bytes, desc: Descriptor)
    | UpdateOp(name: Bytes, desc: Descriptor)
    | PutSchemaOp(collection: uint32, version: uint32, live: Option<int>)
    | NextIdOp(name: Bytes)

  function Step(s: State, op: Op): State {
    match op
    case InsertOp(name, desc) => Insert(s, name, desc).0
    case UpdateOp(name, desc) => Update(s, name, desc).0
    case PutSchemaOp(c, v, live) => PutSchema(s, c, v, live).0
    case NextIdOp(name) => NextId(s, name).0
  }

  function Run(s: State, ops: seq<Op>): State
    decreases |ops|
  {
    if ops == [] then s else Run(Step(s, ops[0]), ops[1..])
  }

  /** Writing a collection row that keeps its id, if the name was there. */
  lemma RewriteKeeps(s: State, name: Bytes, desc: Descriptor)
    requires WellFormed(s) && IsCollection(s.rows, name) && s.rows[name].desc.collectionId == desc.collectionId
    ensures var t := s.(rows := s.rows[name := CollectionRow(desc)]);
            WellFormed(t) && Later(s, t)
  {
    assert RowFits(name, s.rows[name]);
  }

  lemma InsertKeeps(s: State, name: Bytes, desc: Descriptor)
    requires WellFormed(s)
    ensures WellFormed(Insert(s, name, desc).0) && Later(s, Insert(s, name, desc).0)
  {
    var t := Insert(s, name, desc).0;
    if t != s {
      forall k | IsCollection(t.rows, k) && k != name ensures IsCollection(s.rows, k) && t.rows[k] == s.rows[k] {}
      forall k | k in t.rows ensures RowFits(k, t.rows[k]) {
        if k != name && k != RESERVED_NEXT_ID_KEY { assert RowFits(k, s.rows[k]); }
      }
      forall k | k in s.rows && s.rows[k].SchemaRow? ensures k in t.rows && t.rows[k] == s.rows[k] {
        assert RowFits(k, s.rows[k]);
      }
    }
  }

  lemma SchemaKeyIsSchemaKey(c: uint32, v: uint32)
    ensures IsSchemaKey(SchemaKey(c, v)) && SchemaKey(c, v) != RESERVED_NEXT_ID_KEY
  {}

  lemma PutSchemaKeeps(s: State, c: uint32, v: uint32, live: Option<int>)
    requires WellFormed(s)
    ensures WellFormed(PutSchema(s, c, v, live).0) && Later(s, PutSchema(s, c, v, live).0)
  {
    SchemaKeyIsSchemaKey(c, v);
    var key, t := SchemaKey(c, v), PutSchema(s, c, v, live).0;
    forall k ensures IsCollection(t.rows, k) <==> IsCollection(s.rows, k) {}
    forall k | k in t.rows ensures RowFits(k, t.rows[k]) {
      if k != key { assert RowFits(k, s.rows[k]); }
    }
  }

  lemma StepKeeps(s: State, op: Op)
    requires WellFormed(s)
    ensures WellFormed(Step(s, op)) && Later(s, Step(s, op))
  {
    match op {
      case InsertOp(name, desc) => InsertKeeps(s, name, desc);
      case UpdateOp(name, desc) =>
        if Step(s, op) != s { RewriteKeeps(s, name, desc); }
      case PutSchemaOp(c, v, live) => PutSchemaKeeps(s, c, v, live);
      case NextIdOp(name) =>
        if Step(s, op) != s {
          var desc := s.rows[name].desc;
          RewriteKeeps(s, name, desc.(nextId := Collection.Bump(desc.nextId)));
        }
    }
  }

  /** Over every run collection ids stay distinct and below the watermark, and no
      schema row once written ever changes. */
  lemma {:induction false} RunKeeps(s: State, ops: seq<Op>)
    requires WellFormed(s)
    ensures WellFormed(Run(s, ops)) && Later(s, Run(s, ops))
    decreases |ops|
  {
    if ops != [] {
      var t := Step(s, ops[0]);
      StepKeeps(s, ops[0]);
      RunKeeps(t, ops[1..]);
      LaterTransitive(s, t, Run(t, ops[1..]));
    }
  }

  lemma LaterTransitive(a: State, b: State, c: State)
    requires Later(a, b) && Later(b, c)
    ensures Later(a, c)
  {
    forall k | k in a.rows && a.rows[k].SchemaRow? ensures k in c.rows && c.rows[k] == a.rows[k] {
      assert k in b.rows && b.rows[k] == a.rows[k];
    }
    forall k | IsCollection(a.rows, k) ensures IsCollection(c.rows, k) &&
        c.rows[k].desc.collectionId == a.rows[k].desc.collectionId {
      assert IsCollection(b.rows, k);
    }
  }

  lemma FreshIsWellFormed()
    ensures WellFormed(InitFresh())
  {}

  // ---- What is stored and what is issued ----

  /** An insert stores the descriptor under the id it returns, which no collection has;
      all else it leaves but for the watermark. */
  lemma InsertStores(s: State, name: Bytes, desc: Descriptor)
    requires WellFormed(s)
    ensures var (t, r) := Insert(s, name, desc);
            && (r.Ok? <==> ValidName(name) && name !in s.rows && s.nextCollectionId + 1 < TWO32)
            && (r.Ok? ==>
                  && name in t.rows && t.rows[name] == CollectionRow(desc.(collectionId := r.value))
                  && r.value < t.nextCollectionId
                  && (forall k | IsCollection(s.rows, k) :: s.rows[k].desc.collectionId < r.value)
                  && (forall k | k in t.rows && k != name && k != RESERVED_NEXT_ID_KEY ::
                        k in s.rows && t.rows[k] == s.rows[k])
                  && (forall k | k in s.rows && k != RESERVED_NEXT_ID_KEY :: k in t.rows && t.rows[k] == s.rows[k]))
            && (r.Err? ==> t == s)
  {
    if Insert(s, name, desc).1.Ok? {
      assert forall k | IsCollection(s.rows, k) :: s.rows[k].desc.collectionId < s.nextCollectionId;
    }
  }

  /** Collection ids are issued once: what an insert returns at any later point of the
      run is larger. */
  lemma CollectionIdsIssuedOnce(s: State, name: Bytes, desc: Descriptor, ops: seq<Op>, other: Bytes, more: Descriptor)
    requires WellFormed(s) && Insert(s, name, desc).1.Ok?
    requires Insert(Run(Insert(s, name, desc).0, ops), other, more).1.Ok?
    ensures Insert(s, name, desc).1.value < Insert(Run(Insert(s, name, desc).0, ops), other, more).1.value
  {
    InsertKeeps(s, name, desc);
    RunKeeps(Insert(s, name, desc).0, ops);
  }

  /** An update replaces the descriptor of a stored collection and nothing else, and is
      refused for a name that is not there or with another id. */
  lemma UpdateStores(s: State, name: Bytes, desc: Descriptor)
    requires WellFormed(s)
    ensures var (t, r) := Update(s, name, desc);
            && (r.Ok? <==> IsCollection(s.rows, name) && s.rows[name].desc.collectionId == desc.collectionId)
            && (r.Ok? ==> t == s.(rows := s.rows[name := CollectionRow(desc)]))
            && (r.Err? ==> t == s)
            && (r == Err(Corruption) <==>
                  IsCollection(s.rows, name) && s.rows[name].desc.collectionId != desc.collectionId)
  {
    if name in s.rows {
      assert RowFits(name, s.rows[name]);
      if ValidName(name) { assert !ControlAt(name, 0); }
    }
  }

  /** The ids that NextId issues for a collection over a run. */
  function Issued(s: State, ops: seq<Op>, name: Bytes): (ids: seq<uint64>)
    decreases |ops|
  {
    if ops == [] then [] else
    var rest := Issued(Step(s, ops[0]), ops[1..], name);
    if ops[0] == NextIdOp(name) && NextId(s, name).1.Ok? then [NextId(s, name).1.value] + rest else rest
  }

  /** Updates of the collection leave its document ids alone. */
  predicate NextIdsKept(s: State, ops: seq<Op>, name: Bytes)
    decreases |ops|
  {
    ops == [] ||
    (&& (ops[0].UpdateOp? && ops[0].name == name && IsCollection(s.rows, name) ==>
           ops[0].desc.nextId == s.rows[name].desc.nextId)
     && NextIdsKept(Step(s, ops[0]), ops[1..], name))
  }

  /** What one operation does to a collection's document ids. */
  lemma StepOnNextId(s: State, op: Op, name: Bytes)
    requires WellFormed(s) && IsCollection(s.rows, name) && NextIdsKept(s, [op], name)
    ensures IsCollection(Step(s, op).rows, name)
    ensures var was, now := s.rows[name].desc.nextId, Step(s, op).rows[name].desc.nextId;
            if op == NextIdOp(name) && was != 0 then
              NextId(s, name).1 == Ok(was) && now == if was + 1 == TWO64 then 0 else was + 1
            else now == was && (op == NextIdOp(name) ==> NextId(s, name).1 == Err(IdSpaceExhausted))
  {
    assert RowFits(name, s.rows[name]);
    StepKeeps(s, op);
    if op.PutSchemaOp? {
      SchemaKeyIsSchemaKey(op.collection, op.version);
      assert !ControlAt(name, 0);
    }
  }

  /** They are issued one after the other from the collection's watermark, each once,
      until they run out. */
  lemma {:induction false} IssuedInTurn(s: State, ops: seq<Op>, name: Bytes)
    requires WellFormed(s) && IsCollection(s.rows, name) && NextIdsKept(s, ops, name)
    ensures var ids, first := Issued(s, ops, name), s.rows[name].desc.nextId;
            && (first == 0 ==> ids == [])
            && first + |ids| <= TWO64
            && forall i | 0 <= i < |ids| :: ids[i] == first + i
    decreases |ops|
  {
    if ops != [] {
      assert [ops[0]][1..] == [];
      StepOnNextId(s, ops[0], name);
      StepKeeps(s, ops[0]);
      IssuedInTurn(Step(s, ops[0]), ops[1..], name);
    }
  }

  /** An update that puts the watermark back has an id issued a second time. */
  lemma LoweredWatermarkReissues(s: State, name: Bytes)
    requires WellFormed(s) && IsCollection(s.rows, name) && s.rows[name].desc.nextId != 0
    ensures var desc := s.rows[name].desc;
            Issued(s, [NextIdOp(name), UpdateOp(name, desc), NextIdOp(name)], name) == [desc.nextId, desc.nextId]
  {
    var desc := s.rows[name].desc;
    var ops := [NextIdOp(name), UpdateOp(name, desc), NextIdOp(name)];
    assert RowFits(name, s.rows[name]);
    var s1 := Step(s, ops[0]);
    var s2 := Step(s1, ops[1]);
    assert ops[1..][1..][1..] == [] && ops[1..][0] == ops[1] && ops[1..][1..][0] == ops[2];
    assert s2.rows[name] == CollectionRow(desc);
    assert Issued(s2, ops[1..][1..], name) == [desc.nextId];
    assert Issued(s1, ops[1..], name) == [desc.nextId];
  }

  /** A schema that can be normalised is refused exactly when its key holds another
      row: another shape, or one of a format this build does not know. */
  lemma PutSchemaRefusesDrift(s: State, c: uint32, v: uint32, live: Option<int>)
    requires WellFormed(s)
    ensures var key, r := SchemaKey(c, v), PutSchema(s, c, v, live).1;
            && (r == Err(SchemaDepthExceeded) <==> live.None?)
            && (live.Some? ==>
                  (r.Err? <==> key in s.rows && s.rows[key] != SchemaRow(STORED_SCHEMA_FORMAT_V1, live.value)))
            && (live.Some? && r.Err? ==>
                  && s.rows[key].SchemaRow?
                  && r.error == if s.rows[key].format == STORED_SCHEMA_FORMAT_V1 then SchemaShapeChanged
                                else UnsupportedSchemaFormat)
    ensures PutSchema(s, c, v, live).1.Ok? ==>
              PutSchema(s, c, v, live).0.rows ==
              s.rows[SchemaKey(c, v) := SchemaRow(STORED_SCHEMA_FORMAT_V1, live.value)]
    ensures PutSchema(s, c, v, live).1.Err? ==> PutSchema(s, c, v, live).0 == s
  {
    SchemaKeyIsSchemaKey(c, v);
    var key := SchemaKey(c, v);
    if key in s.rows {
      assert RowFits(key, s.rows[key]) && ControlAt(key, 0);
    }
  }

  // ---- Listing ----

  type Listing = seq<(Bytes, Descriptor)>

  predicate IsSystemKey(k: Bytes) {
    k == RESERVED_NEXT_ID_KEY || k[0] == SYSTEM_ROW_SENTINEL
  }

  /** The collection rows among the entries, in order. */
  function Listed(es: seq<Entry<Row>>): (out: Listing) {
    if es == [] then [] else
    var last := es[|es| - 1];
    Listed(es[..|es| - 1]) + if last.val.CollectionRow? then [(last.key, last.val.desc)] else []
  }

  lemma {:induction false} ListedExactly(es: seq<Entry<Row>>, name: Bytes, desc: Descriptor)
    ensures (name, desc) in Listed(es) <==> Entry(name, CollectionRow(desc)) in es
  {
    if es != [] {
      ListedExactly(es[..|es| - 1], name, desc);
      assert forall e :: e in es <==> e in es[..|es| - 1] || e == es[|es| - 1];
    }
  }

  /** They are in the order of the entries. */
  lemma {:induction false} ListedInOrder(es: seq<Entry<Row>>)
    requires forall i, j | 0 <= i < j < |es| :: Less(es[i].key, es[j].key)
    ensures forall i, j | 0 <= i < j < |Listed(es)| :: Less(Listed(es)[i].0, Listed(es)[j].0)
  {
    if es != [] {
      var front, last := es[..|es| - 1], es[|es| - 1];
      ListedInOrder(front);
      forall i | 0 <= i < |Listed(front)| ensures Less(Listed(front)[i].0, last.key) {
        ListedExactly(front, Listed(front)[i].0, Listed(front)[i].1);
        assert Listed(front)[i] in Listed(front);
        var j :| 0 <= j < |front| && front[j] == Entry(Listed(front)[i].0, CollectionRow(Listed(front)[i].1));
        assert es[j] == front[j];
      }
    }
  }

  /** In a well-formed catalog the key alone tells the collection rows apart. */
  lemma SystemKeysAreNotCollections(s: State, e: Entry<Row>)
    requires WellFormed(s) && e.key in s.rows && s.rows[e.key] == e.val
    ensures IsSystemKey(e.key) <==> !e.val.CollectionRow?
  {
    assert RowFits(e.key, e.val);
    if e.val.CollectionRow? { assert !ControlAt(e.key, 0); }
  }

  method ListEntries(es: seq<Entry<Row>>) returns (r: Result<Listing>)
    requires forall e | e in es :: IsSystemKey(e.key) <==> !e.val.CollectionRow?
    ensures r == if |es| > MAX_COLLECTIONS then Err(ScanLimitExceeded) else Ok(Listed(es))
  {
    var out: Listing := [];
    for i := 0 to |es|
      invariant i <= MAX_COLLECTIONS && out == Listed(es[..i])
    {
      if i + 1 > MAX_COLLECTIONS {
        return Err(ScanLimitExceeded);
      }
      var e := es[i];
      assert e in es && es[..i + 1][..i] == es[..i];
      if !IsSystemKey(e.key) {
        out := out + [(e.key, e.val.desc)];
      }
    }
    assert es[..|es|] == es;
    return Ok(out);
  }

  /** Lists the collections by skipping the system rows. Exactly a catalog of more
      rows than the scan limit, system rows included, is refused. */
  method ListCollections(s: State) returns (r: Result<Listing>)
    requires WellFormed(s)
    ensures |s.rows| > MAX_COLLECTIONS ==> r == Err(ScanLimitExceeded)
    ensures |s.rows| <= MAX_COLLECTIONS ==> r == Ok(Listed(Range(s.rows, Unbounded, Unbounded)))
  {
    var es := Range(s.rows, Unbounded, Unbounded);
    assert KeysWithin(s.rows, Unbounded, Unbounded) == s.rows.Keys;
    forall e | e in es ensures IsSystemKey(e.key) <==> !e.val.CollectionRow? {
      SystemKeysAreNotCollections(s, e);
    }
    r := ListEntries(es);
  }

  /** The listing holds exactly the collections, by name. */
  lemma ListingIsTheCollections(s: State, name: Bytes, desc: Descriptor)
    requires WellFormed(s)
    ensures var out := Listed(Range(s.rows, Unbounded, Unbounded));
            forall i, j | 0 <= i < j < |out| :: Less(out[i].0, out[j].0)
    ensures (name, desc) in Listed(Range(s.rows, Unbounded, Unbounded)) <==>
            name in s.rows && s.rows[name] == CollectionRow(desc)
  {
    ListedExactly(Range(s.rows, Unbounded, Unbounded), name, desc);
    ListedInOrder(Range(s.rows, Unbounded, Unbounded));
  }

  // ---- The catalog handle ----

  class Catalog {
    var tree: Rows
    var nextCollectionId: uint32

    ghost function View(): State
      reads this
    {
      State(tree, nextCollectionId)
    }

    constructor ()
      ensures View() == InitFresh() && WellFormed(View())
    {
      tree, nextCollectionId := map[RESERVED_NEXT_ID_KEY := WatermarkRow(1)], 1;
    }

    method PersistNextCollectionId(watermark: uint32)
      modifies this`tree
      ensures tree == old(tree)[RESERVED_NEXT_ID_KEY := WatermarkRow(watermark)]
    {
      tree := tree - {RESERVED_NEXT_ID_KEY};
      tree := tree[RESERVED_NEXT_ID_KEY := WatermarkRow(watermark)];
    }

    method DoInsert(name: Bytes, desc: Descriptor) returns (r: Result<uint32>)
      modifies this
      ensures (View(), r) == Insert(old(View()), name, desc)
    {
      if !ValidName(name) {
        return Err(InvalidArgument);
      }
      if name in tree {
        return Err(CollectionAlreadyExists);
      }
      var given := nextCollectionId;
      if nextCollectionId + 1 == TWO32 {
        return Err(IdSpaceExhausted);
      }
      var watermark: uint32 := nextCollectionId + 1;
      tree := tree[name := CollectionRow(desc.(collectionId := given))];
      PersistNextCollectionId(watermark);
      nextCollectionId := watermark;
      return Ok(given);
    }

    method DoUpdate(name: Bytes, desc: Descriptor) returns (r: Result<()>)
      modifies this`tree
      ensures (View(), r) == Update(old(View()), name, desc)
    {
      if !ValidName(name) {
        return Err(InvalidArgument);
      }
      var existing :- DescriptorAt(tree, name);
      if existing.None? {
        return Err(InvalidArgument);
      }
      if existing.value.collectionId != desc.collectionId {
        return Err(Corruption);
      }
      ghost var before := tree;
      tree := tree - {name};
      tree := tree[name := CollectionRow(desc)];
      assert tree == before[name := CollectionRow(desc)];
      return Ok(());
    }

    method DoPutSchema(collection: uint32, version: uint32, live: Option<int>) returns (r: Result<()>)
      modifies this`tree
      ensures (View(), r) == PutSchema(old(View()), collection, version, live)
    {
      var key := SchemaKey(collection, version);
      if live.None? {
        return Err(SchemaDepthExceeded);
      }
      if key in tree {
        if !tree[key].SchemaRow? {
          return Err(Corruption);
        }
        if tree[key].format != STORED_SCHEMA_FORMAT_V1 {
          return Err(UnsupportedSchemaFormat);
        }
        return if tree[key].shape != live.value then Err(SchemaShapeChanged) else Ok(());
      }
      tree := tree[key := SchemaRow(STORED_SCHEMA_FORMAT_V1, live.value)];
      return Ok(());
    }

    method DoNextId(name: Bytes) returns (r: Result<uint64>)
      modifies this`tree
      ensures (View(), r) == NextId(old(View()), name)
    {
      if !ValidName(name) {
        return Err(InvalidArgument);
      }
      var existing :- DescriptorAt(tree, name);
      if existing.None? {
        return Err(InvalidArgument);
      }
      var desc := existing.value;
      if desc.nextId == 0 {
        return Err(IdSpaceExhausted);
      }
      var issued := desc.nextId;
      var updated := DoUpdate(name, desc.(nextId := Collection.Bump(issued)));
      assert updated.Ok?;
      return Ok(issued);
    }
  }
}
