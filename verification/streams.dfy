/** The chunked iterators: an index range, a whole collection and a raw dump,
    each streamed in batches of 256 entries from one snapshot. */
module Streams {
  import opened ByteOrder
  import opened Outcomes
  import opened OrderedMap
  import opened IndexKey
  import opened IndexExtract
  import opened IndexMaint
  import opened IndexBound
  import opened Collection
  import opened Agreement
  import opened IndexRead

  const BATCH: nat := 256

  /** What a batch taken from the front of a scan leaves behind. */
  function Batch<V>(es: seq<Entry<V>>): (batch: seq<Entry<V>>)
    ensures batch <= es && |batch| <= BATCH
    ensures |batch| < BATCH ==> batch == es
  {
    if |es| < BATCH then es else es[..BATCH]
  }

  // ---- Streaming an index range ----

  /** The snapshot and bound a stream reads from. */
  datatype Feed = Feed(primary: map<Bytes, Doc>, kind: IndexKind, tree: map<Bytes, Bytes>, hi: Bound<Bytes>)

  /** Where a stream stands: what is staged, where reading goes on, which ids it
      has delivered. The resumption bound of a finished stream is immaterial. */
  datatype Cursor = Cursor(buffer: seq<Staged>, start: Option<Bound<Bytes>>, emittedIds: set<Bytes>)

  function Unread(f: Feed, c: Cursor): seq<Entry<Bytes>> {
    if c.start.None? then [] else Range(f.tree, c.start.value, f.hi)
  }

  function Pending(f: Feed, c: Cursor): seq<Staged> {
    c.buffer + Stage(f.kind, Unread(f, c), c.emittedIds)
  }

  /** The rows a stream is still to deliver. */
  function Remaining(f: Feed, c: Cursor): seq<Row> {
    ResolveAll(f.primary, Pending(f, c))
  }

  function Steps(f: Feed, c: Cursor): nat {
    |Unread(f, c)| + if c.start.None? then 0 else 1
  }

  function Refilled(f: Feed, c: Cursor): Cursor {
    var batch := Batch(Unread(f, c));
    Cursor(c.buffer + Stage(f.kind, batch, c.emittedIds),
           if |batch| < BATCH then None else Some(Excluded(batch[BATCH - 1].key)),
           SeenAfter(f.kind, batch, c.emittedIds))
  }

  /** Reading goes on where a full batch ends. */
  lemma ScanAfterBatch<V(!new)>(m: map<Bytes, V>, lo: Bound<Bytes>, hi: Bound<Bytes>)
    ensures |Range(m, lo, hi)| >= BATCH ==>
              Range(m, Excluded(Range(m, lo, hi)[BATCH - 1].key), hi) == Range(m, lo, hi)[BATCH..]
  {
    if |Range(m, lo, hi)| >= BATCH {
      RangeResume(m, lo, hi, BATCH);
    }
  }

  lemma UnreadAfterBatch(f: Feed, c: Cursor)
    requires c.start.Some?
    ensures Unread(f, Refilled(f, c)) == Unread(f, c)[|Batch(Unread(f, c))|..]
  {
    ScanAfterBatch(f.tree, c.start.value, f.hi);
  }

  lemma Assoc<T>(a: seq<T>, b: seq<T>, c: seq<T>)
    ensures (a + b) + c == a + (b + c)
  {}

  lemma PopFront<T>(a: seq<T>, b: seq<T>)
    requires a != []
    ensures (a + b)[0] == a[0] && (a + b)[1..] == a[1..] + b
  {}

  /** Staging one batch changes nothing about what is to be delivered, and brings
      the end nearer even when every entry of the batch was a repeat. */
  lemma RefillKeepsPending(f: Feed, c: Cursor)
    requires c.start.Some?
    ensures Pending(f, Refilled(f, c)) == Pending(f, c)
    ensures Steps(f, Refilled(f, c)) < Steps(f, c)
  {
    var es, next := Unread(f, c), Refilled(f, c);
    var batch := Batch(es);
    UnreadAfterBatch(f, c);
    assert Steps(f, next) < Steps(f, c);
    StageConcat(f.kind, batch, es[|batch|..], c.emittedIds);
    assert batch + es[|batch|..] == es;
    Assoc(c.buffer, Stage(f.kind, batch, c.emittedIds),
          Stage(f.kind, es[|batch|..], SeenAfter(f.kind, batch, c.emittedIds)));
  }

  class IterIndexRange {
    const feed: Feed
    var initialResume: Option<Bound<Bytes>>
    var lastFullKey: Option<Bytes>
    var buffer: seq<Staged>
    var emittedIds: set<Bytes>
    var finished: bool

    function StartBound(): Bound<Bytes>
      reads this
    {
      if initialResume.Some? then initialResume.value
      else if lastFullKey.Some? then Excluded(lastFullKey.value)
      else Unbounded
    }

    function View(): Cursor
      reads this
    {
      Cursor(buffer, if finished then None else Some(StartBound()), emittedIds)
    }

    constructor (s: State, ix: IndexDescriptor, lo: Bound<Bytes>, hi: Bound<Bytes>)
      ensures feed == Feed(s.primary, ix.spec.kind, ix.tree, WidenUpperFor(ix.spec.kind, hi))
      ensures View() == Cursor([], Some(WidenLowerFor(ix.spec.kind, lo)), {})
    {
      feed := Feed(s.primary, ix.spec.kind, ix.tree, WidenUpperFor(ix.spec.kind, hi));
      initialResume := Some(WidenLowerFor(ix.spec.kind, lo));
      lastFullKey, buffer, emittedIds, finished := None, [], {}, false;
    }

    /** Stages a batch, remembering the last tree key and the ids delivered. */
    method StageBatch(batch: seq<Entry<Bytes>>)
      modifies this`buffer, this`emittedIds, this`lastFullKey
      ensures buffer == old(buffer) + Stage(feed.kind, batch, old(emittedIds))
      ensures emittedIds == SeenAfter(feed.kind, batch, old(emittedIds))
      ensures lastFullKey == if batch == [] then old(lastFullKey) else Some(batch[|batch| - 1].key)
    {
      ghost var seen := emittedIds;
      var staged: seq<Staged> := [];
      var emitted, lastFull := emittedIds, lastFullKey;
      for i := 0 to |batch|
        invariant buffer == old(buffer) && emittedIds == seen && lastFullKey == old(lastFullKey)
        invariant staged == Stage(feed.kind, batch[..i], seen)
        invariant emitted == SeenAfter(feed.kind, batch[..i], seen)
        invariant lastFull == if i == 0 then lastFullKey else Some(batch[i - 1].key)
      {
        var e := batch[i];
        StageSnoc(feed.kind, batch, i, seen);
        lastFull := Some(e.key);
        if !IsId(e.val) {
          staged := staged + [Err(Corruption)];
        } else if !(feed.kind.Each? && e.val in emitted) {
          staged := staged + [Ok((StripIdSuffix(feed.kind, e.key), e.val))];
        }
        emitted := Remember(feed.kind, e, emitted);
      }
      assert batch[..|batch|] == batch;
      buffer, emittedIds, lastFullKey := buffer + staged, emitted, lastFull;
    }

    method Refill()
      requires !finished
      modifies this
      ensures View() == Refilled(feed, old(View()))
    {
      var batch := Batch(Unread(feed, View()));
      initialResume := None;
      StageBatch(batch);
      if |batch| < BATCH {
        finished := true;
      }
    }

    /** Delivers the next row. Refills until a batch stages something, for a batch
        of repeats stages nothing. */
    method Next() returns (item: Option<Row>)
      modifies this
      ensures Delivered(Remaining(feed, old(View())), item, Remaining(feed, View()))
    {
      ghost var first, c := View(), View();
      while buffer == []
        invariant c == View() && Pending(feed, c) == Pending(feed, first)
        decreases Steps(feed, c)
      {
        if finished {
          NothingPending(feed, c);
          return None;
        }
        RefillKeepsPending(feed, c);
        Refill();
        c := Refilled(feed, c);
      }
      PopPending(feed, c);
      item := Some(Resolve(feed.primary, buffer[0]));
      buffer := buffer[1..];
      assert View() == c.(buffer := c.buffer[1..]);
    }
  }

  /** One call to next on a stream that had `before` to deliver. */
  predicate Delivered<T(==)>(before: seq<T>, item: Option<T>, after: seq<T>) {
    if before == [] then item == None && after == [] else item == Some(before[0]) && after == before[1..]
  }

  lemma NothingPending(f: Feed, c: Cursor)
    requires c.buffer == [] && c.start.None?
    ensures Remaining(f, c) == []
  {}

  lemma PopPending(f: Feed, c: Cursor)
    requires c.buffer != []
    ensures Remaining(f, c) != [] && Remaining(f, c)[0] == Resolve(f.primary, c.buffer[0])
    ensures Remaining(f, c.(buffer := c.buffer[1..])) == Remaining(f, c)[1..]
  {
    PopFront(c.buffer, Stage(f.kind, Unread(f, c), c.emittedIds));
    ResolveTail(f.primary, Pending(f, c));
  }

  lemma ResolveTail(primary: map<Bytes, Doc>, st: seq<Staged>)
    requires st != []
    ensures ResolveAll(primary, st) != [] && ResolveAll(primary, st)[0] == Resolve(primary, st[0])
    ensures ResolveAll(primary, st[1..]) == ResolveAll(primary, st)[1..]
  {}

  lemma HandOver<T>(done: seq<T>, rest: seq<T>)
    requires rest != []
    ensures (done + [rest[0]]) + rest[1..] == done + rest
  {}

  method DrainIndexRange(iter: IterIndexRange) returns (rows: seq<Row>)
    modifies iter
    ensures rows == Remaining(iter.feed, old(iter.View()))
  {
    rows := [];
    ghost var all := Remaining(iter.feed, iter.View());
    ghost var rest := all;
    while true
      invariant rows + rest == all && rest == Remaining(iter.feed, iter.View())
      decreases |rest|
    {
      var item := iter.Next();
      if item.None? {
        break;
      }
      HandOver(rows, rest);
      rows := rows + [item.value];
      rest := rest[1..];
    }
  }

  /** Consuming the whole stream gives the rows of the eager scan, in order. */
  method StreamIndexRange(s: State, name: string, lo: Bound<Bytes>, hi: Bound<Bytes>) returns (r: Result<seq<Row>>)
    ensures r == IndexRange(s, name, lo, hi)
  {
    var ix :- ActiveIndex(s, name);
    var iter := new IterIndexRange(s, ix, lo, hi);
    ghost var c := iter.View();
    assert Pending(iter.feed, c) == Stage(ix.spec.kind, Scan(ix, lo, hi), {});
    var rows := DrainIndexRange(iter);
    return Ok(rows);
  }

  // ---- Streaming the primary tree ----

  /** A document with its id. */
  type Record = Result<(Bytes, Doc)>

  function RecordOf(e: Entry<Doc>): Record {
    if IsId(e.key) then Ok((e.key, e.val)) else Err(InvalidArgument)
  }

  function RecordsOf(es: seq<Entry<Doc>>): (rows: seq<Record>)
    ensures |rows| == |es| && forall i | 0 <= i < |es| :: rows[i] == RecordOf(es[i])
  {
    seq(|es|, i requires 0 <= i < |es| => RecordOf(es[i]))
  }

  /** The collection's records in id order. */
  function AllRecords(primary: map<Bytes, Doc>): seq<Record> {
    RecordsOf(Range(primary, Unbounded, Unbounded))
  }

  /** The n-th record is the id and the document of the n-th id in order, for all of
      the stored ids. */
  ghost predicate ListsById(rows: seq<Record>, primary: map<Bytes, Doc>) {
    && (forall i | 0 <= i < |rows| ::
          rows[i].Ok? && rows[i].value.0 in primary && rows[i].value.1 == primary[rows[i].value.0])
    && (forall i, j | 0 <= i < j < |rows| :: Less(rows[i].value.0, rows[j].value.0))
    && forall id | id in primary :: Ok((id, primary[id])) in rows
  }

  lemma RecordAt(primary: map<Bytes, Doc>, i: nat)
    requires Keyed(primary) && i < |AllRecords(primary)|
    ensures var e := Range(primary, Unbounded, Unbounded)[i];
            AllRecords(primary)[i] == Ok((e.key, e.val)) && e.key in primary && e.val == primary[e.key]
  {
    var es := Range(primary, Unbounded, Unbounded);
    assert es[i] in es;
  }

  lemma RecordOfId(primary: map<Bytes, Doc>, id: Bytes)
    requires Keyed(primary) && id in primary
    ensures Ok((id, primary[id])) in AllRecords(primary)
  {
    var es := Range(primary, Unbounded, Unbounded);
    assert Entry(id, primary[id]) in es;
    var i :| 0 <= i < |es| && es[i] == Entry(id, primary[id]);
    RecordAt(primary, i);
  }

  lemma RecordsListById(primary: map<Bytes, Doc>)
    requires Keyed(primary)
    ensures ListsById(AllRecords(primary), primary) && |AllRecords(primary)| == |primary|
  {
    assert KeysWithin(primary, Unbounded, Unbounded) == primary.Keys;
    forall i: nat | i < |AllRecords(primary)|
      ensures AllRecords(primary)[i] == Ok((Range(primary, Unbounded, Unbounded)[i].key,
                                            Range(primary, Unbounded, Unbounded)[i].val))
      ensures Range(primary, Unbounded, Unbounded)[i].key in primary
      ensures Range(primary, Unbounded, Unbounded)[i].val == primary[Range(primary, Unbounded, Unbounded)[i].key]
    {
      RecordAt(primary, i);
    }
    forall id | id in primary ensures Ok((id, primary[id])) in AllRecords(primary) { RecordOfId(primary, id); }
  }

  /** The last key of the batch that is an id: only those move the resumption
      marker. */
  function LastId(es: seq<Entry<Doc>>): (k: Option<Bytes>)
    ensures es != [] && IsId(es[|es| - 1].key) ==> k == Some(es[|es| - 1].key)
  {
    if es == [] then None
    else if IsId(es[|es| - 1].key) then Some(es[|es| - 1].key)
    else LastId(es[..|es| - 1])
  }

  method DrainBatch(entries: seq<Entry<Doc>>) returns (batch: seq<Record>, lastKey: Option<Bytes>, drained: nat)
    ensures batch == RecordsOf(Batch(entries)) && lastKey == LastId(Batch(entries)) && drained == |Batch(entries)|
  {
    batch, lastKey, drained := [], None, 0;
    while drained < |entries| && drained < BATCH
      invariant drained <= |entries| && drained <= BATCH
      invariant batch == RecordsOf(entries[..drained]) && lastKey == LastId(entries[..drained])
    {
      var e := entries[drained];
      assert entries[..drained + 1][..drained] == entries[..drained];
      batch := batch + [RecordOf(e)];
      if IsId(e.key) {
        lastKey := Some(e.key);
      }
      drained := drained + 1;
    }
    assert Batch(entries) == entries[..drained];
  }

  /** What is staged and, unless reading has ended, the last key read if any. */
  datatype RecordCursor = RecordCursor(buffer: seq<Record>, resume: Option<Bound<Bytes>>)

  function ResumeBound(last: Option<Bytes>): Bound<Bytes> {
    if last.Some? then Excluded(last.value) else Unbounded
  }

  function UnreadDocs(primary: map<Bytes, Doc>, resume: Option<Bound<Bytes>>): seq<Entry<Doc>> {
    if resume.None? then [] else Range(primary, resume.value, Unbounded)
  }

  /** The records a stream over the primary tree is still to deliver. */
  function Undelivered(primary: map<Bytes, Doc>, c: RecordCursor): seq<Record> {
    c.buffer + RecordsOf(UnreadDocs(primary, c.resume))
  }

  function RefilledRecords(primary: map<Bytes, Doc>, c: RecordCursor): RecordCursor {
    var batch := Batch(UnreadDocs(primary, c.resume));
    RecordCursor(c.buffer + RecordsOf(batch),
                 if |batch| < BATCH then None
                 else if LastId(batch).Some? then Some(Excluded(LastId(batch).value))
                 else c.resume)
  }

  lemma RecordsConcat(a: seq<Entry<Doc>>, b: seq<Entry<Doc>>)
    ensures RecordsOf(a + b) == RecordsOf(a) + RecordsOf(b)
  {}

  lemma UnreadAfterDocs(primary: map<Bytes, Doc>, c: RecordCursor)
    requires Keyed(primary) && c.resume.Some?
    ensures var es := UnreadDocs(primary, c.resume);
            UnreadDocs(primary, RefilledRecords(primary, c).resume) == es[|Batch(es)|..]
  {
    var es := UnreadDocs(primary, c.resume);
    ScanAfterBatch(primary, c.resume.value, Unbounded);
    if |Batch(es)| == BATCH {
      assert es[BATCH - 1] in es;
    }
  }

  /** In a tree all of whose keys are ids, staging a batch changes nothing about
      what is to be delivered, and only the end of the tree stages nothing. */
  lemma RefillKeepsUndelivered(primary: map<Bytes, Doc>, c: RecordCursor)
    requires Keyed(primary) && c.resume.Some?
    ensures Undelivered(primary, RefilledRecords(primary, c)) == Undelivered(primary, c)
    ensures RefilledRecords(primary, c).buffer == [] ==> Undelivered(primary, c) == []
  {
    var es := UnreadDocs(primary, c.resume);
    var batch, rest := Batch(es), es[|Batch(es)|..];
    UnreadAfterDocs(primary, c);
    RecordsConcat(batch, rest);
    assert batch + rest == es;
    Assoc(c.buffer, RecordsOf(batch), RecordsOf(rest));
  }

  lemma PopUndelivered(primary: map<Bytes, Doc>, c: RecordCursor)
    requires c.buffer != []
    ensures Undelivered(primary, c) != [] && Undelivered(primary, c)[0] == c.buffer[0]
    ensures Undelivered(primary, c.(buffer := c.buffer[1..])) == Undelivered(primary, c)[1..]
  {
    PopFront(c.buffer, RecordsOf(UnreadDocs(primary, c.resume)));
  }

  function NextRecord(primary: map<Bytes, Doc>, c: RecordCursor): (Option<Record>, RecordCursor) {
    var full := if c.buffer == [] && c.resume.Some? then RefilledRecords(primary, c) else c;
    if full.buffer == [] then (None, full) else (Some(full.buffer[0]), full.(buffer := full.buffer[1..]))
  }

  lemma NextRecordDelivers(primary: map<Bytes, Doc>, c: RecordCursor)
    requires Keyed(primary)
    ensures Delivered(Undelivered(primary, c), NextRecord(primary, c).0, Undelivered(primary, NextRecord(primary, c).1))
  {
    if c.buffer == [] && c.resume.Some? {
      RefillKeepsUndelivered(primary, c);
      if RefilledRecords(primary, c).buffer != [] { PopUndelivered(primary, RefilledRecords(primary, c)); }
    } else if c.buffer != [] {
      PopUndelivered(primary, c);
    }
  }

  class IterAll {
    const primary: map<Bytes, Doc>
    var buffer: seq<Record>
    var lastEmittedKey: Option<Bytes>
    var finished: bool

    function View(): RecordCursor
      reads this
    {
      RecordCursor(buffer, if finished then None else Some(ResumeBound(lastEmittedKey)))
    }

    constructor (s: State)
      ensures primary == s.primary && View() == RecordCursor([], Some(Unbounded))
    {
      primary := s.primary;
      buffer, lastEmittedKey, finished := [], None, false;
    }

    method Refill()
      requires !finished
      modifies this
      ensures View() == RefilledRecords(primary, old(View()))
    {
      var batch, lastKey, drained := DrainBatch(UnreadDocs(primary, View().resume));
      if drained < BATCH {
        finished := true;
      }
      buffer := buffer + batch;
      if lastKey.Some? {
        lastEmittedKey := lastKey;
      }
    }

    /** Unlike IterIndexRange this does not loop: a batch read from a non-empty
        rest is never empty. */
    method Next() returns (item: Option<Record>)
      modifies this
      ensures (item, View()) == NextRecord(primary, old(View()))
    {
      if buffer == [] {
        if finished {
          return None;
        }
        Refill();
        if buffer == [] {
          return None;
        }
      }
      item := Some(buffer[0]);
      buffer := buffer[1..];
    }
  }

  /** Consuming the stream gives every record of the collection, in id order. */
  method StreamAll(s: State) returns (rows: seq<Record>)
    requires Keyed(s.primary)
    ensures rows == AllRecords(s.primary) && ListsById(rows, s.primary)
  {
    RecordsListById(s.primary);
    var iter := new IterAll(s);
    rows := DrainAll(iter);
    assert [] + AllRecords(s.primary) == AllRecords(s.primary);
  }

  method DrainAll(iter: IterAll) returns (rows: seq<Record>)
    requires Keyed(iter.primary)
    modifies iter
    ensures rows == Undelivered(iter.primary, old(iter.View()))
  {
    rows := [];
    ghost var c := iter.View();
    ghost var rest := Undelivered(iter.primary, c);
    ghost var all := rest;
    while true
      invariant c == iter.View() && rest == Undelivered(iter.primary, c) && rows + rest == all
      decreases |rest|
    {
      NextRecordDelivers(iter.primary, c);
      c := NextRecord(iter.primary, c).1;
      var item := iter.Next();
      if item.None? {
        break;
      }
      HandOver(rows, rest);
      rows := rows + [item.value];
      rest := rest[1..];
    }
  }

  /** What is left under a limit, where 0 stands for none. */
  function Limited(records: seq<Record>, limit: uint64, emitted: uint64): seq<Record>
    requires limit != 0 ==> emitted <= limit
  {
    if limit != 0 && limit - emitted < |records| then records[..limit - emitted] else records
  }

  lemma LimitedFromStart(records: seq<Record>, limit: uint64)
    ensures Limited(records, limit, 0) <= records
    ensures |Limited(records, limit, 0)| == if limit == 0 || |records| < limit then |records| else limit
  {}

  function OneMore(emitted: uint64): uint64 {
    if emitted + 1 == TWO64 then emitted else emitted + 1
  }

  /** Delivering one element is delivering one element of the limited sequence. */
  lemma DeliveredUnderLimit(before: seq<Record>, item: Option<Record>, after: seq<Record>, limit: uint64,
          emitted: uint64)
    requires limit != 0 ==> emitted < limit
    requires item.Some? && Delivered(before, item, after)
    ensures Delivered(Limited(before, limit, emitted), item, Limited(after, limit, OneMore(emitted)))
  {
    assert Limited(after, limit, OneMore(emitted)) == Limited(before, limit, emitted)[1..];
  }

  /** The records a limited stream is still to deliver. */
  function Left(primary: map<Bytes, Doc>, c: RecordCursor, limit: uint64, emitted: uint64): seq<Record>
    requires limit != 0 ==> emitted <= limit
  {
    Limited(Undelivered(primary, c), limit, emitted)
  }

  function NextDump(primary: map<Bytes, Doc>, c: RecordCursor, limit: uint64, emitted: uint64): (Option<Record>,
          RecordCursor, uint64) {
    if limit != 0 && emitted >= limit then (None, c, emitted) else
    var next := NextRecord(primary, c);
    (next.0, next.1, if next.0.Some? then OneMore(emitted) else emitted)
  }

  lemma NextDumpDelivers(primary: map<Bytes, Doc>, c: RecordCursor, limit: uint64, emitted: uint64)
    requires Keyed(primary) && (limit != 0 ==> emitted <= limit)
    ensures var next := NextDump(primary, c, limit, emitted);
            && (limit != 0 ==> next.2 <= limit)
            && Delivered(Left(primary, c, limit, emitted), next.0, Left(primary, next.1, limit, next.2))
  {
    if limit == 0 || emitted < limit {
      NextRecordDelivers(primary, c);
      var next := NextRecord(primary, c);
      if next.0.Some? {
        DeliveredUnderLimit(Undelivered(primary, c), next.0, Undelivered(primary, next.1), limit, emitted);
      }
    }
  }

  /** The dump stream: as IterAll, stopping after `limit` records. */
  class DumpIter {
    const primary: map<Bytes, Doc>
    const limit: uint64
    var buffer: seq<Record>
    var lastEmittedKey: Option<Bytes>
    var finished: bool
    var emitted: uint64

    function View(): RecordCursor
      reads this
    {
      RecordCursor(buffer, if finished then None else Some(ResumeBound(lastEmittedKey)))
    }

    ghost predicate Valid()
      reads this
    {
      Keyed(primary) && (limit != 0 ==> emitted <= limit)
    }

    constructor (s: State, limit: uint64)
      requires Keyed(s.primary)
      ensures Valid() && primary == s.primary && this.limit == limit
      ensures View() == RecordCursor([], Some(Unbounded)) && emitted == 0
    {
      primary, this.limit := s.primary, limit;
      buffer, lastEmittedKey, finished, emitted := [], None, false, 0;
    }

    method Refill()
      requires !finished
      modifies this`buffer, this`lastEmittedKey, this`finished
      ensures View() == RefilledRecords(primary, old(View()))
    {
      var batch, lastKey, drained := DrainBatch(UnreadDocs(primary, View().resume));
      if drained < BATCH {
        finished := true;
      }
      buffer := buffer + batch;
      if lastKey.Some? {
        lastEmittedKey := lastKey;
      }
    }

    method Next() returns (item: Option<Record>)
      modifies this
      ensures (item, View(), emitted) == NextDump(primary, old(View()), limit, old(emitted))
    {
      if limit != 0 && emitted >= limit {
        return None;
      }
      if buffer == [] {
        if finished {
          return None;
        }
        Refill();
        if buffer == [] {
          return None;
        }
      }
      item := Some(buffer[0]);
      buffer := buffer[1..];
      emitted := OneMore(emitted);
    }
  }

  /** Consuming the dump gives the collection's records up to the limit. */
  method DrainDump(iter: DumpIter) returns (rows: seq<Record>)
    requires iter.Valid()
    modifies iter
    ensures rows == Left(iter.primary, old(iter.View()), iter.limit, old(iter.emitted))
  {
    rows := [];
    ghost var c, emitted := iter.View(), iter.emitted;
    ghost var rest := Left(iter.primary, c, iter.limit, emitted);
    ghost var all := rest;
    while true
      invariant c == iter.View() && emitted == iter.emitted && (iter.limit != 0 ==> emitted <= iter.limit)
      invariant rest == Left(iter.primary, c, iter.limit, emitted) && rows + rest == all
      decreases |rest|
    {
      NextDumpDelivers(iter.primary, c, iter.limit, emitted);
      ghost var next := NextDump(iter.primary, c, iter.limit, emitted);
      c, emitted := next.1, next.2;
      var item := iter.Next();
      if item.None? {
        break;
      }
      HandOver(rows, rest);
      rows := rows + [item.value];
      rest := rest[1..];
    }
  }

  method StreamDump(s: State, limit: uint64) returns (rows: seq<Record>)
    requires Keyed(s.primary)
    ensures rows == Limited(AllRecords(s.primary), limit, 0)
    ensures ListsById(AllRecords(s.primary), s.primary) && rows <= AllRecords(s.primary)
    ensures |rows| == if limit == 0 || |s.primary| < limit then |s.primary| else limit
  {
    RecordsListById(s.primary);
    LimitedFromStart(AllRecords(s.primary), limit);
    var iter := new DumpIter(s, limit);
    assert [] + AllRecords(s.primary) == AllRecords(s.primary);
    rows := DrainDump(iter);
  }
}
