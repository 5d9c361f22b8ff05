/** Hot backup: copying the main file, laying the snapshot's frozen pages over the
    copy and clearing the header's WAL salt. */
module Backup {
  import opened Outcomes

  /** Page contents: zeroes, a body, or an encoded file header with its salt and
      checksum. */
  datatype Image = Zero | Body(bytes: int) | HeaderImage(fields: int, salt: int, crc: int)

  /** The source pager: the in-memory page count, how many pages the main file
      physically has, and what reading each of them gives. */
  datatype Source = Source(pageCount: nat, physical: nat, main: nat -> Result<Image>, pageZero: Image,
          memoryBacked: bool, encrypted: bool, crcOf: (int, int) -> int)

  datatype Snapshot = Snapshot(frozenPages: map<nat, Image>, frozenHeader: Option<Image>)

  // ---- What a backup has to hold ----

  /** ReaderSnapshot::read_page. */
  function SnapshotRead(source: Source, snap: Snapshot, id: nat): Result<Image> {
    if id in snap.frozenPages then Ok(snap.frozenPages[id])
    else if id >= source.physical then Ok(Zero)
    else source.main(id)
  }

  /** Page 0 as of the snapshot: the frozen header, else the file's own. */
  function SnapshotHeader(source: Source, snap: Snapshot): Image {
    if snap.frozenHeader.Some? then snap.frozenHeader.value
    else if source.physical > 0 then source.pageZero
    else Zero
  }

  predicate Decodes(source: Source, header: Image) {
    header.HeaderImage? && header.crc == source.crcOf(header.fields, header.salt)
  }

  /** The header with its salt zeroed and its checksum computed anew. */
  function Patched(source: Source, header: Image): Image
    requires header.HeaderImage?
  {
    HeaderImage(header.fields, 0, source.crcOf(header.fields, 0))
  }

  predicate Readable(source: Source) {
    forall id | 0 < id < source.physical :: source.main(id).Ok?
  }

  /** The first page of the main file that does not verify, with its error. */
  predicate FirstUnreadable(source: Source, e: Error) {
    exists id | 0 < id < source.physical ::
      source.main(id) == Err(e) && forall i | 0 < i < id :: source.main(i).Ok?
  }

  // ---- The destination file ----

  function Zeroes(n: nat): (s: seq<Image>)
    ensures |s| == n && forall i | 0 <= i < n :: s[i] == Zero
  {
    seq(n, _ => Zero)
  }

  /** `room` is the number of operations the destination still carries out; after
      that each of them fails. */
  class DestFile {
    var pages: seq<Image>
    var room: nat

    constructor (room: nat)
      ensures pages == [] && this.room == room
    {
      pages, this.room := [], room;
    }

    method Spend() returns (r: Result<()>)
      modifies this`room
      ensures r.Ok? <==> old(room) > 0
      ensures room == if old(room) > 0 then old(room) - 1 else 0
    {
      if room == 0 {
        return Err(Io);
      }
      room := room - 1;
      return Ok(());
    }

    method SetLen(n: nat) returns (r: Result<()>)
      requires pages == []
      modifies this
      ensures r.Ok? <==> old(room) > 0
      ensures r.Ok? ==> pages == Zeroes(n) && room == old(room) - 1
    {
      var _ :- Spend();
      pages := Zeroes(n);
      return Ok(());
    }

    /** Writing past the end extends the file. What a failing write leaves is open. */
    method WriteAt(id: nat, image: Image) returns (r: Result<()>)
      modifies this
      ensures r.Ok? <==> old(room) > 0
      ensures r.Ok? ==>
                && |pages| == (if id < |old(pages)| then |old(pages)| else id + 1) && pages[id] == image
                && (forall i | 0 <= i < |old(pages)| && i != id :: pages[i] == old(pages)[i])
                && room == old(room) - 1
    {
      var _ :- Spend();
      if id >= |pages| {
        pages := pages + Zeroes(id + 1 - |pages|);
      }
      pages := pages[id := image];
      return Ok(());
    }
  }

  function Max(a: nat, b: nat): nat {
    if a < b then b else a
  }

  /** Copies the physical pages; a page of the main file that fails to verify ends
      the backup. */
  method CopyMainFile(source: Source, dest: DestFile) returns (r: Result<()>)
    requires dest.pages == Zeroes(source.pageCount)
    modifies dest
    ensures r.Ok? <==> Readable(source) && old(dest.room) >= source.physical
    ensures r.Err? && old(dest.room) >= source.physical ==> FirstUnreadable(source, r.error)
    ensures r.Ok? ==> |dest.pages| == Max(source.pageCount, source.physical)
    ensures r.Ok? && source.physical > 0 ==> dest.pages[0] == source.pageZero
    ensures r.Ok? ==> forall id | 0 < id < |dest.pages| ::
              dest.pages[id] == if id < source.physical then source.main(id).value else Zero
    ensures r.Ok? && source.physical == 0 && source.pageCount > 0 ==> dest.pages[0] == Zero
    ensures r.Ok? ==> dest.room == old(dest.room) - source.physical
  {
    var id := 0;
    while id < source.physical
      invariant 0 <= id <= source.physical
      invariant forall i | 0 < i < id :: source.main(i).Ok?
      invariant old(dest.room) >= id && dest.room == old(dest.room) - id
      invariant |dest.pages| == Max(source.pageCount, id)
      invariant forall i | 0 < i < id :: source.main(i).Ok? && dest.pages[i] == source.main(i).value
      invariant id > 0 ==> dest.pages[0] == source.pageZero
      invariant forall i | id <= i < |dest.pages| :: dest.pages[i] == Zero
    {
      var image := source.pageZero;
      if id > 0 {
        image :- source.main(id);
      }
      var _ :- dest.WriteAt(id, image);
      id := id + 1;
    }
    return Ok(());
  }

  /** The frozen pages within the page count. */
  function Overlaid(snap: Snapshot, pageCount: nat): set<nat> {
    set id | id in snap.frozenPages && id < pageCount
  }

  lemma OverlaidStep(snap: Snapshot, pageCount: nat, rest: set<nat>, id: nat)
    requires id in rest && rest <= snap.frozenPages.Keys
    ensures Overlaid(snap, pageCount) * (rest - {id}) ==
            if id < pageCount then Overlaid(snap, pageCount) * rest - {id} else Overlaid(snap, pageCount) * rest
    ensures id < pageCount ==> id in Overlaid(snap, pageCount) * rest
  {}

  /** Writes the frozen pages within the page count, in whatever order. */
  method OverlayFrozenView(snap: Snapshot, dest: DestFile, pageCount: nat) returns (r: Result<()>)
    requires pageCount <= |dest.pages|
    modifies dest
    ensures r.Ok? <==> old(dest.room) >= |Overlaid(snap, pageCount)|
    ensures r.Ok? ==> |dest.pages| == |old(dest.pages)| && dest.room == old(dest.room) - |Overlaid(snap, pageCount)|
    ensures r.Ok? ==> forall id | 0 <= id < |dest.pages| ::
              dest.pages[id] == if id in snap.frozenPages && id < pageCount then snap.frozenPages[id]
                  else old(dest.pages)[id]
  {
    ghost var was, all := dest.pages, Overlaid(snap, pageCount);
    var rest := snap.frozenPages.Keys;
    assert all * rest == all;
    while rest != {}
      invariant rest <= snap.frozenPages.Keys && |dest.pages| == |was|
      invariant dest.room - |all * rest| == old(dest.room) - |all|
      invariant forall id | 0 <= id < |was| ::
                  dest.pages[id] == if id in snap.frozenPages && id !in rest && id < pageCount
                      then snap.frozenPages[id] else was[id]
    {
      var id :| id in rest;
      OverlaidStep(snap, pageCount, rest, id);
      rest := rest - {id};
      if id < pageCount {
        var _ :- dest.WriteAt(id, snap.frozenPages[id]);
      }
    }
    return Ok(());
  }

  method OverlayFrozenHeader(snap: Snapshot, dest: DestFile) returns (r: Result<()>)
    requires |dest.pages| > 0
    modifies dest
    ensures r.Ok? <==> snap.frozenHeader.None? || old(dest.room) > 0
    ensures r.Ok? ==> dest.pages == (if snap.frozenHeader.Some? then old(dest.pages)[0 := snap.frozenHeader.value]
                                     else old(dest.pages))
    ensures r.Ok? ==> dest.room == old(dest.room) - if snap.frozenHeader.Some? then 1 else 0
  {
    ghost var was := dest.pages;
    if snap.frozenHeader.Some? {
      var _ :- dest.WriteAt(0, snap.frozenHeader.value);
      assert dest.pages == was[0 := snap.frozenHeader.value];
    }
    return Ok(());
  }

  /** Reads page 0 back and rewrites it. */
  method PatchDestinationHeader(source: Source, dest: DestFile) returns (r: Result<()>)
    requires |dest.pages| > 0
    modifies dest
    ensures r.Ok? <==> Decodes(source, old(dest.pages)[0]) && old(dest.room) >= 2
    ensures r.Err? && old(dest.room) >= 2 ==> r.error == Corruption
    ensures r.Ok? ==> dest.pages == old(dest.pages)[0 := Patched(source, old(dest.pages)[0])]
    ensures r.Ok? ==> dest.room == old(dest.room) - 2
  {
    ghost var was := dest.pages;
    var _ :- dest.Spend();
    var header := dest.pages[0];
    if !Decodes(source, header) {
      return Err(Corruption);
    }
    var _ :- dest.WriteAt(0, Patched(source, header));
    assert dest.pages == was[0 := Patched(source, header)];
    return Ok(());
  }

  /** Page ids of frozen pages are not zero: page 0 travels as the frozen header. */
  predicate FrozenIdsPositive(snap: Snapshot) {
    0 !in snap.frozenPages
  }

  /** What a finished copy holds. */
  predicate Faithful(source: Source, snap: Snapshot, pages: seq<Image>) {
    && |pages| == Max(source.pageCount, source.physical)
    && (forall id | 0 < id < source.pageCount <= |pages| :: Ok(pages[id]) == SnapshotRead(source, snap, id))
    && |pages| > 0 && HeaderOf(source, snap, pages[0])
  }

  /** A header that decodes, with the snapshot's fields and no salt: the copy opens
      without a WAL. */
  predicate HeaderOf(source: Source, snap: Snapshot, image: Image) {
    && Decodes(source, image) && image.salt == 0
    && SnapshotHeader(source, snap).HeaderImage? && image.fields == SnapshotHeader(source, snap).fields
  }

  /** The operations on the destination: setting its length, the page writes, reading
      and rewriting the header, syncing. */
  function Operations(source: Source, snap: Snapshot): nat {
    1 + source.physical + |Overlaid(snap, source.pageCount)| + (if snap.frozenHeader.Some? then 1 else 0) + 3
  }

  predicate Copies(source: Source, snap: Snapshot, room: nat) {
    Readable(source) && Decodes(source, SnapshotHeader(source, snap)) && room >= Operations(source, snap)
  }

  /** A backup succeeds exactly when every physical page verifies, the snapshot's
      header decodes and no operation on the destination fails. The copy then reads,
      page for page, as the snapshot does, and its header differs from the snapshot's
      in the salt and the checksum only. */
  method RunBackup(source: Source, snap: Snapshot, room: nat) returns (r: Result<seq<Image>>)
    requires source.pageCount > 0 && FrozenIdsPositive(snap)
    ensures r.Ok? <==> Copies(source, snap, room)
    ensures r.Ok? ==> Faithful(source, snap, r.value)
    ensures r.Err? && room >= Operations(source, snap) ==>
              if Readable(source) then r.error == Corruption else FirstUnreadable(source, r.error)
  {
    var dest := new DestFile(room);
    var _ :- dest.SetLen(source.pageCount);
    var _ :- CopyMainFile(source, dest);
    var _ :- OverlayFrozenView(snap, dest, source.pageCount);
    var _ :- OverlayFrozenHeader(snap, dest);
    assert dest.pages[0] == SnapshotHeader(source, snap);
    var _ :- PatchDestinationHeader(source, dest);
    var _ :- dest.Spend();
    return Ok(dest.pages);
  }

  /** Why a backup is refused before anything is created. */
  function Refusal(source: Source, existing: Option<seq<Image>>): Option<Error> {
    if source.memoryBacked then Some(BackupNotSupportedForMemoryPager)
    else if source.encrypted then Some(BackupNotSupportedForEncryptedPager)
    else if existing.Some? then Some(BackupDestinationExists)
    else None
  }

  /** The entry point. `existing` is what is at the destination when it looks, and
      `meanwhile` what appears there before the file is created. What was there when
      it looked is left alone, a failing copy leaves nothing behind; and a file that
      appears in between makes the creation fail and falls to the same clean-up. */
  method BackupTo(source: Source, snap: Snapshot, room: nat, existing: Option<seq<Image>>,
          meanwhile: Option<seq<Image>>)
    returns (r: Result<()>, file: Option<seq<Image>>)
    requires source.pageCount > 0 && FrozenIdsPositive(snap)
    ensures r.Ok? <==> Refusal(source, existing).None? && meanwhile.None? && Copies(source, snap, room)
    ensures r.Ok? ==> file.Some? && Faithful(source, snap, file.value)
    ensures Refusal(source, existing).Some? ==> r == Err(Refusal(source, existing).value) && file == meanwhile
    ensures r.Err? && Refusal(source, existing).None? ==> file.None?
    ensures r.Err? && Refusal(source, existing).None? && meanwhile.None? && room >= Operations(source, snap) ==>
              if Readable(source) then r.error == Corruption else FirstUnreadable(source, r.error)
  {
    if source.memoryBacked {
      return Err(BackupNotSupportedForMemoryPager), meanwhile;
    }
    if source.encrypted {
      return Err(BackupNotSupportedForEncryptedPager), meanwhile;
    }
    if existing.Some? {
      return Err(BackupDestinationExists), meanwhile;
    }
    if meanwhile.Some? {
      return Err(Io), None;
    }
    var copy := RunBackup(source, snap, room);
    if copy.Err? {
      return Err(copy.error), None;
    }
    return Ok(()), Some(copy.value);
  }
}
