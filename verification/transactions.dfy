/** Write and read transactions of one process as interleaved steps: the write
    gate, the pager's commit, rollback and checkpoint, and readers' snapshots. */
module Transactions {
  import opened Outcomes

  /** Page contents; 0 is the zeroed page found where nothing was ever written. */
  type Page = int
  type Header = int
  type PageMap = map<nat, Page>

  /** The pager. `view` overlays the main file with pages committed to the WAL,
      `pending` both with pages of the open transaction. `live` is the in-memory
      header. `resets` counts the times the WAL was started anew. */
  datatype Pager = Pager(pending: PageMap, dirty: bool, live: Header,
          view: PageMap, headerStaged: bool, committedHeader: Header,
          main: PageMap, nextLsn: nat, depth: nat, resets: nat)

  /** What a write transaction saves when it begins. */
  datatype Saved = Saved(header: Header, view: PageMap)

  datatype Thread =
    | Idle
    | Gated                 // holds the in-process guard
    | Token                 // holds the guard and the file lock
    | Open(saved: Saved)    // inside a transaction
    | Failed(saved: Saved)  // commit returned an error, the transaction is being dropped
    | Finished              // committed or rolled back, guard still held
    | FileOnly              // guard released, file lock not yet

  datatype Reader = Reader(pinned: nat, frozen: PageMap, header: Header, resets: nat, at: nat)

  datatype Commit = Commit(pages: PageMap, header: Header)

  /** `log` lists the commits, oldest first; the first stands for what the file
      held. Reader.at is the length of the log when the reader began. */
  datatype System = System(gate: bool, threads: map<nat, Thread>, pager: Pager, readers: map<nat, Reader>,
          log: seq<Commit>)

  // ---- Contents ----

  function FileHolds(p: Pager, id: nat): Page {
    if id in p.main then p.main[id] else 0
  }

  function Overlay(over: PageMap, main: PageMap, id: nat): Page {
    if id in over then over[id] else if id in main then main[id] else 0
  }

  /** A page after the logged commits. */
  function Contents(log: seq<Commit>, id: nat): Page {
    if log == [] then 0
    else if id in log[|log| - 1].pages then log[|log| - 1].pages[id]
    else Contents(log[..|log| - 1], id)
  }

  function HeaderAfter(log: seq<Commit>): Header {
    if log == [] then 0 else log[|log| - 1].header
  }

  ghost predicate Shows(over: PageMap, main: PageMap, log: seq<Commit>) {
    forall id :: Overlay(over, main, id) == Contents(log, id)
  }

  ghost predicate SameContents(a: seq<Commit>, b: seq<Commit>) {
    forall id :: Contents(a, id) == Contents(b, id)
  }

  /** What the open transaction reads. */
  function TxnRead(p: Pager, id: nat): Page {
    if id in p.pending then p.pending[id] else Overlay(p.view, p.main, id)
  }

  /** A reader consults its frozen view, then the main file as it is now. */
  function ReadAs(p: Pager, r: Reader, id: nat): Page {
    Overlay(r.frozen, p.main, id)
  }

  // ---- The pager's operations ----

  function EndLsn(p: Pager): nat {
    if p.nextLsn == 0 then 0 else p.nextLsn - 1
  }

  function Frames(p: Pager): nat {
    |p.pending| + if p.dirty then 1 else 0
  }

  function CommitPending(p: Pager): Pager {
    p.(pending := map[], dirty := false,
       view := p.view + p.pending,
       headerStaged := p.headerStaged || p.dirty,
       committedHeader := if p.dirty then p.live else p.committedHeader,
       nextLsn := p.nextLsn + Frames(p))
  }

  predicate Deferred(p: Pager, readers: map<nat, Reader>) {
    exists r | r in readers :: readers[r].pinned < EndLsn(p)
  }

  predicate TakesEffect(p: Pager, readers: map<nat, Reader>) {
    !Deferred(p, readers) && (p.view != map[] || p.headerStaged)
  }

  /** Folds the view into the main file and starts the WAL anew, at LSN 1, unless
      a live reader is pinned below the end of the WAL. */
  function Checkpoint(p: Pager, readers: map<nat, Reader>): Pager {
    if TakesEffect(p, readers) then
      p.(main := p.main + p.view, view := map[], headerStaged := false, nextLsn := 1, resets := p.resets + 1)
    else p
  }

  function RollBack(p: Pager, saved: Saved): Pager {
    p.(pending := map[], dirty := false, live := saved.header, view := saved.view,
       depth := if p.depth == 0 then 0 else p.depth - 1)
  }

  function Snapshot(p: Pager, at: nat): Reader {
    Reader(EndLsn(p), p.view, p.committedHeader, p.resets, at)
  }

  // ---- Steps ----

  datatype Step =
    | TryGate(t: nat)
    | LockFile(t: nat, granted: bool)
    | DropToken(t: nat)
    | Begin(t: nat)
    | WritePage(t: nat, id: nat, page: Page)
    | UnstagePage(t: nat, id: nat)
    | SetHeader(t: nat, header: Header)
    | CommitTxn(t: nat, durable: bool, burnt: nat, checkpoint: bool)
    | CheckpointTxn(t: nat)
    | RollBackTxn(t: nat)
    | ReleaseGate(t: nat)
    | ReleaseFile(t: nat)
    | BeginRead(r: nat)
    | EndRead(r: nat)

  function ThreadOf(s: System, t: nat): Thread {
    if t in s.threads then s.threads[t] else Idle
  }

  function Moved(s: System, t: nat, th: Thread): System {
    s.(threads := s.threads[t := th])
  }

  predicate HoldsGuard(th: Thread) {
    th.Gated? || th.Token? || th.Open? || th.Failed? || th.Finished?
  }

  predicate InTxn(th: Thread) {
    th.Open? || th.Failed?
  }

  /** One step; a step its thread is not ready for changes nothing. */
  function Next(s: System, step: Step): System {
    match step
    case TryGate(t) =>
      if ThreadOf(s, t).Idle? && !s.gate then Moved(s, t, Gated).(gate := true) else s
    case LockFile(t, granted) =>
      if !ThreadOf(s, t).Gated? then s
      else if granted then Moved(s, t, Token) else Moved(s, t, Idle).(gate := false)
    case DropToken(t) =>
      if ThreadOf(s, t).Token? then Moved(s, t, FileOnly).(gate := false) else s
    case Begin(t) =>
      if !ThreadOf(s, t).Token? then s
      else Moved(s, t, Open(Saved(s.pager.live, s.pager.view))).(pager := s.pager.(depth := s.pager.depth + 1))
    case WritePage(t, id, page) =>
      if ThreadOf(s, t).Open? then s.(pager := s.pager.(pending := s.pager.pending[id := page])) else s
    case UnstagePage(t, id) =>
      if ThreadOf(s, t).Open? then s.(pager := s.pager.(pending := s.pager.pending - {id})) else s
    case SetHeader(t, header) =>
      if ThreadOf(s, t).Open? then s.(pager := s.pager.(live := header, dirty := true)) else s
    case CommitTxn(t, durable, burnt, checkpoint) =>
      if !ThreadOf(s, t).Open? then s
      else if !durable then
        Moved(s, t, Failed(ThreadOf(s, t).saved)).(pager := s.pager.(nextLsn := s.pager.nextLsn + burnt))
      else
        var p := CommitPending(s.pager);
        var q := if checkpoint then Checkpoint(p, s.readers) else p;
        Moved(s, t, Finished).(pager := q.(depth := if q.depth == 0 then 0 else q.depth - 1),
                               log := s.log + [Commit(s.pager.pending, p.committedHeader)])
    case CheckpointTxn(t) =>
      if ThreadOf(s, t).Open? then s.(pager := Checkpoint(s.pager, s.readers)) else s
    case RollBackTxn(t) =>
      if InTxn(ThreadOf(s, t)) then Moved(s, t, Finished).(pager := RollBack(s.pager, ThreadOf(s, t).saved)) else s
    case ReleaseGate(t) =>
      if ThreadOf(s, t).Finished? then Moved(s, t, FileOnly).(gate := false) else s
    case ReleaseFile(t) =>
      if ThreadOf(s, t).FileOnly? then Moved(s, t, Idle) else s
    case BeginRead(r) =>
      if r in s.readers then s else s.(readers := s.readers[r := Snapshot(s.pager, |s.log|)])
    case EndRead(r) =>
      s.(readers := s.readers - {r})
  }

  function Run(s: System, steps: seq<Step>): System
    decreases |steps|
  {
    if steps == [] then s else Run(Next(s, steps[0]), steps[1..])
  }

  function Start(main: PageMap, header: Header): System {
    System(false, map[], Pager(map[], false, header, map[], false, header, main, 1, 0, 0), map[],
           [Commit(main, header)])
  }

  // ---- Invariants ----

  /** At most one guard, and the gate is set exactly while there is one. */
  ghost predicate OneGuard(s: System) {
    && (forall t, u | HoldsGuard(ThreadOf(s, t)) && HoldsGuard(ThreadOf(s, u)) :: t == u)
    && (s.gate <==> exists t :: HoldsGuard(ThreadOf(s, t)))
  }

  /** What a transaction has saved is what was committed. */
  ghost predicate SavedIsCommitted(s: System, t: nat) {
    var th := ThreadOf(s, t);
    InTxn(th) ==> Shows(th.saved.view, s.pager.main, s.log) && th.saved.header == HeaderAfter(s.log)
  }

  ghost predicate NobodyInTxn(s: System) {
    forall t :: !InTxn(ThreadOf(s, t))
  }

  /** The committed state is what the log says; outside transactions nothing is
      staged and the gauge is at rest. */
  ghost predicate CommittedIsLog(s: System) {
    && s.log != [] && s.pager.nextLsn > 0
    && Shows(s.pager.view, s.pager.main, s.log)
    && s.pager.committedHeader == HeaderAfter(s.log)
    && (!s.pager.dirty ==> s.pager.live == s.pager.committedHeader)
    && (forall t :: SavedIsCommitted(s, t))
    && (NobodyInTxn(s) ==> s.pager.pending == map[] && !s.pager.dirty && s.pager.depth == 0)
    && (!NobodyInTxn(s) ==> s.pager.depth == 1)
  }

  /** Within one generation of the WAL, being pinned at its end means being up to
      date. */
  ghost predicate PinsTell(p: Pager, log: seq<Commit>, r: Reader) {
    && r.at <= |log| && r.resets <= p.resets
    && r.header == HeaderAfter(log[..r.at])
    && (r.resets == p.resets ==> r.pinned <= EndLsn(p))
    && (r.resets == p.resets && r.pinned == EndLsn(p) ==> SameContents(log[..r.at], log))
  }

  /** The reader reads every page as it was committed when it began. */
  ghost predicate Isolated(p: Pager, log: seq<Commit>, r: Reader)
    requires r.at <= |log|
  {
    forall id :: ReadAs(p, r, id) == Contents(log[..r.at], id)
  }

  ghost predicate ReaderOk(p: Pager, log: seq<Commit>, r: Reader) {
    PinsTell(p, log, r) && (p.resets <= r.resets + 1 ==> Isolated(p, log, r))
  }

  ghost predicate ReadersOk(s: System) {
    forall r | r in s.readers :: ReaderOk(s.pager, s.log, s.readers[r])
  }

  ghost predicate Inv(s: System) {
    OneGuard(s) && CommittedIsLog(s) && ReadersOk(s)
  }

  // ---- One operation at a time ----

  lemma CommitShows(view: PageMap, main: PageMap, log: seq<Commit>, pending: PageMap, header: Header)
    requires Shows(view, main, log)
    ensures Shows(view + pending, main, log + [Commit(pending, header)])
  {
    var next := log + [Commit(pending, header)];
    assert next[..|next| - 1] == log;
    forall id ensures Overlay(view + pending, main, id) == Contents(next, id) {
      assert Overlay(view, main, id) == Contents(log, id);
    }
  }

  /** Folding the view into the file changes no committed page, whichever view of
      the same contents is laid over it afterwards. */
  lemma CheckpointShows(p: Pager, readers: map<nat, Reader>, over: PageMap, log: seq<Commit>)
    requires Shows(p.view, p.main, log) && Shows(over, p.main, log)
    ensures Shows(Checkpoint(p, readers).view, Checkpoint(p, readers).main, log)
    ensures Shows(over, Checkpoint(p, readers).main, log)
  {
    var q := Checkpoint(p, readers);
    forall id ensures Overlay(q.view, q.main, id) == Contents(log, id) &&
        Overlay(over, q.main, id) == Contents(log, id) {
      assert Overlay(p.view, p.main, id) == Contents(log, id) && Overlay(over, p.main, id) == Contents(log, id);
    }
  }

  lemma EmptyCommitSame(log: seq<Commit>, c: Commit)
    requires c.pages == map[]
    ensures SameContents(log, log + [c])
  {
    assert (log + [c])[..|log|] == log;
  }

  lemma CommitKeepsReader(p: Pager, log: seq<Commit>, r: Reader, header: Header)
    requires p.nextLsn > 0 && ReaderOk(p, log, r)
    ensures ReaderOk(CommitPending(p), log + [Commit(p.pending, header)], r)
  {
    var c := Commit(p.pending, header);
    assert (log + [c])[..r.at] == log[..r.at];
    if Frames(p) == 0 {
      assert p.pending == map[];
      EmptyCommitSame(log, c);
    }
  }

  /** A checkpoint leaves a reader's pages alone as long as the reader was pinned in
      the generation of the WAL that ends with it. */
  lemma CheckpointKeepsReader(p: Pager, readers: map<nat, Reader>, log: seq<Commit>, r: nat)
    requires r in readers && Shows(p.view, p.main, log) && ReaderOk(p, log, readers[r])
    ensures ReaderOk(Checkpoint(p, readers), log, readers[r])
  {
    var q, reader := Checkpoint(p, readers), readers[r];
    if TakesEffect(p, readers) && q.resets <= reader.resets + 1 {
      assert reader.pinned == EndLsn(p);
      forall id ensures ReadAs(q, reader, id) == Contents(log[..reader.at], id) {
        assert ReadAs(p, reader, id) == Contents(log[..reader.at], id);
        assert Overlay(p.view, p.main, id) == Contents(log, id);
        assert Contents(log[..reader.at], id) == Contents(log, id);
      }
    }
  }

  /** A checkpoint of p that is deferred, or folds in, outside what the reader has
      frozen, only what the file already holds. */
  predicate Harmless(p: Pager, readers: map<nat, Reader>, reader: Reader) {
    Deferred(p, readers) || forall id | id in p.view && id !in reader.frozen :: p.view[id] == FileHolds(p, id)
  }

  /** In general a checkpoint keeps what a reader reads exactly if it is harmless. */
  lemma CheckpointDisturbsExactly(p: Pager, readers: map<nat, Reader>, log: seq<Commit>, r: nat)
    requires r in readers && readers[r].at <= |log| && Isolated(p, log, readers[r])
    ensures Isolated(Checkpoint(p, readers), log, readers[r]) <==> Harmless(p, readers, readers[r])
  {
    var q, reader := Checkpoint(p, readers), readers[r];
    if !Deferred(p, readers) {
      forall id ensures ReadAs(p, reader, id) == Contents(log[..reader.at], id) {}
      if Isolated(q, log, reader) {
        forall id | id in p.view && id !in reader.frozen ensures p.view[id] == FileHolds(p, id) {
          assert p.view != map[] && q.main == p.main + p.view;
          assert ReadAs(q, reader, id) == p.view[id] && ReadAs(p, reader, id) == FileHolds(p, id);
          assert ReadAs(q, reader, id) == ReadAs(p, reader, id);
        }
      }
      if forall id | id in p.view && id !in reader.frozen :: p.view[id] == FileHolds(p, id) {
        forall id ensures ReadAs(q, reader, id) == Contents(log[..reader.at], id) {
          assert ReadAs(p, reader, id) == Contents(log[..reader.at], id);
        }
      }
    }
  }

  lemma SnapshotOk(p: Pager, log: seq<Commit>)
    requires Shows(p.view, p.main, log) && p.committedHeader == HeaderAfter(log)
    ensures ReaderOk(p, log, Snapshot(p, |log|))
  {
    assert log[..|log|] == log;
    forall id ensures ReadAs(p, Snapshot(p, |log|), id) == Contents(log, id) {
      assert Overlay(p.view, p.main, id) == Contents(log, id);
    }
  }

  // ---- One step at a time ----

  /** Only TryGate makes a guard. */
  lemma GuardsComeFromTheGate(s: System, step: Step, t: nat)
    requires HoldsGuard(ThreadOf(Next(s, step), t)) && !HoldsGuard(ThreadOf(s, t))
    ensures step == TryGate(t) && !s.gate
  {}

  lemma StepKeepsOneGuard(s: System, step: Step)
    requires OneGuard(s)
    ensures OneGuard(Next(s, step))
  {
    var n := Next(s, step);
    forall t, u | HoldsGuard(ThreadOf(n, t)) && HoldsGuard(ThreadOf(n, u)) ensures t == u {
      if !HoldsGuard(ThreadOf(s, t)) { GuardsComeFromTheGate(s, step, t); }
      if !HoldsGuard(ThreadOf(s, u)) { GuardsComeFromTheGate(s, step, u); }
    }
    if n.gate {
      if step.TryGate? && n != s {
        assert HoldsGuard(ThreadOf(n, step.t));
      } else {
        var t :| HoldsGuard(ThreadOf(s, t));
        assert HoldsGuard(ThreadOf(n, t));
      }
    } else if exists t :: HoldsGuard(ThreadOf(n, t)) {
      var t :| HoldsGuard(ThreadOf(n, t));
      assert HoldsGuard(ThreadOf(s, t));
    }
  }

  /** The step touches neither the pager nor the log. */
  predicate LocksOnly(step: Step) {
    step.TryGate? || step.LockFile? || step.DropToken? || step.ReleaseGate? || step.ReleaseFile?
  }

  lemma OthersOutOfTxn(s: System, t: nat)
    requires OneGuard(s) && HoldsGuard(ThreadOf(s, t))
    ensures forall u | u != t :: !InTxn(ThreadOf(s, u))
  {}

  lemma LocksKeepCommitted(s: System, step: Step)
    requires OneGuard(s) && CommittedIsLog(s) && LocksOnly(step)
    ensures CommittedIsLog(Next(s, step))
  {
    var n := Next(s, step);
    forall t ensures InTxn(ThreadOf(n, t)) <==> InTxn(ThreadOf(s, t)) {}
    forall t ensures SavedIsCommitted(n, t) {
      assert SavedIsCommitted(s, t);
    }
    assert NobodyInTxn(n) <==> NobodyInTxn(s);
  }

  lemma StagingKeepsCommitted(s: System, step: Step)
    requires OneGuard(s) && CommittedIsLog(s)
    requires step.WritePage? || step.UnstagePage? || step.SetHeader?
    ensures CommittedIsLog(Next(s, step))
  {
    var n := Next(s, step);
    forall t ensures SavedIsCommitted(n, t) && ThreadOf(n, t) == ThreadOf(s, t) {
      assert SavedIsCommitted(s, t);
    }
    assert NobodyInTxn(n) <==> NobodyInTxn(s);
    assert InTxn(ThreadOf(s, step.t)) || n == s;
  }

  lemma BeginKeepsCommitted(s: System, t: nat)
    requires OneGuard(s) && CommittedIsLog(s)
    ensures CommittedIsLog(Next(s, Begin(t)))
  {
    var n := Next(s, Begin(t));
    if ThreadOf(s, t).Token? {
      OthersOutOfTxn(s, t);
      assert NobodyInTxn(s);
      assert InTxn(ThreadOf(n, t));
      forall u ensures SavedIsCommitted(n, u) {
        if u != t { assert ThreadOf(n, u) == ThreadOf(s, u); }
      }
    }
  }

  lemma CheckpointKeepsCommitted(s: System, t: nat)
    requires OneGuard(s) && CommittedIsLog(s)
    ensures CommittedIsLog(Next(s, CheckpointTxn(t)))
  {
    var n := Next(s, CheckpointTxn(t));
    if ThreadOf(s, t).Open? {
      CheckpointShows(s.pager, s.readers, s.pager.view, s.log);
      forall u ensures SavedIsCommitted(n, u) && ThreadOf(n, u) == ThreadOf(s, u) {
        assert SavedIsCommitted(s, u);
        if InTxn(ThreadOf(s, u)) { CheckpointShows(s.pager, s.readers, ThreadOf(s, u).saved.view, s.log); }
      }
      assert InTxn(ThreadOf(s, t)) && InTxn(ThreadOf(n, t));
    }
  }

  lemma CommitKeepsCommitted(s: System, t: nat, durable: bool, burnt: nat, checkpoint: bool)
    requires OneGuard(s) && CommittedIsLog(s)
    ensures CommittedIsLog(Next(s, CommitTxn(t, durable, burnt, checkpoint)))
  {
    var n := Next(s, CommitTxn(t, durable, burnt, checkpoint));
    if ThreadOf(s, t).Open? {
      OthersOutOfTxn(s, t);
      assert SavedIsCommitted(s, t) && InTxn(ThreadOf(s, t));
      forall u | u != t ensures !InTxn(ThreadOf(n, u)) { assert ThreadOf(n, u) == ThreadOf(s, u); }
      if durable {
        var p := CommitPending(s.pager);
        CommitShows(s.pager.view, s.pager.main, s.log, s.pager.pending, p.committedHeader);
        CheckpointShows(p, s.readers, p.view, n.log);
      } else {
        assert InTxn(ThreadOf(n, t));
      }
    }
  }

  lemma RollBackKeepsCommitted(s: System, t: nat)
    requires OneGuard(s) && CommittedIsLog(s)
    ensures CommittedIsLog(Next(s, RollBackTxn(t)))
  {
    var n := Next(s, RollBackTxn(t));
    if InTxn(ThreadOf(s, t)) {
      OthersOutOfTxn(s, t);
      assert SavedIsCommitted(s, t);
      forall u ensures !InTxn(ThreadOf(n, u)) { assert u != t ==> ThreadOf(n, u) == ThreadOf(s, u); }
    }
  }

  lemma StepKeepsCommitted(s: System, step: Step)
    requires OneGuard(s) && CommittedIsLog(s)
    ensures CommittedIsLog(Next(s, step))
  {
    match step {
      case Begin(t) => BeginKeepsCommitted(s, t);
      case CheckpointTxn(t) => CheckpointKeepsCommitted(s, t);
      case CommitTxn(t, durable, burnt, checkpoint) => CommitKeepsCommitted(s, t, durable, burnt, checkpoint);
      case RollBackTxn(t) => RollBackKeepsCommitted(s, t);
      case BeginRead(_) => ReadingKeepsCommitted(s, step);
      case EndRead(_) => ReadingKeepsCommitted(s, step);
      case WritePage(_, _, _) => StagingKeepsCommitted(s, step);
      case UnstagePage(_, _) => StagingKeepsCommitted(s, step);
      case SetHeader(_, _) => StagingKeepsCommitted(s, step);
      case _ => LocksKeepCommitted(s, step);
    }
  }

  lemma ReadingKeepsCommitted(s: System, step: Step)
    requires CommittedIsLog(s) && (step.BeginRead? || step.EndRead?)
    ensures CommittedIsLog(Next(s, step))
  {
    var n := Next(s, step);
    forall t ensures SavedIsCommitted(n, t) && ThreadOf(n, t) == ThreadOf(s, t) {
      assert SavedIsCommitted(s, t);
    }
  }

  /** Only a durable commit and a checkpoint touch the log, the file or the
      generation of the WAL; a failing commit may use up sequence numbers. */
  lemma FileUntouched(s: System, step: Step)
    requires !(step.CommitTxn? && step.durable && ThreadOf(s, step.t).Open?) && !step.CheckpointTxn?
    ensures var n := Next(s, step);
            && n.log == s.log && n.pager.main == s.pager.main
            && n.pager.resets == s.pager.resets && n.pager.nextLsn >= s.pager.nextLsn
  {}

  lemma ReaderUntouched(p: Pager, q: Pager, log: seq<Commit>, r: Reader)
    requires p.nextLsn > 0 && ReaderOk(p, log, r)
    requires q.main == p.main && q.resets == p.resets && q.nextLsn >= p.nextLsn
    ensures ReaderOk(q, log, r)
  {
    if p.resets <= r.resets + 1 {
      forall id ensures ReadAs(q, r, id) == Contents(log[..r.at], id) {
        assert ReadAs(p, r, id) == Contents(log[..r.at], id);
      }
    }
  }

  lemma CommitKeepsReaders(s: System, step: Step, r: nat)
    requires CommittedIsLog(s) && r in s.readers && ReaderOk(s.pager, s.log, s.readers[r])
    requires step.CommitTxn? && step.durable && ThreadOf(s, step.t).Open?
    ensures ReaderOk(Next(s, step).pager, Next(s, step).log, s.readers[r])
  {
    var n, p := Next(s, step), CommitPending(s.pager);
    CommitShows(s.pager.view, s.pager.main, s.log, s.pager.pending, p.committedHeader);
    CommitKeepsReader(s.pager, s.log, s.readers[r], p.committedHeader);
    CheckpointKeepsReader(p, s.readers, n.log, r);
    var q := if step.checkpoint then Checkpoint(p, s.readers) else p;
    ReaderUntouched(q, n.pager, n.log, s.readers[r]);
  }

  lemma StepKeepsReaders(s: System, step: Step)
    requires CommittedIsLog(s) && ReadersOk(s)
    ensures ReadersOk(Next(s, step))
  {
    var n := Next(s, step);
    forall r | r in n.readers ensures ReaderOk(n.pager, n.log, n.readers[r]) {
      if r !in s.readers {
        SnapshotOk(s.pager, s.log);
      } else if step.CommitTxn? && step.durable && ThreadOf(s, step.t).Open? {
        CommitKeepsReaders(s, step, r);
      } else if step.CheckpointTxn? {
        CheckpointKeepsReader(s.pager, s.readers, s.log, r);
      } else {
        FileUntouched(s, step);
        ReaderUntouched(s.pager, n.pager, s.log, s.readers[r]);
      }
    }
  }

  // ---- Every run ----

  lemma StartIsGood(main: PageMap, header: Header)
    ensures Inv(Start(main, header))
  {
    var s := Start(main, header);
    forall id ensures Overlay(map[], main, id) == Contents(s.log, id) {
      assert s.log[..0] == [];
    }
    forall t ensures !InTxn(ThreadOf(s, t)) {}
  }

  lemma StepKeepsInv(s: System, step: Step)
    requires Inv(s)
    ensures Inv(Next(s, step))
  {
    StepKeepsOneGuard(s, step);
    StepKeepsCommitted(s, step);
    StepKeepsReaders(s, step);
  }

  /** In every interleaving there is at most one write guard and the gate is set
      exactly while there is one; what is committed is the fold of the committed
      transactions; and a live reader reads what was committed when it began, up to
      the first checkpoint that takes effect after it began and beyond it up to the
      next. */
  lemma {:induction false} RunKeepsInv(s: System, steps: seq<Step>)
    requires Inv(s)
    ensures Inv(Run(s, steps))
    decreases |steps|
  {
    if steps != [] {
      StepKeepsInv(s, steps[0]);
      RunKeepsInv(Next(s, steps[0]), steps[1..]);
    }
  }

  /** A transaction rolled back, dropped or failing to commit leaves every page and
      the header as committed before it. */
  lemma RollBackRestores(s: System, t: nat)
    requires Inv(s) && InTxn(ThreadOf(s, t))
    ensures var n := Next(s, RollBackTxn(t));
            && n.log == s.log && n.pager.live == HeaderAfter(s.log)
            && forall id :: TxnRead(n.pager, id) == Contents(s.log, id)
  {
    StepKeepsCommitted(s, RollBackTxn(t));
    var n := Next(s, RollBackTxn(t));
    assert SavedIsCommitted(s, t);
    forall id ensures TxnRead(n.pager, id) == Contents(s.log, id) {
      assert Overlay(n.pager.view, n.pager.main, id) == Contents(n.log, id);
    }
  }

  /** A commit makes exactly the staged pages and header the committed ones. */
  lemma CommitPublishes(s: System, t: nat, burnt: nat, checkpoint: bool, id: nat)
    requires Inv(s) && ThreadOf(s, t).Open?
    ensures var n := Next(s, CommitTxn(t, true, burnt, checkpoint));
            && TxnRead(n.pager, id) == TxnRead(s.pager, id)
            && n.pager.committedHeader == s.pager.live && n.pager.pending == map[]
  {
    StepKeepsCommitted(s, CommitTxn(t, true, burnt, checkpoint));
    var n := Next(s, CommitTxn(t, true, burnt, checkpoint));
    assert n.log[..|s.log|] == s.log;
    assert Overlay(n.pager.view, n.pager.main, id) == Contents(n.log, id);
    assert Overlay(s.pager.view, s.pager.main, id) == Contents(s.log, id);
  }

  // ---- Within one transaction ----

  /** What the transaction of thread t reads of a page after some steps: what it last
      wrote there, or what was committed if it last took its write back. */
  function LastWritten(steps: seq<Step>, t: nat, id: nat, committed: Page, before: Page): Page {
    if steps == [] then before else
    var earlier := LastWritten(steps[..|steps| - 1], t, id, committed, before);
    match steps[|steps| - 1]
    case WritePage(u, i, page) => if u == t && i == id then page else earlier
    case UnstagePage(u, i) => if u == t && i == id then committed else earlier
    case _ => earlier
  }

  function LastHeader(steps: seq<Step>, t: nat, before: Header): Header {
    if steps == [] then before else
    var last := steps[|steps| - 1];
    if last.SetHeader? && last.t == t then last.header else LastHeader(steps[..|steps| - 1], t, before)
  }

  /** None of the steps ends the transaction of thread t. */
  predicate StaysOpen(steps: seq<Step>, t: nat) {
    forall i | 0 <= i < |steps| :: (steps[i].CommitTxn? || steps[i].RollBackTxn?) ==> steps[i].t != t
  }

  /** A step that does not end the transaction changes what it reads by its own writes
      only; a checkpoint inside it leaves committed pages as they read. */
  lemma StepWithinTxn(s: System, step: Step, t: nat, id: nat)
    requires OneGuard(s) && ThreadOf(s, t).Open? && StaysOpen([step], t)
    ensures var n := Next(s, step);
            var committed := Overlay(s.pager.view, s.pager.main, id);
            && OneGuard(n) && ThreadOf(n, t) == ThreadOf(s, t)
            && Overlay(n.pager.view, n.pager.main, id) == committed
            && TxnRead(n.pager, id) == LastWritten([step], t, id, committed, TxnRead(s.pager, id))
            && n.pager.live == LastHeader([step], t, s.pager.live)
  {
    assert [step][0] == step && [step][..0] == [];
    StepKeepsOneGuard(s, step);
    OthersOutOfTxn(s, t);
    if step.Begin? { assert HoldsGuard(ThreadOf(s, t)); }
  }

  /** A transaction reads its own writes: whatever other threads and readers do in
      between, each page is what it last wrote, and every other staged page and the
      header stay as they were. */
  lemma {:induction false} ReadsOwnWrites(s: System, steps: seq<Step>, t: nat, id: nat)
    requires OneGuard(s) && ThreadOf(s, t).Open? && StaysOpen(steps, t)
    ensures var n := Run(s, steps);
            var committed := Overlay(s.pager.view, s.pager.main, id);
            && OneGuard(n) && ThreadOf(n, t) == ThreadOf(s, t)
            && Overlay(n.pager.view, n.pager.main, id) == committed
            && TxnRead(n.pager, id) == LastWritten(steps, t, id, committed, TxnRead(s.pager, id))
            && n.pager.live == LastHeader(steps, t, s.pager.live)
    decreases |steps|
  {
    if steps != [] {
      var front, last := steps[..|steps| - 1], steps[|steps| - 1];
      assert steps == front + [last] && [last][0] == last && [last][..0] == [];
      assert StaysOpen([last], t) by { assert steps[|steps| - 1] == last; }
      assert StaysOpen(front, t) by { assert forall i | 0 <= i < |front| :: front[i] == steps[i]; }
      ReadsOwnWrites(s, front, t, id);
      RunSnoc(s, front, last);
      StepWithinTxn(Run(s, front), last, t, id);
    }
  }

  // ---- Everything a transaction can see ----

  /** All pages and the header. */
  type Reading = (imap<nat, Page>, Header)

  ghost function ReadingOf(p: Pager): Reading {
    (imap id: nat | true :: TxnRead(p, id), p.live)
  }

  ghost function CommittedReading(log: seq<Commit>): Reading {
    (imap id: nat | true :: Contents(log, id), HeaderAfter(log))
  }

  lemma ShownIsRead(p: Pager, log: seq<Commit>)
    requires p.pending == map[] && Shows(p.view, p.main, log) && p.live == HeaderAfter(log)
    ensures ReadingOf(p) == CommittedReading(log)
  {
    forall id: nat ensures TxnRead(p, id) == Contents(log, id) {
      assert Overlay(p.view, p.main, id) == Contents(log, id);
    }
    assert ReadingOf(p).0 == CommittedReading(log).0;
  }

  /** Outside transactions, and so at the begin of the next, what can be read is what
      was committed, and a rollback comes back to that. */
  lemma RestingReading(s: System, t: nat)
    requires Inv(s)
    ensures NobodyInTxn(s) ==> ReadingOf(s.pager) == CommittedReading(s.log)
    ensures ThreadOf(s, t).Token? ==> ReadingOf(Next(s, Begin(t)).pager) == CommittedReading(s.log)
    ensures InTxn(ThreadOf(s, t)) ==> ReadingOf(Next(s, RollBackTxn(t)).pager) == CommittedReading(s.log)
  {
    if NobodyInTxn(s) { ShownIsRead(s.pager, s.log); }
    if ThreadOf(s, t).Token? {
      assert HoldsGuard(ThreadOf(s, t));
      forall u ensures !InTxn(ThreadOf(s, u)) {
        assert HoldsGuard(ThreadOf(s, u)) ==> u == t;
      }
      assert NobodyInTxn(s);
      ShownIsRead(Next(s, Begin(t)).pager, s.log);
    }
    if InTxn(ThreadOf(s, t)) {
      RollBackRestores(s, t);
      var p := Next(s, RollBackTxn(t)).pager;
      assert SavedIsCommitted(s, t);
      ShownIsRead(p, s.log);
    }
  }

  /** A commit makes what its transaction read the committed reading. */
  lemma CommitReading(s: System, t: nat, burnt: nat, checkpoint: bool)
    requires Inv(s) && ThreadOf(s, t).Open?
    ensures CommittedReading(Next(s, CommitTxn(t, true, burnt, checkpoint)).log) == ReadingOf(s.pager)
  {
    var n := Next(s, CommitTxn(t, true, burnt, checkpoint));
    assert n.log[..|s.log|] == s.log;
    forall id: nat ensures Contents(n.log, id) == TxnRead(s.pager, id) {
      assert Overlay(s.pager.view, s.pager.main, id) == Contents(s.log, id);
    }
    assert CommittedReading(n.log).0 == ReadingOf(s.pager).0;
  }

  // ---- Isolation over a run, exactly ----

  /** The pager a step checkpoints, if it does. */
  function Checkpointed(s: System, step: Step): Option<Pager> {
    if step.CheckpointTxn? && ThreadOf(s, step.t).Open? then Some(s.pager)
    else if step.CommitTxn? && step.durable && step.checkpoint && ThreadOf(s, step.t).Open?
        then Some(CommitPending(s.pager))
    else None
  }

  predicate HarmlessRun(s: System, steps: seq<Step>, reader: Reader)
    decreases |steps|
  {
    steps == [] ||
    (var c := Checkpointed(s, steps[0]);
     (c.None? || Harmless(c.value, s.readers, reader)) && HarmlessRun(Next(s, steps[0]), steps[1..], reader))
  }

  /** The reader reads its begin state now and after each step. */
  ghost predicate IsolatedThroughout(s: System, steps: seq<Step>, reader: Reader)
    decreases |steps|
  {
    reader.at <= |s.log| && Isolated(s.pager, s.log, reader) &&
    (steps == [] || IsolatedThroughout(Next(s, steps[0]), steps[1..], reader))
  }

  /** What the log says of the past does not change. */
  lemma PastKept(s: System, step: Step, at: nat)
    requires at <= |s.log|
    ensures at <= |Next(s, step).log| && Next(s, step).log[..at] == s.log[..at]
  {}

  lemma CheckpointedFile(s: System, step: Step)
    requires Checkpointed(s, step).Some?
    ensures var p := Checkpointed(s, step).value;
            p.main == s.pager.main && Next(s, step).pager.main == Checkpoint(p, s.readers).main
  {
    if step.CommitTxn? {
      var p := CommitPending(s.pager);
      var q := Checkpoint(p, s.readers);
      assert Checkpointed(s, step) == Some(p);
      assert Next(s, step).pager == q.(depth := if q.depth == 0 then 0 else q.depth - 1);
    }
  }

  /** Only a checkpoint changes the file. */
  lemma UncheckpointedFile(s: System, step: Step)
    requires Checkpointed(s, step).None?
    ensures Next(s, step).pager.main == s.pager.main
  {}

  lemma SameFileSameReads(p: Pager, q: Pager, log: seq<Commit>, log': seq<Commit>, reader: Reader)
    requires q.main == p.main && reader.at <= |log| && reader.at <= |log'| && log'[..reader.at] == log[..reader.at]
    ensures Isolated(p, log, reader) <==> Isolated(q, log', reader)
  {
    forall id ensures ReadAs(p, reader, id) == ReadAs(q, reader, id) {}
    if Isolated(p, log, reader) {
      forall id ensures ReadAs(q, reader, id) == Contents(log'[..reader.at], id) {
        assert ReadAs(p, reader, id) == Contents(log[..reader.at], id);
      }
    }
    if Isolated(q, log', reader) {
      forall id ensures ReadAs(p, reader, id) == Contents(log[..reader.at], id) {
        assert ReadAs(q, reader, id) == Contents(log'[..reader.at], id);
      }
    }
  }

  /** A live reader reads its begin state all along a run exactly if every
      checkpoint of the run is harmless to it. */
  lemma {:induction false} IsolationExactly(s: System, steps: seq<Step>, r: nat)
    requires r in s.readers && s.readers[r].at <= |s.log| && Isolated(s.pager, s.log, s.readers[r])
    requires forall i | 0 <= i < |steps| :: steps[i] != EndRead(r)
    ensures IsolatedThroughout(s, steps, s.readers[r]) <==> HarmlessRun(s, steps, s.readers[r])
    decreases |steps|
  {
    if steps != [] {
      var reader, n, c := s.readers[r], Next(s, steps[0]), Checkpointed(s, steps[0]);
      if c.Some? { CheckpointedFile(s, steps[0]); } else { UncheckpointedFile(s, steps[0]); }
      PastKept(s, steps[0], reader.at);
      StaysLive(s, steps[0], r);
      var p := if c.Some? then c.value else s.pager;
      SameFileSameReads(s.pager, p, s.log, s.log, reader);
      CheckpointDisturbsExactly(p, s.readers, s.log, r);
      SameFileSameReads(if c.Some? then Checkpoint(p, s.readers) else p, n.pager, s.log, n.log, reader);
      if Isolated(n.pager, n.log, reader) {
        assert forall i | 0 <= i < |steps[1..]| :: steps[1..][i] == steps[i + 1];
        IsolationExactly(n, steps[1..], r);
      }
    }
  }

  lemma StaysLive(s: System, step: Step, r: nat)
    requires r in s.readers && step != EndRead(r)
    ensures r in Next(s, step).readers && Next(s, step).readers[r] == s.readers[r]
  {}

  // ---- Where isolation ends ----

  lemma {:induction false} RunSnoc(s: System, steps: seq<Step>, step: Step)
    ensures Run(s, steps + [step]) == Next(Run(s, steps), step)
    decreases |steps|
  {
    if steps == [] {
      assert [step][1..] == [];
    } else {
      assert (steps + [step])[0] == steps[0] && (steps + [step])[1..] == steps[1..] + [step];
      RunSnoc(Next(s, steps[0]), steps[1..], step);
    }
  }

  /** Thread 0 may start a transaction. */
  predicate Quiet(s: System) {
    && ThreadOf(s, 0).Idle? && !s.gate
    && s.pager.pending == map[] && !s.pager.dirty && s.pager.depth == 0 && s.pager.live == s.pager.committedHeader
  }

  lemma OpenQuietly(start: System, steps: seq<Step>) returns (more: seq<Step>)
    requires Quiet(Run(start, steps))
    ensures var s, n := Run(start, steps), Run(start, more);
            && ThreadOf(n, 0) == Open(Saved(s.pager.live, s.pager.view)) && n.gate
            && n.pager == s.pager.(depth := 1) && n.readers == s.readers && n.log == s.log
  {
    RunSnoc(start, steps, TryGate(0));
    more := steps + [TryGate(0)];
    RunSnoc(start, more, LockFile(0, true));
    more := more + [LockFile(0, true)];
    RunSnoc(start, more, Begin(0));
    more := more + [Begin(0)];
  }

  lemma LeaveQuietly(start: System, steps: seq<Step>) returns (more: seq<Step>)
    requires ThreadOf(Run(start, steps), 0).Finished?
    ensures var s, n := Run(start, steps), Run(start, more);
            n == s.(gate := false, threads := s.threads[0 := Idle])
  {
    RunSnoc(start, steps, ReleaseGate(0));
    more := steps + [ReleaseGate(0)];
    RunSnoc(start, more, ReleaseFile(0));
    more := more + [ReleaseFile(0)];
    var s := Run(start, steps);
    assert s.threads[0 := FileOnly][0 := Idle] == s.threads[0 := Idle];
  }

  function WithPage(p: Pager, id: nat, page: Page): Pager {
    p.(view := p.view + map[id := page], nextLsn := p.nextLsn + 1)
  }

  lemma CommitOnePage(s: System, id: nat, page: Page, checkpoint: bool)
    requires ThreadOf(s, 0).Open? && s.pager.pending == map[] && !s.pager.dirty && s.pager.depth == 1
    ensures var n := Next(Next(s, WritePage(0, id, page)), CommitTxn(0, true, 0, checkpoint));
            var p := WithPage(s.pager, id, page);
            && n.pager == (if checkpoint then Checkpoint(p, s.readers) else p).(depth := 0)
            && ThreadOf(n, 0).Finished? && n.readers == s.readers
            && n.log == s.log + [Commit(map[id := page], s.pager.committedHeader)]
  {
    var m := Next(s, WritePage(0, id, page));
    assert m.pager.pending == map[id := page];
    assert CommitPending(m.pager) == WithPage(s.pager, id, page);
  }

  lemma WriteQuietly(start: System, steps: seq<Step>, id: nat, page: Page, checkpoint: bool) returns (more: seq<Step>)
    requires Quiet(Run(start, steps))
    ensures var s, n := Run(start, steps), Run(start, more);
            && n.pager == (if checkpoint then Checkpoint(WithPage(s.pager, id, page), s.readers)
                else WithPage(s.pager, id, page))
            && Quiet(n) && n.readers == s.readers
            && n.log == s.log + [Commit(map[id := page], s.pager.committedHeader)]
  {
    more := OpenQuietly(start, steps);
    CommitOnePage(Run(start, more), id, page, checkpoint);
    RunSnoc(start, more, WritePage(0, id, page));
    more := more + [WritePage(0, id, page)];
    RunSnoc(start, more, CommitTxn(0, true, 0, checkpoint));
    more := more + [CommitTxn(0, true, 0, checkpoint)];
    more := LeaveQuietly(start, more);
  }

  lemma CheckpointQuietly(start: System, steps: seq<Step>) returns (more: seq<Step>)
    requires Quiet(Run(start, steps))
    ensures var s, n := Run(start, steps), Run(start, more);
            && Quiet(n) && n.readers == s.readers && n.log == s.log
            && n.pager == Checkpoint(s.pager, s.readers).(view := s.pager.view)
  {
    more := OpenQuietly(start, steps);
    RunSnoc(start, more, CheckpointTxn(0));
    more := more + [CheckpointTxn(0)];
    RunSnoc(start, more, RollBackTxn(0));
    more := more + [RollBackTxn(0)];
    more := LeaveQuietly(start, more);
  }

  const AFTER_PIN := Pager(map[], false, 0, map[9 := 5], false, 0, map[7 := 1], 2, 0, 0)
  const AFTER_RESET := Pager(map[], false, 0, map[9 := 5], false, 0, map[7 := 1, 9 := 5], 1, 0, 1)
  const OLD_READER := Reader(1, map[9 := 5], 0, 0, 2)

  lemma OldReaderIsPassedOver()
    ensures var readers := map[0 := OLD_READER];
            && Checkpoint(AFTER_PIN, readers).(view := AFTER_PIN.view) == AFTER_RESET
            && Checkpoint(WithPage(AFTER_RESET, 7, 2), readers).resets == 2
            && ReadAs(Checkpoint(WithPage(AFTER_RESET, 7, 2), readers), OLD_READER, 7) == 2
  {
    assert 9 in AFTER_PIN.view && AFTER_PIN.main + AFTER_PIN.view == AFTER_RESET.main;
    assert 7 in WithPage(AFTER_RESET, 7, 2).view;
  }

  /** A run in which a reader sees a later commit. The reader pins LSN 1 while page
      7 is in the file; a first checkpoint starts the WAL anew at LSN 1 without
      waiting, since nothing was committed after the pin; a second transaction
      commits page 7; the end of the WAL is then LSN 1 again, the second checkpoint
      finds nobody pinned below it and folds the page under the reader. */
  lemma SecondCheckpointBreaksIsolation() returns (steps: seq<Step>)
    ensures var s := Run(Start(map[7 := 1], 0), steps);
            && 0 in s.readers && s.readers[0].at <= |s.log|
            && Contents(s.log[..s.readers[0].at], 7) == 1
            && ReadAs(s.pager, s.readers[0], 7) == 2
            && s.pager.resets == s.readers[0].resets + 2
  {
    var start := Start(map[7 := 1], 0);
    var empty: seq<Step> := [];
    OldReaderIsPassedOver();
    steps := WriteQuietly(start, empty, 9, 5, false);
    var log1 := Run(start, steps).log;
    assert Run(start, steps).pager == AFTER_PIN && |log1| == 2 && log1[..1] == start.log;
    RunSnoc(start, steps, BeginRead(0));
    steps := steps + [BeginRead(0)];
    assert Run(start, steps).readers == map[0 := OLD_READER];
    steps := CheckpointQuietly(start, steps);
    steps := WriteQuietly(start, steps, 7, 2, true);
    assert Run(start, steps).log[..2] == log1;
    assert start.log[..0] == [];
  }
}
