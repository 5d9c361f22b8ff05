/** The write transaction object: which of its endings does what to the shared
    pager, and that none leaves a lock behind. */
module WriteTransaction {
  import opened Outcomes
  import opened Transactions

  /** What the threads of one process share. */
  class Env {
    var gate: bool
    var pager: Pager
    var readers: map<nat, Reader>

    constructor (pager: Pager)
      ensures !gate && this.pager == pager && readers == map[]
    {
      gate, this.pager, readers := false, pager, map[];
    }
  }

  /** A durable commit, with the checkpoint its threshold may call for. */
  function Published(p: Pager, readers: map<nat, Reader>, checkpoint: bool): Pager {
    var q := if checkpoint then Checkpoint(CommitPending(p), readers) else CommitPending(p);
    q.(depth := if q.depth == 0 then 0 else q.depth - 1)
  }

  // ---- The endings as steps ----

  function RollBackSteps(t: nat): seq<Step> {
    [RollBackTxn(t), ReleaseGate(t), ReleaseFile(t)]
  }

  function CommitSteps(t: nat, durable: bool, burnt: nat, checkpoint: bool): seq<Step> {
    [CommitTxn(t, durable, burnt, checkpoint)] + if durable then [ReleaseGate(t), ReleaseFile(t)] else RollBackSteps(t)
  }

  lemma RunCons(s: System, step: Step, steps: seq<Step>)
    ensures Run(s, [step] + steps) == Run(Next(s, step), steps)
  {
    assert ([step] + steps)[1..] == steps;
  }

  /** Where thread t stands, and what it leaves of the gate, the pager and the readers. */
  predicate Leaves(s: System, t: nat, gate: bool, pager: Pager, readers: map<nat, Reader>) {
    ThreadOf(s, t).Idle? && s.gate == gate && s.pager == pager && s.readers == readers
  }

  lemma ReleaseRun(s: System, t: nat)
    requires ThreadOf(s, t).Finished?
    ensures Leaves(Run(s, [ReleaseGate(t), ReleaseFile(t)]), t, false, s.pager, s.readers)
  {
    RunCons(s, ReleaseGate(t), [ReleaseFile(t)]);
    RunCons(Next(s, ReleaseGate(t)), ReleaseFile(t), []);
    assert [ReleaseGate(t)] + [ReleaseFile(t)] == [ReleaseGate(t), ReleaseFile(t)];
    assert [ReleaseFile(t)] + [] == [ReleaseFile(t)];
  }

  lemma RollBackRun(s: System, t: nat)
    requires InTxn(ThreadOf(s, t))
    ensures Leaves(Run(s, RollBackSteps(t)), t, false, RollBack(s.pager, ThreadOf(s, t).saved), s.readers)
  {
    assert RollBackSteps(t) == [RollBackTxn(t)] + [ReleaseGate(t), ReleaseFile(t)];
    RunCons(s, RollBackTxn(t), [ReleaseGate(t), ReleaseFile(t)]);
    ReleaseRun(Next(s, RollBackTxn(t)), t);
  }

  lemma CommitRun(s: System, t: nat, durable: bool, burnt: nat, checkpoint: bool)
    requires ThreadOf(s, t).Open?
    ensures Leaves(Run(s, CommitSteps(t, durable, burnt, checkpoint)), t, false,
                   if durable then Published(s.pager, s.readers, checkpoint)
                   else RollBack(s.pager.(nextLsn := s.pager.nextLsn + burnt), ThreadOf(s, t).saved), s.readers)
  {
    var n := Next(s, CommitTxn(t, durable, burnt, checkpoint));
    RunCons(s, CommitTxn(t, durable, burnt, checkpoint),
            if durable then [ReleaseGate(t), ReleaseFile(t)] else RollBackSteps(t));
    if durable { ReleaseRun(n, t); } else { RollBackRun(n, t); }
  }

  class WriteTxn {
    const env: Env
    var writeGuard: bool
    var writerLock: bool
    var headerAtBegin: Option<Saved>
    var finished: bool

    ghost predicate Live()
      reads this, env
    {
      !finished && writeGuard && env.gate && headerAtBegin.Some?
    }

    ghost predicate Released()
      reads this, env
    {
      !writeGuard && !writerLock && !env.gate
    }

    /** The object is thread t of the interleaved machine: in its transaction while it
        holds the guard, idle once it has let go of everything. */
    ghost predicate Mirrors(s: System, t: nat)
      reads this, env
    {
      && env.gate == s.gate && env.pager == s.pager && env.readers == s.readers
      && (if writeGuard then headerAtBegin.Some? && ThreadOf(s, t) == Open(headerAtBegin.value)
          else !writerLock && ThreadOf(s, t).Idle?)
    }

    /** Takes over the locks of a successful acquire. */
    constructor FromAcquire(env: Env, writerLock: bool)
      requires env.gate
      modifies env`pager
      ensures this.env == env && Live()
      ensures headerAtBegin == Some(Saved(old(env.pager).live, old(env.pager).view))
      ensures env.pager == old(env.pager).(depth := old(env.pager).depth + 1)
      ensures forall s: System, t: nat | ThreadOf(s, t).Token? && s.gate && s.pager == old(env.pager) &&
                                         s.readers == env.readers :: Mirrors(Next(s, Begin(t)), t)
    {
      this.env, this.writeGuard, this.writerLock := env, true, writerLock;
      this.headerAtBegin := Some(Saved(env.pager.live, env.pager.view));
      this.finished := false;
      new;
      env.pager := env.pager.(depth := env.pager.depth + 1);
    }

    method ReleaseGuard()
      requires writeGuard
      modifies this`writeGuard, env`gate
      ensures !writeGuard && !env.gate
    {
      writeGuard, env.gate := false, false;
    }

    method EndTxn()
      modifies env`pager
      ensures env.pager == old(env.pager).(depth := if old(env.pager).depth == 0 then 0 else old(env.pager).depth - 1)
    {
      env.pager := env.pager.(depth := if env.pager.depth == 0 then 0 else env.pager.depth - 1);
    }

    /** Consumes the transaction. When the WAL cannot be written the object is
        dropped unfinished, which rolls it back. */
    method Commit(durable: bool, burnt: nat, checkpoint: bool) returns (r: Result<()>)
      requires Live()
      modifies this, env`gate, env`pager
      ensures Released()
      ensures durable ==> r.Ok? && env.pager == Published(old(env.pager), env.readers, checkpoint)
      ensures !durable ==>
                && r == Err(Io)
                && env.pager == RollBack(old(env.pager).(nextLsn := old(env.pager).nextLsn + burnt),
                                         old(headerAtBegin.value))
      ensures forall s: System, t: nat | old(Mirrors(s, t)) ::
                Mirrors(Run(s, CommitSteps(t, durable, burnt, checkpoint)), t)
    {
      forall s: System, t: nat | ThreadOf(s, t).Open?
        ensures Leaves(Run(s, CommitSteps(t, durable, burnt, checkpoint)), t, false,
                       if durable then Published(s.pager, s.readers, checkpoint)
                       else RollBack(s.pager.(nextLsn := s.pager.nextLsn + burnt), ThreadOf(s, t).saved), s.readers)
      {
        CommitRun(s, t, durable, burnt, checkpoint);
      }
      if !durable {
        env.pager := env.pager.(nextLsn := env.pager.nextLsn + burnt);
        Drop();
        return Err(Io);
      }
      env.pager := CommitPending(env.pager);
      if checkpoint {
        env.pager := Checkpoint(env.pager, env.readers);
      }
      EndTxn();
      finished := true;
      ReleaseGuard();
      headerAtBegin, writerLock := None, false;
      return Ok(());
    }

    /** Consumes the transaction. When the header cannot be written back the call
        fails and the object is dropped, by then without its saved header: the
        pager ends up the same. */
    method Rollback(headerWritten: bool) returns (r: Result<()>)
      requires Live()
      modifies this, env`gate, env`pager
      ensures Released()
      ensures r.Ok? <==> headerWritten
      ensures env.pager == RollBack(old(env.pager), old(headerAtBegin.value))
      ensures forall s: System, t: nat | old(Mirrors(s, t)) :: Mirrors(Run(s, RollBackSteps(t)), t)
    {
      forall s: System, t: nat | ThreadOf(s, t).Open?
        ensures Leaves(Run(s, RollBackSteps(t)), t, false, RollBack(s.pager, ThreadOf(s, t).saved), s.readers)
      {
        RollBackRun(s, t);
      }
      var saved := headerAtBegin;
      headerAtBegin := None;
      env.pager := env.pager.(pending := map[], dirty := false);
      env.pager := env.pager.(live := saved.value.header, view := saved.value.view);
      if !headerWritten {
        Drop();
        return Err(Io);
      }
      EndTxn();
      finished := true;
      ReleaseGuard();
      writerLock := false;
      return Ok(());
    }

    /** The destructor, also run when a panic unwinds: rolls back what is not
        finished, then gives up the gate and the file lock, in that order. */
    method Drop()
      requires finished || (writeGuard && env.gate)
      requires finished ==> Released()
      modifies this, env`gate, env`pager
      ensures Released()
      ensures old(finished) ==> env.pager == old(env.pager)
      ensures !old(finished) && old(headerAtBegin).Some? ==>
                env.pager == RollBack(old(env.pager), old(headerAtBegin).value)
      ensures !old(finished) && old(headerAtBegin).None? ==>
                env.pager == old(env.pager).(pending := map[], dirty := false,
                                             depth := if old(env.pager).depth == 0 then 0 else old(env.pager).depth - 1)
      ensures forall s: System, t: nat | old(Mirrors(s, t)) ::
                Mirrors(if old(finished) then s else Run(s, RollBackSteps(t)), t)
    {
      forall s: System, t: nat | ThreadOf(s, t).Open?
        ensures Leaves(Run(s, RollBackSteps(t)), t, false, RollBack(s.pager, ThreadOf(s, t).saved), s.readers)
      {
        RollBackRun(s, t);
      }
      if finished {
        return;
      }
      var saved := headerAtBegin;
      headerAtBegin := None;
      env.pager := env.pager.(pending := map[], dirty := false);
      if saved.Some? {
        env.pager := env.pager.(live := saved.value.header, view := saved.value.view);
      }
      EndTxn();
      ReleaseGuard();
      writerLock := false;
    }
  }
}
