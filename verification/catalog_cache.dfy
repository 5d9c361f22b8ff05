/** The in-memory catalog shared by a database's transactions, and when it can
    disagree with what is committed. */
module CatalogCache {
  /** The catalog's whole contents, as far as this protocol is concerned. */
  type Contents = int

  datatype Phase =
    | Ready
    | Recovering   // found the catalog poisoned, about to re-derive it
    | Recovered    // re-derived it, about to clear the flag
    | Checked      // the poison check has passed
    | InBody       // inside the closure, holding the write gate
    | RolledBack   // gate released, the in-memory catalog not yet re-derived
    | Poisoning    // re-deriving it failed, the flag not yet set

  /** `committed` is what is on disk, `staged` what the pager shows including an
      open transaction, `cached` the in-memory handle. */
  datatype State = State(cached: Contents, staged: Contents, committed: Contents, poisoned: bool,
          phases: map<nat, Phase>)

  datatype Step =
    | LoadFlag(t: nat)
    | Recover(t: nat, rederived: bool)
    | ClearFlag(t: nat)
    | Begin(t: nat)
    | Mutate(t: nat, to: Contents)
    | Commit(t: nat, durable: bool)
    | Abort(t: nat)
    | Refresh(t: nat, rederived: bool)
    | SetFlag(t: nat)

  function PhaseOf(s: State, t: nat): Phase {
    if t in s.phases then s.phases[t] else Ready
  }

  predicate GateFree(s: State) {
    forall t | t in s.phases :: !s.phases[t].InBody?
  }

  function At(s: State, t: nat, phase: Phase): State {
    s.(phases := s.phases[t := phase])
  }

  /** One step of Db::transaction; a step its thread is not ready for changes
      nothing. Only the closure, with its commit or rollback, holds the gate. A
      commit that fails returns without re-deriving the catalog. */
  function Next(s: State, step: Step): State {
    match step
    case LoadFlag(t) =>
      if !PhaseOf(s, t).Ready? then s else At(s, t, if s.poisoned then Recovering else Checked)
    case Recover(t, rederived) =>
      if !PhaseOf(s, t).Recovering? then s
      else if rederived then At(s, t, Recovered).(cached := s.staged)
      else At(s, t, Ready)
    case ClearFlag(t) =>
      if PhaseOf(s, t).Recovered? then At(s, t, Checked).(poisoned := false) else s
    case Begin(t) =>
      if PhaseOf(s, t).Checked? && GateFree(s) then At(s, t, InBody) else s
    case Mutate(t, to) =>
      if PhaseOf(s, t).InBody? then s.(cached := to, staged := to) else s
    case Commit(t, durable) =>
      if !PhaseOf(s, t).InBody? then s
      else if durable then At(s, t, Ready).(committed := s.staged)
      else At(s, t, Ready).(staged := s.committed)
    case Abort(t) =>
      if PhaseOf(s, t).InBody? then At(s, t, RolledBack).(staged := s.committed) else s
    case Refresh(t, rederived) =>
      if !PhaseOf(s, t).RolledBack? then s
      else if rederived then At(s, t, Ready).(cached := s.staged)
      else At(s, t, Poisoning)
    case SetFlag(t) =>
      if PhaseOf(s, t).Poisoning? then At(s, t, Ready).(poisoned := true) else s
  }

  function Run(s: State, steps: seq<Step>): State
    decreases |steps|
  {
    if steps == [] then s else Run(Next(s, steps[0]), steps[1..])
  }

  predicate CommitsHold(steps: seq<Step>) {
    forall i | 0 <= i < |steps| && steps[i].Commit? :: steps[i].durable
  }

  function Opened(contents: Contents): State {
    State(contents, contents, contents, false, map[])
  }

  // ---- Exactly when the cache is stale ----

  /** What the steps so far tell about the cache: `mutated` that the open closure has
      made the catalog other than it is committed, `stale` that a closure which had
      done so was abandoned and the cache has neither been re-derived nor written
      since. */
  datatype History = History(mutated: bool, stale: bool)

  predicate Rederives(s: State, step: Step) {
    || (step.Recover? && PhaseOf(s, step.t).Recovering? && step.rederived)
    || (step.Refresh? && PhaseOf(s, step.t).RolledBack? && step.rederived)
  }

  function Note(h: History, s: State, step: Step): History {
    if Rederives(s, step) then h.(stale := false)
    else if step.Mutate? && PhaseOf(s, step.t).InBody? then History(step.to != s.committed, false)
    else if step.Commit? && PhaseOf(s, step.t).InBody? then History(false, h.stale || (h.mutated && !step.durable))
    else if step.Abort? && PhaseOf(s, step.t).InBody? then History(false, h.stale || h.mutated)
    else h
  }

  function NoteAll(h: History, s: State, steps: seq<Step>): History
    decreases |steps|
  {
    if steps == [] then h else NoteAll(Note(h, s, steps[0]), Next(s, steps[0]), steps[1..])
  }

  ghost predicate OneBody(s: State) {
    forall t, u | PhaseOf(s, t).InBody? && PhaseOf(s, u).InBody? :: t == u
  }

  ghost predicate Tracked(h: History, s: State) {
    && (h.mutated <==> s.staged != s.committed)
    && (h.stale <==> s.cached != s.staged)
    && (h.mutated ==> !h.stale) && (GateFree(s) ==> !h.mutated)
    && OneBody(s)
  }

  lemma GateFreeMeans(s: State)
    ensures GateFree(s) <==> forall t :: !PhaseOf(s, t).InBody?
  {
    if GateFree(s) {
      forall t ensures !PhaseOf(s, t).InBody? {}
    } else {
      var t :| t in s.phases && s.phases[t].InBody?;
      assert PhaseOf(s, t).InBody?;
    }
  }

  lemma OpenedIsTracked(contents: Contents)
    ensures Tracked(History(false, false), Opened(contents))
  {}

  /** Who is in a closure after a step. */
  lemma BodiesAfter(s: State, step: Step, t: nat)
    ensures PhaseOf(Next(s, step), t).InBody? <==>
              (PhaseOf(s, t).InBody? && !((step.Commit? || step.Abort?) && step.t == t))
              || (step == Begin(t) && PhaseOf(s, t).Checked? && GateFree(s))
  {}

  lemma StepKeepsTracked(h: History, s: State, step: Step)
    requires Tracked(h, s)
    ensures Tracked(Note(h, s, step), Next(s, step))
  {
    var n := Next(s, step);
    GateFreeMeans(s);
    GateFreeMeans(n);
    forall t ensures PhaseOf(n, t).InBody? <==>
        (PhaseOf(s, t).InBody? && !((step.Commit? || step.Abort?) && step.t == t))
        || (step == Begin(t) && PhaseOf(s, t).Checked? && GateFree(s))
    {
      BodiesAfter(s, step, t);
    }
  }

  /** In every interleaving, failing commits and failing re-derivations included,
      whenever no closure is running the cached catalog is the committed one if and
      only if it is not stale: no closure that had left the catalog changed was rolled
      back, or failed to commit, since it was last written or re-derived. */
  lemma {:induction false} CacheIsCommittedExactly(h: History, s: State, steps: seq<Step>)
    requires Tracked(h, s)
    ensures Tracked(NoteAll(h, s, steps), Run(s, steps))
    ensures GateFree(Run(s, steps)) ==>
              (Run(s, steps).cached == Run(s, steps).committed <==> !NoteAll(h, s, steps).stale)
    decreases |steps|
  {
    if steps != [] {
      StepKeepsTracked(h, s, steps[0]);
      CacheIsCommittedExactly(Note(h, s, steps[0]), Next(s, steps[0]), steps[1..]);
    }
  }

  // ---- Exactly when a stale cache is accounted for ----

  /** Some thread is yet to re-derive the catalog or to flag that it could not. */
  ghost predicate SomeonePending(s: State) {
    exists t :: PhaseOf(s, t).RolledBack? || PhaseOf(s, t).Poisoning?
  }

  /** If the cache differs from what the pager shows, then it is poisoned or somebody
      is pending. */
  ghost predicate Explained(s: State) {
    s.cached == s.staged || s.poisoned || SomeonePending(s)
  }

  ghost predicate ExplainedThroughout(s: State, steps: seq<Step>)
    decreases |steps|
  {
    Explained(s) && (steps == [] || ExplainedThroughout(Next(s, steps[0]), steps[1..]))
  }

  /** The step lets a stale cache go unnoticed: it clears the flag of one that became
      stale after it was re-derived, or fails to commit a closure that left the
      catalog changed. */
  ghost predicate Slips(s: State, step: Step) {
    !SomeonePending(s) &&
    ((step.ClearFlag? && PhaseOf(s, step.t).Recovered? && s.cached != s.staged) ||
     (step.Commit? && !step.durable && PhaseOf(s, step.t).InBody? && s.cached != s.committed && !s.poisoned))
  }

  ghost predicate NothingSlips(s: State, steps: seq<Step>)
    decreases |steps|
  {
    steps == [] || (!Slips(s, steps[0]) && NothingSlips(Next(s, steps[0]), steps[1..]))
  }

  lemma StepExplainedExactly(s: State, step: Step)
    requires Explained(s)
    ensures Explained(Next(s, step)) <==> !Slips(s, step)
  {
    var n := Next(s, step);
    forall t ensures t != step.t ==> PhaseOf(n, t) == PhaseOf(s, t) {}
    if SomeonePending(s) {
      var t :| PhaseOf(s, t).RolledBack? || PhaseOf(s, t).Poisoning?;
      assert t != step.t ==> PhaseOf(n, t) == PhaseOf(s, t);
    }
    if step.Abort? && PhaseOf(s, step.t).InBody? { assert PhaseOf(n, step.t).RolledBack?; }
    if step.Refresh? && PhaseOf(s, step.t).RolledBack? && !step.rederived { assert PhaseOf(n, step.t).Poisoning?; }
    if SomeonePending(n) && !SomeonePending(s) {
      var t :| PhaseOf(n, t).RolledBack? || PhaseOf(n, t).Poisoning?;
      assert t == step.t;
    }
  }

  /** In every interleaving a stale cache is at every moment poisoned or about to be
      re-derived if and only if nothing slips. */
  lemma {:induction false} RunExplainedExactly(s: State, steps: seq<Step>)
    requires Explained(s)
    ensures ExplainedThroughout(s, steps) <==> NothingSlips(s, steps)
    ensures NothingSlips(s, steps) ==> Explained(Run(s, steps))
    decreases |steps|
  {
    if steps != [] {
      StepExplainedExactly(s, steps[0]);
      if Explained(Next(s, steps[0])) { RunExplainedExactly(Next(s, steps[0]), steps[1..]); }
    }
  }

  /** If nothing slips, a catalog that is not poisoned, while no closure is running and
      nobody is pending, is cached as it is committed. */
  lemma RunExplained(h: History, s: State, steps: seq<Step>)
    requires Tracked(h, s) && Explained(s) && NothingSlips(s, steps)
    ensures var n := Run(s, steps);
            GateFree(n) && !n.poisoned && !SomeonePending(n) ==> n.cached == n.committed
  {
    RunExplainedExactly(s, steps);
    CacheIsCommittedExactly(h, s, steps);
  }

  // ---- One thread at a time ----

  predicate OnlyThread(steps: seq<Step>, t: nat) {
    forall i | 0 <= i < |steps| :: steps[i].t == t
  }

  predicate Alone(s: State, t: nat) {
    forall u | u in s.phases :: u == t
  }

  predicate CheckedMeansFresh(s: State, t: nat) {
    && Alone(s, t)
    && match PhaseOf(s, t)
       case Ready => s.staged == s.committed && (s.cached == s.committed || s.poisoned)
       case Recovering => s.staged == s.committed && s.poisoned
       case Recovered => s.cached == s.staged == s.committed
       case Checked => s.cached == s.staged == s.committed && !s.poisoned
       case InBody => s.cached == s.staged && !s.poisoned
       case RolledBack => s.staged == s.committed && !s.poisoned
       case Poisoning => s.staged == s.committed && !s.poisoned
  }

  /** One thread running transactions in turn always starts its closure on the
      committed catalog, however often re-deriving it failed before. */
  lemma {:induction false} AloneAlwaysFresh(s: State, steps: seq<Step>, t: nat)
    requires CheckedMeansFresh(s, t) && OnlyThread(steps, t) && CommitsHold(steps)
    ensures CheckedMeansFresh(Run(s, steps), t)
    ensures PhaseOf(Run(s, steps), t).Checked? ==> Next(Run(s, steps), Begin(t)).cached == Run(s, steps).committed
    decreases |steps|
  {
    if steps != [] {
      assert OnlyThread(steps[1..], t) && CommitsHold(steps[1..]) by {
        assert forall i | 0 <= i < |steps[1..]| :: steps[1..][i] == steps[i + 1];
      }
      assert steps[0].t == t;
      AloneAlwaysFresh(Next(s, steps[0]), steps[1..], t);
    }
  }

  // ---- Where it fails ----

  lemma RunCons(s: State, step: Step, steps: seq<Step>)
    ensures Run(s, [step] + steps) == Run(Next(s, step), steps)
  {
    assert ([step] + steps)[1..] == steps;
  }

  lemma {:induction false} RunConcat(s: State, a: seq<Step>, b: seq<Step>)
    ensures Run(s, a + b) == Run(Run(s, a), b)
    decreases |a|
  {
    if a == [] {
      assert a + b == b;
    } else {
      assert (a + b)[0] == a[0] && (a + b)[1..] == a[1..] + b;
      RunConcat(Next(s, a[0]), a[1..], b);
    }
  }

  lemma RunTwo(s: State, a: Step, b: Step)
    ensures Run(s, [a, b]) == Next(Next(s, a), b)
  {
    RunCons(s, a, [b]);
    assert [a] + [b] == [a, b] && [b][1..] == [];
  }

  lemma RunOne(s: State, a: Step)
    ensures Run(s, [a]) == Next(s, a)
  {
    assert [a][1..] == [];
  }

  /** Thread t passes the check, begins and leaves the catalog changed. */
  function Change(t: nat, to: Contents): seq<Step> {
    [LoadFlag(t), Begin(t), Mutate(t, to)]
  }

  lemma ChangeRun(s: State, t: nat, to: Contents)
    requires PhaseOf(s, t).Ready? && !s.poisoned && GateFree(s)
    ensures Run(s, Change(t, to)) == s.(cached := to, staged := to, phases := s.phases[t := InBody])
  {
    RunCons(s, LoadFlag(t), [Begin(t), Mutate(t, to)]);
    RunCons(Next(s, LoadFlag(t)), Begin(t), [Mutate(t, to)]);
    assert [LoadFlag(t)] + [Begin(t), Mutate(t, to)] == Change(t, to);
    assert [Begin(t)] + [Mutate(t, to)] == [Begin(t), Mutate(t, to)];
    assert [Mutate(t, to)][1..] == [];
    assert s.phases[t := Checked][t := InBody] == s.phases[t := InBody];
  }

  /** Thread t in its closure is rolled back and fails to re-derive the catalog. */
  function AbandonAndFlag(t: nat): seq<Step> {
    [Abort(t), Refresh(t, false)] + [SetFlag(t)]
  }

  lemma AbandonRun(s: State, t: nat)
    requires PhaseOf(s, t).InBody?
    ensures Run(s, AbandonAndFlag(t)) == s.(staged := s.committed, poisoned := true, phases := s.phases[t := Ready])
  {
    RunConcat(s, [Abort(t), Refresh(t, false)], [SetFlag(t)]);
    RunTwo(s, Abort(t), Refresh(t, false));
    RunOne(Next(Next(s, Abort(t)), Refresh(t, false)), SetFlag(t));
    assert s.phases[t := RolledBack][t := Poisoning][t := Ready] == s.phases[t := Ready];
  }

  /** The gate is given up before the cache is re-derived: a thread that had passed
      its check can start in between, on the rolled-back transaction's catalog. */
  lemma RaceStartsOnRolledBackCatalog(clean: Contents, dirty: Contents)
    requires clean != dirty
    ensures var s := Run(Opened(clean), [LoadFlag(1)] + Change(0, dirty) + [Abort(0), Begin(1)]);
            PhaseOf(s, 1).InBody? && s.cached == dirty && s.committed == clean && !s.poisoned
  {
    var s1 := Next(Opened(clean), LoadFlag(1));
    RunOne(Opened(clean), LoadFlag(1));
    RunConcat(Opened(clean), [LoadFlag(1)] + Change(0, dirty), [Abort(0), Begin(1)]);
    RunConcat(Opened(clean), [LoadFlag(1)], Change(0, dirty));
    ChangeRun(s1, 0, dirty);
    RunTwo(Run(s1, Change(0, dirty)), Abort(0), Begin(1));
  }

  /** A failing commit returns without re-deriving the catalog or asking for it: one
      thread alone starts its next closure on the contents that were lost. */
  lemma FailedCommitStartsOnLostCatalog(clean: Contents, lost: Contents)
    requires clean != lost
    ensures var s := Run(Opened(clean), Change(0, lost) + [Commit(0, false)] + [LoadFlag(0), Begin(0)]);
            PhaseOf(s, 0).InBody? && s.cached == lost && s.staged == clean && s.committed == clean && !s.poisoned
  {
    RunConcat(Opened(clean), Change(0, lost) + [Commit(0, false)], [LoadFlag(0), Begin(0)]);
    RunConcat(Opened(clean), Change(0, lost), [Commit(0, false)]);
    ChangeRun(Opened(clean), 0, lost);
    var s1 := Run(Opened(clean), Change(0, lost));
    RunOne(s1, Commit(0, false));
    RunTwo(Next(s1, Commit(0, false)), LoadFlag(0), Begin(0));
  }

  /** Thread 2 is rolled back and flags the catalog while thread 1 has passed its check. */
  function FlagBeforeBegin(first: Contents): seq<Step> {
    [LoadFlag(1)] + Change(2, first) + AbandonAndFlag(2)
  }

  /** Thread 3 re-derives the catalog from the pager while thread 1 has it changed, and
      clears the flag after thread 1 has been rolled back and has set it again. */
  function ClearTooLate(second: Contents): seq<Step> {
    [Begin(1), Mutate(1, second)] + [LoadFlag(3), Recover(3, true)] + AbandonAndFlag(1) + [ClearFlag(3)]
  }

  lemma FlagBeforeBeginRun(clean: Contents, first: Contents)
    ensures Run(Opened(clean), FlagBeforeBegin(first)) ==
            State(first, clean, clean, true, map[1 := Checked, 2 := Ready])
  {
    var s := Next(Opened(clean), LoadFlag(1));
    RunOne(Opened(clean), LoadFlag(1));
    RunConcat(Opened(clean), [LoadFlag(1)] + Change(2, first), AbandonAndFlag(2));
    RunConcat(Opened(clean), [LoadFlag(1)], Change(2, first));
    ChangeRun(s, 2, first);
    AbandonRun(Run(s, Change(2, first)), 2);
  }

  lemma ClearTooLateRun(s: State, second: Contents)
    requires PhaseOf(s, 1).Checked? && PhaseOf(s, 3).Ready? && GateFree(s) && s.poisoned
    ensures var n := Run(s, ClearTooLate(second));
            && n.cached == second && n.staged == n.committed == s.committed && !n.poisoned
            && n.phases == s.phases[1 := Ready][3 := Checked]
  {
    var a, b := [Begin(1), Mutate(1, second)], [LoadFlag(3), Recover(3, true)];
    RunConcat(s, a + b + AbandonAndFlag(1), [ClearFlag(3)]);
    RunConcat(s, a + b, AbandonAndFlag(1));
    RunConcat(s, a, b);
    RunTwo(s, Begin(1), Mutate(1, second));
    RunTwo(Run(s, a), LoadFlag(3), Recover(3, true));
    var t := Run(Run(s, a), b);
    AbandonRun(t, 1);
    RunOne(Run(t, AbandonAndFlag(1)), ClearFlag(3));
  }

  /** No commit fails, both rolled-back threads flag the catalog they could not
      re-derive, all is quiet, and still the cache is a catalog that was never
      committed, with nothing to show for it. */
  lemma LateClearHidesStaleCatalog(clean: Contents, first: Contents, second: Contents)
    requires second != clean
    ensures var steps := FlagBeforeBegin(first) + ClearTooLate(second);
            var s := Run(Opened(clean), steps);
            && CommitsHold(steps)
            && s.cached == second && s.committed == clean && !s.poisoned
            && GateFree(s) && !SomeonePending(s) && PhaseOf(s, 3).Checked?
  {
    RunConcat(Opened(clean), FlagBeforeBegin(first), ClearTooLate(second));
    FlagBeforeBeginRun(clean, first);
    ClearTooLateRun(Run(Opened(clean), FlagBeforeBegin(first)), second);
  }
}
