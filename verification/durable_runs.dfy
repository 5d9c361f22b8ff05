/** Runs of a collection as what the pager's transactions leave on its pages: commit
    and rollback of pages and header carry the commit and rollback of descriptors. */
module DurableRuns {
  import opened Outcomes
  import opened Collection
  import opened Transactions
  import Steps
  import Runs

  /** A step of some thread; where it ends a transaction, with the operations its
      closure had performed. */
  datatype Act = Act(step: Step, ops: seq<Steps.Op>)

  predicate Commits(s: System, step: Step) {
    step.CommitTxn? && step.durable && ThreadOf(s, step.t).Open?
  }

  predicate GivesUp(s: System, step: Step) {
    step.RollBackTxn? && InTxn(ThreadOf(s, step.t))
  }

  function StepsOf(acts: seq<Act>): seq<Step> {
    if acts == [] then [] else [acts[0].step] + StepsOf(acts[1..])
  }

  /** The transactions that end in the course of the acts. */
  function TxnsOf(s: System, acts: seq<Act>): seq<Runs.Txn>
    decreases |acts|
  {
    if acts == [] then [] else
    var step := acts[0].step;
    (if Commits(s, step) then [Runs.Txn(acts[0].ops, true)]
     else if GivesUp(s, step) then [Runs.Txn(acts[0].ops, false)]
     else []) + TxnsOf(Next(s, step), acts[1..])
  }

  function BaseAfter(s: System, b: Runs.Base, act: Act): Runs.Base {
    if Commits(s, act.step) then Runs.Transaction(b, Runs.Txn(act.ops, true)) else b
  }

  /** The trees do their part: when a transaction commits, the pages it reads are
      those of the descriptor its operations call for. `decode` stands for reading
      the catalog row and its trees. */
  ghost predicate TreesDoTheirPart(s: System, b: Runs.Base, acts: seq<Act>, decode: Reading -> State)
    decreases |acts|
  {
    acts == [] ||
    ((Commits(s, acts[0].step) ==>
        decode(ReadingOf(s.pager)) == Runs.Flushed(Runs.TakeAll(Runs.Begun(b), acts[0].ops)).row) &&
     TreesDoTheirPart(Next(s, acts[0].step), BaseAfter(s, b, acts[0]), acts[1..], decode))
  }

  lemma ActKeepsRow(s: System, b: Runs.Base, act: Act, decode: Reading -> State)
    requires Inv(s) && decode(CommittedReading(s.log)) == b.row
    requires Commits(s, act.step) ==>
               decode(ReadingOf(s.pager)) == Runs.Flushed(Runs.TakeAll(Runs.Begun(b), act.ops)).row
    ensures decode(CommittedReading(Next(s, act.step).log)) == BaseAfter(s, b, act).row
  {
    if Commits(s, act.step) {
      CommitReading(s, act.step.t, act.step.burnt, act.step.checkpoint);
    } else if !act.step.CheckpointTxn? {
      FileUntouched(s, act.step);
    }
  }

  /** In every interleaving of pager steps, committing, failing to commit, rolling
      back, checkpointing and reading, whoever looks at the pages outside a
      transaction or at its begin finds the row that the run of the transactions
      ended so far arrives at. */
  lemma {:induction false} PagesHoldTheRun(s: System, b: Runs.Base, acts: seq<Act>, decode: Reading -> State, t: nat)
    requires Inv(s) && decode(CommittedReading(s.log)) == b.row && TreesDoTheirPart(s, b, acts, decode)
    ensures var n, row := Run(s, StepsOf(acts)), Runs.Run(b, TxnsOf(s, acts)).row;
            && (NobodyInTxn(n) ==> decode(ReadingOf(n.pager)) == row)
            && (ThreadOf(n, t).Token? ==> decode(ReadingOf(Next(n, Begin(t)).pager)) == row)
            && (InTxn(ThreadOf(n, t)) ==> decode(ReadingOf(Next(n, RollBackTxn(t)).pager)) == row)
    decreases |acts|
  {
    if acts == [] {
      RestingReading(s, t);
    } else {
      ActKeepsRow(s, b, acts[0], decode);
      StepKeepsInv(s, acts[0].step);
      PagesHoldTheRun(Next(s, acts[0].step), BaseAfter(s, b, acts[0]), acts[1..], decode, t);
      StepsNext(s, acts);
      TxnsNext(s, b, acts);
    }
  }

  lemma StepsNext(s: System, acts: seq<Act>)
    requires acts != []
    ensures Run(s, StepsOf(acts)) == Run(Next(s, acts[0].step), StepsOf(acts[1..]))
  {
    assert StepsOf(acts)[1..] == StepsOf(acts[1..]);
  }

  lemma TxnsNext(s: System, b: Runs.Base, acts: seq<Act>)
    requires acts != []
    ensures Runs.Run(b, TxnsOf(s, acts)) ==
            Runs.Run(BaseAfter(s, b, acts[0]), TxnsOf(Next(s, acts[0].step), acts[1..]))
  {
    var rest := TxnsOf(Next(s, acts[0].step), acts[1..]);
    if Commits(s, acts[0].step) || GivesUp(s, acts[0].step) {
      var txn := Runs.Txn(acts[0].ops, Commits(s, acts[0].step));
      assert TxnsOf(s, acts) == [txn] + rest;
      assert ([txn] + rest)[1..] == rest;
    } else {
      assert TxnsOf(s, acts) == rest;
    }
  }
}
