/** The per-handle error slot of the C interface: a ring of sixteen owned strings
    and a borrowed pointer to the latest, under concurrent callers. */
module ErrorRing {
  import opened Outcomes

  const ERROR_RING_LEN: nat := 16
  const WORD: nat := 0x1_0000_0000_0000_0000

  /** A heap string, told apart by when it was allocated. */
  type Ptr = nat

  /** Where a thread is in set_error. `call` numbers calls in the order of their
      swaps, from 0. */
  datatype Phase =
    | Idle
    | Built(raw: Ptr)
    | Entered(raw: Ptr)
    | Claimed(raw: Ptr, slot: nat)
    | Swapped(raw: Ptr, displaced: Option<Ptr>, call: nat)
    | Published(displaced: Option<Ptr>, call: nat)
    | Left(displaced: Option<Ptr>, call: nat)

  /** What ended a string's life. */
  datatype Freer = ByCall(call: nat) | ByDrop

  /** `recorded` lists the strings in the order of their swaps; `misfreed` is set
      when a string is freed that is not allocated. */
  datatype State = State(slots: seq<Option<Ptr>>, seqNo: nat, last: Option<Ptr>, holder: Option<nat>,
          threads: map<nat, Phase>,
          recorded: seq<Ptr>, heapNext: nat, freed: map<Ptr, Freer>, misfreed: bool)

  datatype Step =
    | Build(t: nat)
    | Enter(t: nat)
    | Claim(t: nat)
    | Swap(t: nat)
    | Publish(t: nat)
    | Leave(t: nat)
    | Reclaim(t: nat)

  function PhaseOf(s: State, t: nat): Phase {
    if t in s.threads then s.threads[t] else Idle
  }

  function At(s: State, t: nat, p: Phase): State {
    s.(threads := s.threads[t := p])
  }

  /** Allocated and not freed. */
  predicate Live(s: State, p: Ptr) {
    p < s.heapNext && p !in s.freed
  }

  function Free(s: State, p: Ptr, freer: Freer): State {
    if Live(s, p) then s.(freed := s.freed[p := freer]) else s.(misfreed := true)
  }

  function FreeDisplaced(s: State, d: Option<Ptr>, freer: Freer): State {
    if d.Some? then Free(s, d.value, freer) else s
  }

  /** The atomic steps of set_error: allocate, lock, fetch_add, swap, store, unlock,
      free. A step its thread is not ready for changes nothing. */
  function Next(s: State, step: Step): State
    requires |s.slots| == ERROR_RING_LEN
  {
    match step
    case Build(t) =>
      if PhaseOf(s, t).Idle? then At(s, t, Built(s.heapNext)).(heapNext := s.heapNext + 1) else s
    case Enter(t) =>
      if PhaseOf(s, t).Built? && s.holder.None? then At(s, t, Entered(PhaseOf(s, t).raw)).(holder := Some(t)) else s
    case Claim(t) =>
      if PhaseOf(s, t).Entered? then
        At(s, t, Claimed(PhaseOf(s, t).raw, s.seqNo % ERROR_RING_LEN)).(seqNo := (s.seqNo + 1) % WORD)
      else s
    case Swap(t) =>
      var p := PhaseOf(s, t);
      if p.Claimed? && p.slot < ERROR_RING_LEN then
        At(s, t, Swapped(p.raw, s.slots[p.slot], |s.recorded|))
          .(slots := s.slots[p.slot := Some(p.raw)], recorded := s.recorded + [p.raw])
      else s
    case Publish(t) =>
      var p := PhaseOf(s, t);
      if p.Swapped? then At(s, t, Published(p.displaced, p.call)).(last := Some(p.raw)) else s
    case Leave(t) =>
      var p := PhaseOf(s, t);
      if p.Published? then At(s, t, Left(p.displaced, p.call)).(holder := None) else s
    case Reclaim(t) =>
      var p := PhaseOf(s, t);
      if p.Left? then FreeDisplaced(At(s, t, Idle), p.displaced, ByCall(p.call)) else s
  }

  function Run(s: State, steps: seq<Step>): (n: State)
    requires |s.slots| == ERROR_RING_LEN
    ensures |n.slots| == ERROR_RING_LEN
    decreases |steps|
  {
    if steps == [] then s else Run(Next(s, steps[0]), steps[1..])
  }

  /** The destructor frees what the slots still own. */
  function DropFrom(s: State, i: nat): State
    requires i <= |s.slots|
    decreases |s.slots| - i
  {
    if i == |s.slots| then s else DropFrom(FreeDisplaced(s, s.slots[i], ByDrop), i + 1)
  }

  function Opened(): State {
    State(seq(ERROR_RING_LEN, _ => None), 0, None, None, map[], [], 0, map[], false)
  }

  // ---- Invariant ----

  predicate InLock(p: Phase) {
    p.Entered? || p.Claimed? || p.Swapped? || p.Published?
  }

  predicate HasRaw(p: Phase) {
    p.Built? || p.Entered? || p.Claimed?
  }

  predicate HasDisplaced(p: Phase) {
    (p.Swapped? || p.Published? || p.Left?) && p.displaced.Some?
  }

  /** The sequence number counts swaps, and the claim ahead of one, modulo 2^64. */
  predicate Counted(s: State) {
    var claimed := s.holder.Some? && PhaseOf(s, s.holder.value).Claimed?;
    && |s.slots| == ERROR_RING_LEN
    && s.seqNo == (|s.recorded| + if claimed then 1 else 0) % WORD
    && (claimed ==> PhaseOf(s, s.holder.value).slot == |s.recorded| % ERROR_RING_LEN)
  }

  /** The slots own the last sixteen strings recorded. */
  predicate SlotsOwnLatest(s: State)
    requires |s.slots| == ERROR_RING_LEN
  {
    OwnLatest(s.slots, s.recorded)
  }

  predicate OwnLatest(slots: seq<Option<Ptr>>, recorded: seq<Ptr>)
    requires |slots| == ERROR_RING_LEN
  {
    && (forall j | 0 <= j < |recorded| <= j + ERROR_RING_LEN :: slots[j % ERROR_RING_LEN] == Some(recorded[j]))
    && (forall i: nat | |recorded| <= i < ERROR_RING_LEN :: slots[i] == None)
  }

  ghost predicate LockHeld(s: State) {
    forall t: nat :: InLock(PhaseOf(s, t)) <==> s.holder == Some(t)
  }

  /** The published pointer is the latest string, or the one before while the
      latest is between its swap and its store. */
  predicate LastIsLatest(s: State) {
    var behind := if s.holder.Some? && PhaseOf(s, s.holder.value).Swapped? then 1 else 0;
    && behind <= |s.recorded|
    && s.last == (if |s.recorded| == behind then None else Some(s.recorded[|s.recorded| - 1 - behind]))
    && (behind == 1 ==> PhaseOf(s, s.holder.value).raw == s.recorded[|s.recorded| - 1])
  }

  predicate RecordedDistinct(s: State) {
    forall i, j | 0 <= i < j < |s.recorded| :: s.recorded[i] != s.recorded[j]
  }

  predicate RecordedBelow(s: State) {
    forall p | p in s.recorded :: p < s.heapNext
  }

  /** A string freed so far went at the hands of the call sixteen after its own. */
  predicate FreedInTurn(s: State) {
    forall p | p in s.freed ::
      && s.freed[p].ByCall? && ERROR_RING_LEN <= s.freed[p].call < |s.recorded|
      && s.recorded[s.freed[p].call - ERROR_RING_LEN] == p
  }

  ghost predicate RawsFresh(s: State) {
    && (forall t | HasRaw(PhaseOf(s, t)) :: PhaseOf(s, t).raw < s.heapNext && PhaseOf(s, t).raw !in s.recorded)
    && (forall t, u | t != u && HasRaw(PhaseOf(s, t)) && HasRaw(PhaseOf(s, u)) ::
          PhaseOf(s, t).raw != PhaseOf(s, u).raw)
  }

  /** The string a call displaced is the one recorded sixteen calls before it. */
  ghost predicate DisplacedOwned(s: State) {
    && (forall t | HasDisplaced(PhaseOf(s, t)) ::
          var p := PhaseOf(s, t);
          ERROR_RING_LEN <= p.call < |s.recorded| && p.displaced.value == s.recorded[p.call - ERROR_RING_LEN] &&
              p.displaced.value !in s.freed)
    && (forall t, u | t != u && HasDisplaced(PhaseOf(s, t)) &&
        HasDisplaced(PhaseOf(s, u)) :: PhaseOf(s, t).call != PhaseOf(s, u).call)
  }

  ghost predicate RawOfSome(s: State, p: Ptr) {
    exists t :: HasRaw(PhaseOf(s, t)) && PhaseOf(s, t).raw == p
  }

  ghost predicate HeldBySome(s: State, call: nat) {
    exists t :: HasDisplaced(PhaseOf(s, t)) && PhaseOf(s, t).call == call
  }

  /** No string is lost: each is on its way into the ring, in it, on its way out or
      freed. */
  ghost predicate NoneLost(s: State) {
    && (forall p | 0 <= p < s.heapNext :: p in s.recorded || RawOfSome(s, p))
    && (forall j | 0 <= j < |s.recorded| - ERROR_RING_LEN ::
          s.recorded[j] in s.freed || HeldBySome(s, j + ERROR_RING_LEN))
  }

  ghost predicate RingInv(s: State) {
    Counted(s) && SlotsOwnLatest(s) && LockHeld(s) && LastIsLatest(s)
  }

  ghost predicate HeapInv(s: State) {
    && !s.misfreed
    && RecordedDistinct(s) && RecordedBelow(s) && FreedInTurn(s) && RawsFresh(s) && DisplacedOwned(s) && NoneLost(s)
  }

  ghost predicate Inv(s: State) {
    RingInv(s) && HeapInv(s)
  }

  // ---- The invariant, step by step ----

  lemma SixteenDividesTheWord(n: nat)
    ensures (n % WORD) % ERROR_RING_LEN == n % ERROR_RING_LEN
    ensures (n % WORD + 1) % WORD == (n + 1) % WORD
  {
    var q := n / WORD;
    assert n == q * WORD + n % WORD;
    assert WORD == 0x1000_0000_0000_0000 * ERROR_RING_LEN;
    assert n == (q * 0x1000_0000_0000_0000) * ERROR_RING_LEN + n % WORD;
  }

  /** Other threads stay where they are. */
  lemma OthersStay(s: State, step: Step, t: nat)
    requires |s.slots| == ERROR_RING_LEN && t != step.t
    ensures PhaseOf(Next(s, step), t) == PhaseOf(s, t)
  {}

  lemma LockStep(s: State, step: Step)
    requires |s.slots| == ERROR_RING_LEN && LockHeld(s)
    ensures LockHeld(Next(s, step))
  {
    var n := Next(s, step);
    forall t ensures InLock(PhaseOf(n, t)) <==> n.holder == Some(t) {
      assert InLock(PhaseOf(s, t)) <==> s.holder == Some(t);
      assert InLock(PhaseOf(s, step.t)) <==> s.holder == Some(step.t);
      if t != step.t { OthersStay(s, step, t); }
    }
  }

  lemma CountStep(s: State, step: Step)
    requires Counted(s) && LockHeld(s)
    ensures Counted(Next(s, step))
  {
    SixteenDividesTheWord(|s.recorded|);
    assert InLock(PhaseOf(s, step.t)) <==> s.holder == Some(step.t);
    if s.holder.Some? && s.holder.value != step.t { OthersStay(s, step, s.holder.value); }
  }

  lemma OwnLatestAfterSwap(slots: seq<Option<Ptr>>, recorded: seq<Ptr>, raw: Ptr)
    requires |slots| == ERROR_RING_LEN && OwnLatest(slots, recorded)
    ensures var k := |recorded|; var slot := k % ERROR_RING_LEN;
            && OwnLatest(slots[slot := Some(raw)], recorded + [raw])
            && slots[slot] == if k < ERROR_RING_LEN then None else Some(recorded[k - ERROR_RING_LEN])
  {
    var k := |recorded|;
    var slot := k % ERROR_RING_LEN;
    if k >= ERROR_RING_LEN {
      assert (k - ERROR_RING_LEN) % ERROR_RING_LEN == slot;
    }
    forall j | 0 <= j < k + 1 <= j + ERROR_RING_LEN
      ensures slots[slot := Some(raw)][j % ERROR_RING_LEN] == Some((recorded + [raw])[j])
    {
      if j < k { assert j % ERROR_RING_LEN != slot; }
    }
  }

  /** A swap puts the string in the slot of its number, over the one sixteen older. */
  lemma SwapStep(s: State, t: nat)
    requires Counted(s) && LockHeld(s) && SlotsOwnLatest(s) && PhaseOf(s, t).Claimed?
    ensures var n, k := Next(s, Swap(t)), |s.recorded|;
            && n.recorded == s.recorded + [PhaseOf(s, t).raw] && SlotsOwnLatest(n)
            && PhaseOf(n, t) == Swapped(PhaseOf(s, t).raw, if k < ERROR_RING_LEN then None
                else Some(s.recorded[k - ERROR_RING_LEN]), k)
  {
    assert InLock(PhaseOf(s, t)) && s.holder == Some(t);
    OwnLatestAfterSwap(s.slots, s.recorded, PhaseOf(s, t).raw);
  }

  lemma SlotsStep(s: State, step: Step)
    requires Counted(s) && LockHeld(s) && SlotsOwnLatest(s)
    ensures |Next(s, step).slots| == ERROR_RING_LEN && SlotsOwnLatest(Next(s, step))
  {
    if step.Swap? && PhaseOf(s, step.t).Claimed? {
      SwapStep(s, step.t);
    }
  }

  lemma LastStep(s: State, step: Step)
    requires Counted(s) && LockHeld(s) && LastIsLatest(s)
    ensures LastIsLatest(Next(s, step))
  {
    assert InLock(PhaseOf(s, step.t)) <==> s.holder == Some(step.t);
    if s.holder.Some? && s.holder.value != step.t { OthersStay(s, step, s.holder.value); }
  }

  // ---- What a step does to the heap ----

  ghost predicate OthersSame(s: State, t: nat, n: State) {
    forall u | u != t :: PhaseOf(n, u) == PhaseOf(s, u)
  }

  predicate Silent(s: State, t: nat, n: State) {
    var p, q := PhaseOf(s, t), PhaseOf(n, t);
    && n.recorded == s.recorded && n.heapNext == s.heapNext && n.freed == s.freed
    && (HasRaw(p) <==> HasRaw(q)) && (HasRaw(p) ==> q.raw == p.raw)
    && (HasDisplaced(p) <==> HasDisplaced(q)) && (HasDisplaced(p) ==> q.displaced == p.displaced && q.call == p.call)
  }

  predicate Allocates(s: State, t: nat, n: State) {
    var p, q := PhaseOf(s, t), PhaseOf(n, t);
    && n.recorded == s.recorded && n.heapNext == s.heapNext + 1 && n.freed == s.freed
    && !HasRaw(p) && HasRaw(q) && q.raw == s.heapNext && !HasDisplaced(p) && !HasDisplaced(q)
  }

  predicate Records(s: State, t: nat, n: State) {
    var p, q, k := PhaseOf(s, t), PhaseOf(n, t), |s.recorded|;
    && HasRaw(p) && n.recorded == s.recorded + [p.raw] && n.heapNext == s.heapNext && n.freed == s.freed
    && !HasRaw(q) && !HasDisplaced(p) && (HasDisplaced(q) <==> k >= ERROR_RING_LEN)
    && (HasDisplaced(q) ==> q.call == k && q.displaced.value == s.recorded[k - ERROR_RING_LEN])
  }

  predicate Frees(s: State, t: nat, n: State) {
    var p, q := PhaseOf(s, t), PhaseOf(n, t);
    && HasDisplaced(p) && !HasDisplaced(q) && !HasRaw(p) && !HasRaw(q)
    && n.recorded == s.recorded && n.heapNext == s.heapNext
    && n.freed == s.freed[p.displaced.value := ByCall(p.call)]
  }

  /** Locking, claiming, storing and unlocking leave the heap alone. */
  lemma QuietEffect(s: State, step: Step)
    requires |s.slots| == ERROR_RING_LEN && (step.Enter? || step.Claim? || step.Publish? || step.Leave?)
    ensures Next(s, step).misfreed == s.misfreed && Silent(s, step.t, Next(s, step))
  {}

  lemma BuildEffect(s: State, t: nat)
    requires |s.slots| == ERROR_RING_LEN
    ensures var n := Next(s, Build(t)); n.misfreed == s.misfreed && (Silent(s, t, n) || Allocates(s, t, n))
  {}

  lemma SwapEffect(s: State, t: nat)
    requires RingInv(s)
    ensures var n := Next(s, Swap(t)); n.misfreed == s.misfreed && (Silent(s, t, n) || Records(s, t, n))
  {
    if PhaseOf(s, t).Claimed? { SwapStep(s, t); }
  }

  /** A call never frees a string that is not allocated. */
  lemma ReclaimEffect(s: State, t: nat)
    requires |s.slots| == ERROR_RING_LEN && RecordedBelow(s) && DisplacedOwned(s)
    ensures var n := Next(s, Reclaim(t)); n.misfreed == s.misfreed && (Silent(s, t, n) || Frees(s, t, n))
  {
    var p := PhaseOf(s, t);
    if HasDisplaced(p) {
      assert s.recorded[p.call - ERROR_RING_LEN] in s.recorded && Live(s, p.displaced.value);
    }
  }

  lemma HeapEffect(s: State, step: Step)
    requires RingInv(s) && RecordedBelow(s) && DisplacedOwned(s)
    ensures Next(s, step).misfreed == s.misfreed && Kind(s, step.t, Next(s, step))
  {
    forall u | u != step.t ensures PhaseOf(Next(s, step), u) == PhaseOf(s, u) { OthersStay(s, step, u); }
    match step {
      case Build(t) => BuildEffect(s, t);
      case Swap(t) => SwapEffect(s, t);
      case Reclaim(t) => ReclaimEffect(s, t);
      case _ => QuietEffect(s, step);
    }
  }

  lemma OwnersFollow(s: State, t: nat, n: State, p: Ptr, call: nat)
    requires OthersSame(s, t, n)
    ensures RawOfSome(s, p) && !(HasRaw(PhaseOf(s, t)) && PhaseOf(s, t).raw == p) ==> RawOfSome(n, p)
    ensures HeldBySome(s, call) && !(HasDisplaced(PhaseOf(s, t)) && PhaseOf(s, t).call == call) ==> HeldBySome(n, call)
    ensures HasRaw(PhaseOf(n, t)) && PhaseOf(n, t).raw == p ==> RawOfSome(n, p)
    ensures HasDisplaced(PhaseOf(n, t)) && PhaseOf(n, t).call == call ==> HeldBySome(n, call)
  {}

  ghost predicate Kind(s: State, t: nat, n: State) {
    OthersSame(s, t, n) && (Silent(s, t, n) || Allocates(s, t, n) || Records(s, t, n) || Frees(s, t, n))
  }

  lemma RawsStep(s: State, t: nat, n: State)
    requires RawsFresh(s) && RecordedBelow(s) && Kind(s, t, n)
    ensures RawsFresh(n) && RecordedBelow(n)
  {
    forall u, v | u != v && HasRaw(PhaseOf(n, u)) && HasRaw(PhaseOf(n, v)) ensures PhaseOf(n, u).raw != PhaseOf(n,
        v).raw {
      assert u != t ==> PhaseOf(n, u) == PhaseOf(s, u);
      assert v != t ==> PhaseOf(n, v) == PhaseOf(s, v);
    }
    forall u | HasRaw(PhaseOf(n, u)) ensures PhaseOf(n, u).raw < n.heapNext && PhaseOf(n, u).raw !in n.recorded {
      assert u != t ==> PhaseOf(n, u) == PhaseOf(s, u);
    }
  }

  lemma DistinctStep(s: State, t: nat, n: State)
    requires RecordedDistinct(s) && RawsFresh(s) && Kind(s, t, n)
    ensures RecordedDistinct(n)
  {
    if Records(s, t, n) {
      var raw := PhaseOf(s, t).raw;
      forall i | 0 <= i < |s.recorded| ensures s.recorded[i] != raw {
        assert s.recorded[i] in s.recorded;
      }
    }
  }

  lemma FreedStep(s: State, t: nat, n: State)
    requires FreedInTurn(s) && DisplacedOwned(s) && Kind(s, t, n)
    ensures FreedInTurn(n)
  {
    assert HasDisplaced(PhaseOf(s, t)) ==> ERROR_RING_LEN <= PhaseOf(s, t).call < |s.recorded|;
  }

  /** The string a new number displaces has not been freed: its own successor does
      that. */
  lemma LatestNotFreed(s: State, j: nat)
    requires RecordedDistinct(s) && FreedInTurn(s) && j < |s.recorded| <= j + ERROR_RING_LEN
    ensures s.recorded[j] !in s.freed
  {}

  lemma DisplacedStep(s: State, t: nat, n: State)
    requires RecordedDistinct(s) && FreedInTurn(s) && DisplacedOwned(s) && Kind(s, t, n)
    ensures DisplacedOwned(n)
  {
    var k := |s.recorded|;
    if k >= ERROR_RING_LEN { LatestNotFreed(s, k - ERROR_RING_LEN); }
    forall u | u != t ensures PhaseOf(n, u) == PhaseOf(s, u) {}
    forall u | HasDisplaced(PhaseOf(n, u))
      ensures var p := PhaseOf(n, u);
              ERROR_RING_LEN <= p.call < |n.recorded| && p.displaced.value == n.recorded[p.call - ERROR_RING_LEN] &&
                  p.displaced.value !in n.freed
    {
      if u != t && Frees(s, t, n) {
        var mine, other := PhaseOf(s, t).call, PhaseOf(s, u).call;
        assert mine != other && s.recorded[mine - ERROR_RING_LEN] != s.recorded[other - ERROR_RING_LEN];
      }
    }
  }

  lemma NoneLostStep(s: State, t: nat, n: State)
    requires DisplacedOwned(s) && NoneLost(s) && Kind(s, t, n)
    ensures NoneLost(n)
  {
    forall p | 0 <= p < n.heapNext ensures p in n.recorded || RawOfSome(n, p) {
      OwnersFollow(s, t, n, p, 0);
      if Records(s, t, n) { assert n.recorded[|s.recorded|] == PhaseOf(s, t).raw; }
    }
    forall j | 0 <= j < |n.recorded| - ERROR_RING_LEN ensures n.recorded[j] in n.freed ||
        HeldBySome(n, j + ERROR_RING_LEN) {
      OwnersFollow(s, t, n, 0, j + ERROR_RING_LEN);
    }
  }

  lemma StepKeeps(s: State, step: Step)
    requires Inv(s)
    ensures Inv(Next(s, step))
  {
    var n, t := Next(s, step), step.t;
    LockStep(s, step);
    CountStep(s, step);
    SlotsStep(s, step);
    LastStep(s, step);
    HeapEffect(s, step);
    RawsStep(s, t, n);
    DistinctStep(s, t, n);
    FreedStep(s, t, n);
    DisplacedStep(s, t, n);
    NoneLostStep(s, t, n);
  }

  // ---- Every run ----

  lemma OpenedIsGood()
    ensures Inv(Opened())
  {}

  lemma RecordedGrows(s: State, step: Step)
    requires |s.slots| == ERROR_RING_LEN
    ensures s.recorded <= Next(s, step).recorded
  {}

  /** In every interleaving of callers no string is freed twice or early: a string
      goes only at the hands of the call sixteen after its own, whatever the counter
      wraps to. */
  lemma {:induction false} RunKeeps(s: State, steps: seq<Step>)
    requires Inv(s)
    ensures Inv(Run(s, steps)) && s.recorded <= Run(s, steps).recorded
    decreases |steps|
  {
    if steps != [] {
      var n := Next(s, steps[0]);
      StepKeeps(s, steps[0]);
      RecordedGrows(s, steps[0]);
      RunKeeps(n, steps[1..]);
    }
  }

  /** What obj_errmsg loads at any moment is null or a live string: the latest one
      recorded, or the one before while the latest is being published. */
  lemma LastErrorLive(s: State)
    requires Inv(s) && s.last.Some?
    ensures Live(s, s.last.value)
    ensures exists j :: 0 <= j < |s.recorded| <= j + 2 && s.recorded[j] == s.last.value
  {
    var j := |s.recorded| - (if s.holder.Some? && PhaseOf(s, s.holder.value).Swapped? then 2 else 1);
    LatestNotFreed(s, j);
    assert s.recorded[j] in s.recorded;
  }

  /** A string stays live at least until sixteen more have been recorded after it. */
  lemma GraceWindow(s: State, steps: seq<Step>, j: nat)
    requires Inv(s) && j < |s.recorded| && |Run(s, steps).recorded| <= j + ERROR_RING_LEN
    ensures Live(Run(s, steps), s.recorded[j])
  {
    RunKeeps(s, steps);
    var n := Run(s, steps);
    LatestNotFreed(n, j);
    assert n.recorded[j] == s.recorded[j] && n.recorded[j] in n.recorded;
  }

  /** The destructor frees each string still in a slot, once. */
  lemma {:induction false} DropFrees(s: State, i: nat)
    requires i <= |s.slots| && !s.misfreed
    requires forall k | i <= k < |s.slots| && s.slots[k].Some? :: Live(s, s.slots[k].value)
    requires forall k, l | i <= k < l < |s.slots| && s.slots[k].Some? && s.slots[l].Some? :: s.slots[k] != s.slots[l]
    ensures var n := DropFrom(s, i);
            && !n.misfreed && n.heapNext == s.heapNext
            && (forall p | p in s.freed :: p in n.freed && n.freed[p] == s.freed[p])
            && (forall k | i <= k < |s.slots| && s.slots[k].Some? ::
                  s.slots[k].value in n.freed && n.freed[s.slots[k].value] == ByDrop)
    decreases |s.slots| - i
  {
    if i < |s.slots| {
      var m := FreeDisplaced(s, s.slots[i], ByDrop);
      DropFrees(m, i + 1);
    }
  }

  ghost predicate AllIdle(s: State) {
    forall t :: PhaseOf(s, t).Idle?
  }

  /** The n-th string counted from the end sits in its slot. */
  lemma SlotHolds(s: State, j: nat)
    requires Inv(s) && j < |s.recorded| <= j + ERROR_RING_LEN
    ensures s.slots[j % ERROR_RING_LEN] == Some(s.recorded[j])
  {}

  /** A filled slot holds a live string, and no two the same. */
  lemma SlotsLiveDistinct(s: State, k: nat) returns (j: nat)
    requires Inv(s) && k < ERROR_RING_LEN && s.slots[k].Some?
    ensures j < |s.recorded| <= j + ERROR_RING_LEN && j % ERROR_RING_LEN == k && s.slots[k].value == s.recorded[j]
    ensures Live(s, s.slots[k].value)
  {
    var n := |s.recorded|;
    if n <= ERROR_RING_LEN {
      j := k;
    } else {
      var r := (n - 1) % ERROR_RING_LEN;
      SlotIndex(n, k);
      j := if r >= k then n - 1 - (r - k) else n - 1 - (r + ERROR_RING_LEN - k);
    }
    SlotHolds(s, j);
    LatestNotFreed(s, j);
    assert s.recorded[j] in s.recorded;
  }

  lemma SlotIndex(n: nat, k: nat)
    requires k < ERROR_RING_LEN < n
    ensures var r := (n - 1) % ERROR_RING_LEN;
            var j := if r >= k then n - 1 - (r - k) else n - 1 - (r + ERROR_RING_LEN - k);
            0 <= j < n <= j + ERROR_RING_LEN && j % ERROR_RING_LEN == k
  {}

  /** Once no call is under way, dropping the handle leaves every string ever
      allocated freed exactly once. */
  lemma DropLeavesNothing(s: State, p: Ptr)
    requires Inv(s) && AllIdle(s) && p < s.heapNext
    ensures var n := DropFrom(s, 0); !n.misfreed && p in n.freed
  {
    forall k | 0 <= k < ERROR_RING_LEN && s.slots[k].Some? ensures Live(s, s.slots[k].value) {
      var _ := SlotsLiveDistinct(s, k);
    }
    forall k, l | 0 <= k < l < ERROR_RING_LEN && s.slots[k].Some? && s.slots[l].Some? ensures s.slots[k] != s.slots[l] {
      var i := SlotsLiveDistinct(s, k);
      var j := SlotsLiveDistinct(s, l);
    }
    DropFrees(s, 0);
    assert !RawOfSome(s, p);
    var j :| 0 <= j < |s.recorded| && s.recorded[j] == p;
    if j < |s.recorded| - ERROR_RING_LEN {
      assert !HeldBySome(s, j + ERROR_RING_LEN);
    } else {
      SlotHolds(s, j);
    }
  }

  // ---- The handle's own code ----

  class DbInner {
    var lastError: Option<Ptr>
    const errorRing: array<Option<Ptr>>
    var errorSeq: nat

    constructor ()
      ensures errorRing.Length == ERROR_RING_LEN && fresh(errorRing)
      ensures lastError == None && errorSeq == 0 && errorRing[..] == Opened().slots
    {
      lastError, errorSeq := None, 0;
      errorRing := new Option<Ptr>[ERROR_RING_LEN](_ => None);
      new;
      assert errorRing[..] == Opened().slots;
    }

    /** The critical section of set_error: the calling thread's claim, swap and
        store. Returns what it has to free. */
    method RecordError(raw: Ptr, ghost s: State, ghost t: nat) returns (displaced: Option<Ptr>)
      requires errorRing.Length == ERROR_RING_LEN && errorSeq < WORD
      requires errorRing[..] == s.slots && errorSeq == s.seqNo && lastError == s.last && PhaseOf(s, t) == Entered(raw)
      modifies this, errorRing
      ensures errorSeq < WORD
      ensures var n := Run(s, [Claim(t), Swap(t), Publish(t)]);
              && errorRing[..] == n.slots && errorSeq == n.seqNo && lastError == n.last
              && PhaseOf(n, t) == Published(displaced, |s.recorded|)
    {
      ghost var s1 := Next(s, Claim(t));
      ghost var s2 := Next(s1, Swap(t));
      ghost var s3 := Next(s2, Publish(t));
      var slot := errorSeq % ERROR_RING_LEN;
      errorSeq := (errorSeq + 1) % WORD;
      displaced := errorRing[slot];
      errorRing[slot] := Some(raw);
      lastError := Some(raw);
      assert Run(s2, [Publish(t)]) == s3;
      assert Run(s1, [Swap(t), Publish(t)]) == Run(s2, [Swap(t), Publish(t)][1..]);
      assert [Claim(t), Swap(t), Publish(t)][1..] == [Swap(t), Publish(t)];
    }
  }
}
