/**
 The ACPI Global Lock handshake between the OS and the firmware (section 5.2.10.1 of the ACPI 6.5
 specification), as a state machine over the atomic steps of any number of OS threads, the SCI handler and a
 firmware agent that follows the same protocol.
 */
module GlobalLock {
  import opened Options

  // ---------- the lock word ----------

  const MAX_SPINS: nat := 0xFFFF

  predicate Pending(w: bv32) {
    w & 1 != 0
  }

  predicate Owned(w: bv32) {
    w & 2 != 0
  }

  /** The word try_acquire_global_lock_from_firmware offers for the value it read. */
  function AcquireWord(w: bv32): bv32 {
    if Owned(w) then (w & 0xFFFF_FFFC) | 2 | 1 else (w & 0xFFFF_FFFC) | 2
  }

  /** The word do_release_global_lock_to_firmware offers. */
  function ReleaseWord(w: bv32): bv32 {
    w & 0xFFFF_FFFC
  }

  /** Acquiring takes a free lock or marks a taken one as wanted; no other bit moves. */
  lemma AcquireBits(w: bv32)
    ensures Owned(AcquireWord(w)) && (Pending(AcquireWord(w)) <==> Owned(w))
    ensures AcquireWord(w) & 0xFFFF_FFFC == w & 0xFFFF_FFFC
  {
    assert ((w & 0xFFFF_FFFC) | 2) & 2 != 0 && ((w & 0xFFFF_FFFC) | 2) & 1 == 0;
    assert ((w & 0xFFFF_FFFC) | 2 | 1) & 2 != 0 && ((w & 0xFFFF_FFFC) | 2 | 1) & 1 != 0;
    assert ((w & 0xFFFF_FFFC) | 2) & 0xFFFF_FFFC == w & 0xFFFF_FFFC;
    assert ((w & 0xFFFF_FFFC) | 2 | 1) & 0xFFFF_FFFC == w & 0xFFFF_FFFC;
  }

  /** Releasing clears both bits; no other bit moves. */
  lemma ReleaseBits(w: bv32)
    ensures !Owned(ReleaseWord(w)) && !Pending(ReleaseWord(w))
    ensures ReleaseWord(w) & 0xFFFF_FFFC == w & 0xFFFF_FFFC
  {
  }

  /** What either offer does to the two bits. */
  lemma OfferBits(w: bv32)
    ensures Owned(AcquireWord(w)) && (Pending(AcquireWord(w)) <==> Owned(w))
    ensures !Owned(ReleaseWord(w)) && !Pending(ReleaseWord(w))
  {
    AcquireBits(w);
    ReleaseBits(w);
  }

  // ---------- program counters ----------

  /**
   Where an OS thread stands. From Locking to Leaving it holds the native mutex; from Reading to Armed it also
   holds the spinlock. `spins` counts the attempts so far.
   */
  datatype Pc =
    | Out
    | Locking(spins: nat)
    | Reading(spins: nat)
    | Swapping(spins: nat, seen: bv32)
    | Lost(spins: nat)
    | Armed(spins: nat)
    | Waiting(spins: nat)
    | Won
    | Owning
    | RelReading
    | RelSwapping(seen: bv32)
    | Notifying
    | Leaving

  /** The handler from the moment it has cleared the status bit. */
  datatype HandlerPc = Resting | Wanting | Inside

  datatype FirmwarePc =
    | FwIdle
    | FwSwapping(seen: bv32)
    | FwWaiting
    | FwOwning
    | FwRelSwapping(seen: bv32)
    | FwRaising

  datatype Spin = Free | ByOs | ByHandler

  datatype State = State(
    word: bv32,
    pcs: map<nat, Pc>,
    mutex: Option<nat>,
    spin: Spin,
    flag: bool,            // global_lock_pending
    signals: nat,          // the event's counter
    status: bool,          // the release interrupt's status bit
    handler: HandlerPc,
    fw: FirmwarePc,
    rls: bool              // the OS has told the firmware about a release
  )

  datatype OsStep =
    | TakeMutex | TakeSpin | Read | Swap | GiveUp | Arm | Sleep | Wake | Settle
    | StartRelease | ReadForRelease | SwapRelease | Notify | Leave

  datatype OtherStep =
    | Interrupt | HandlerLock | HandlerRun | Spurious
    | FwStart | FwSwap | FwRetry | FwStartRelease | FwSwapRelease | FwRaise

  datatype Action = Os(t: nat, step: OsStep) | Other(other: OtherStep)

  function At(s: State, t: nat): Pc {
    if t in s.pcs then s.pcs[t] else Out
  }

  predicate OsEnabled(s: State, pc: Pc, step: OsStep) {
    match step
    case TakeMutex => pc == Out && s.mutex == None
    case TakeSpin => pc.Locking? && s.spin == Free
    case Read => pc.Reading?
    case Swap => pc.Swapping?
    case GiveUp => pc.Lost? && pc.spins == MAX_SPINS
    case Arm => pc.Lost? && pc.spins != MAX_SPINS
    case Sleep => pc.Armed?
    case Wake => pc.Waiting? && s.signals > 0
    case Settle => pc.Won?
    case StartRelease => pc.Owning?
    case ReadForRelease => pc.RelReading?
    case SwapRelease => pc.RelSwapping?
    case Notify => pc.Notifying?
    case Leave => pc.Leaving?
  }

  /** Where the step takes the thread. A cmpxchg that meets another value refreshes its copy and is tried again. */
  function OsNext(s: State, pc: Pc, step: OsStep): Pc
    requires OsEnabled(s, pc, step)
  {
    match step
    case TakeMutex => Locking(0)
    case TakeSpin => Reading(pc.spins + 1)
    case Read => Swapping(pc.spins, s.word)
    case Swap =>
      if s.word != pc.seen then Swapping(pc.spins, s.word) else if Owned(pc.seen) then Lost(pc.spins) else Won
    case GiveUp => Leaving
    case Arm => Armed(pc.spins)
    case Sleep => Waiting(pc.spins)
    case Wake => Locking(pc.spins)
    case Settle => Owning
    case StartRelease => RelReading
    case ReadForRelease => RelSwapping(s.word)
    case SwapRelease =>
      if s.word != pc.seen then RelSwapping(s.word) else if Pending(pc.seen) then Notifying else Leaving
    case Notify => Leaving
    case Leave => Out
  }

  /** What the step does to everything but the thread's program counter. */
  function OsEffect(s: State, t: nat, pc: Pc, step: OsStep): State
    requires OsEnabled(s, pc, step)
  {
    match step
    case TakeMutex => s.(mutex := Some(t))
    case TakeSpin => s.(spin := ByOs)
    case Swap => if s.word != pc.seen then s else s.(word := AcquireWord(pc.seen))
    case GiveUp => s.(flag := false, spin := Free)
    case Arm => s.(flag := true)
    case Sleep => s.(spin := Free)
    case Wake => s.(signals := s.signals - 1)
    case Settle => s.(flag := false, spin := Free)
    case SwapRelease => if s.word != pc.seen then s else s.(word := ReleaseWord(pc.seen))
    case Notify => s.(rls := true)
    case Leave => s.(mutex := None)
    case _ => s
  }

  predicate OtherEnabled(s: State, step: OtherStep) {
    match step
    case Interrupt => s.status && s.handler.Resting?
    case HandlerLock => s.handler.Wanting? && s.spin == Free
    case HandlerRun => s.handler.Inside?
    case Spurious => true
    case FwStart => s.fw.FwIdle?
    case FwSwap => s.fw.FwSwapping?
    case FwRetry => s.fw.FwWaiting? && s.rls
    case FwStartRelease => s.fw.FwOwning?
    case FwSwapRelease => s.fw.FwRelSwapping?
    case FwRaise => s.fw.FwRaising?
  }

  function OtherEffect(s: State, step: OtherStep): State
    requires OtherEnabled(s, step)
  {
    match step
    case Interrupt => s.(status := false, handler := Wanting)
    case HandlerLock => s.(handler := Inside, spin := ByHandler)
    case HandlerRun =>
      s.(handler := Resting, spin := Free, flag := false, signals := if s.flag then s.signals + 1 else s.signals)
    case Spurious => s.(status := true)
    case FwStart => s.(fw := FwSwapping(s.word))
    case FwSwap =>
      if s.word != s.fw.seen then s.(fw := FwSwapping(s.word))
      else s.(fw := if Owned(s.word) then FwWaiting else FwOwning, word := AcquireWord(s.word))
    case FwRetry => s.(fw := FwSwapping(s.word), rls := false)
    case FwStartRelease => s.(fw := FwRelSwapping(s.word))
    case FwSwapRelease =>
      if s.word != s.fw.seen then s.(fw := FwRelSwapping(s.word))
      else s.(fw := if Pending(s.word) then FwRaising else FwIdle, word := ReleaseWord(s.word))
    case FwRaise => s.(fw := FwIdle, status := true)
  }

  predicate Enabled(s: State, a: Action) {
    match a
    case Os(t, step) => OsEnabled(s, At(s, t), step)
    case Other(step) => OtherEnabled(s, step)
  }

  function Do(s: State, a: Action): State
    requires Enabled(s, a)
  {
    match a
    case Os(t, step) =>
      var pc := At(s, t);
      var s' := OsEffect(s, t, pc, step);
      s'.(pcs := s.pcs[t := OsNext(s, pc, step)])
    case Other(step) => OtherEffect(s, step)
  }

  function Init(word: bv32): State
    requires !Owned(word) && !Pending(word)
  {
    State(word, map[], None, Free, false, 0, false, Resting, FwIdle, false)
  }

  // ---------- the invariant ----------

  predicate OsOwnsAt(pc: Pc) {
    pc.Won? || pc.Owning? || pc.RelReading? || pc.RelSwapping?
  }

  predicate SpinAt(pc: Pc) {
    pc.Reading? || pc.Swapping? || pc.Lost? || pc.Armed? || pc.Won?
  }

  /** The thread that holds the native mutex; all others are out of the protocol. */
  function Active(s: State): Pc {
    if s.mutex == None then Out else At(s, s.mutex.value)
  }

  predicate OsOwns(s: State) {
    OsOwnsAt(Active(s))
  }

  predicate FwOwnsAt(fw: FirmwarePc) {
    fw.FwOwning? || fw.FwRelSwapping?
  }

  predicate FwOwns(s: State) {
    FwOwnsAt(s.fw)
  }

  /** Something will still tell a waiting OS thread that the firmware let go. */
  predicate ReleaseOutstanding(s: State) {
    || (FwOwns(s) && Pending(s.word))
    || s.fw.FwRaising?
    || s.status
    || !s.handler.Resting?
  }

  /** Something will still tell a waiting firmware that the OS, at pc, let go. */
  predicate NotifyOutstanding(s: State, pc: Pc) {
    (OsOwnsAt(pc) && Pending(s.word)) || pc.Notifying? || s.rls
  }

  /** Only the holder of the native mutex is in the protocol. */
  ghost predicate OneThread(s: State) {
    && (forall t :: t in s.pcs && s.pcs[t] != Out ==> s.mutex == Some(t))
    && (s.mutex != None ==> Active(s) != Out)
  }

  predicate Ownership(s: State, pc: Pc) {
    && (s.spin == ByOs <==> SpinAt(pc)) && (s.spin == ByHandler <==> s.handler.Inside?)
    && !(OsOwnsAt(pc) && FwOwnsAt(s.fw))
    && (Owned(s.word) <==> OsOwnsAt(pc) || FwOwnsAt(s.fw))
    && (Pending(s.word) ==> Owned(s.word))
  }

  predicate Wakeups(s: State, pc: Pc) {
    && (s.flag ==> pc.Armed? || pc.Waiting?)
    && (pc.Armed? ==> s.flag)
    && s.signals == (if pc.Waiting? && !s.flag then 1 else 0)
    && (pc.Lost? || pc.Armed? || (pc.Waiting? && s.flag) ==> ReleaseOutstanding(s))
    && (s.fw.FwWaiting? ==> NotifyOutstanding(s, pc))
  }

  ghost predicate Inv(s: State) {
    OneThread(s) && Ownership(s, Active(s)) && Wakeups(s, Active(s))
  }

  lemma InitInv(word: bv32)
    requires !Owned(word) && !Pending(word)
    ensures Inv(Init(word))
  {
  }

  /** The OS steps that write the lock word: a swap that meets the value it read. */
  lemma OsSwapOwnership(s: State, t: nat, pc: Pc, step: OsStep)
    requires step.Swap? || step.SwapRelease?
    requires OsEnabled(s, pc, step) && Ownership(s, pc) && s.word == pc.seen
    ensures Ownership(OsEffect(s, t, pc, step), OsNext(s, pc, step))
  {
    OfferBits(s.word);
    hide Owned, Pending, AcquireWord, ReleaseWord;
    var s' := OsEffect(s, t, pc, step);
    assert s'.word == if step.Swap? then AcquireWord(s.word) else ReleaseWord(s.word);
  }

  lemma OsStepOwnership(s: State, t: nat, pc: Pc, step: OsStep)
    requires OsEnabled(s, pc, step) && Ownership(s, pc) && Wakeups(s, pc)
    ensures Ownership(OsEffect(s, t, pc, step), OsNext(s, pc, step))
  {
    if (step.Swap? || step.SwapRelease?) && s.word == pc.seen {
      OsSwapOwnership(s, t, pc, step);
    } else {
      assert OsEffect(s, t, pc, step).word == s.word;
    }
    hide Owned, Pending, AcquireWord, ReleaseWord;
  }

  lemma OsStepWakeups(s: State, t: nat, pc: Pc, step: OsStep)
    requires OsEnabled(s, pc, step) && Ownership(s, pc) && Wakeups(s, pc)
    ensures Wakeups(OsEffect(s, t, pc, step), OsNext(s, pc, step))
  {
    OfferBits(s.word);
    hide Owned, Pending, AcquireWord, ReleaseWord;
  }

  /** A step of the mutex holder keeps the invariant of its program counter. */
  lemma OsStepInv(s: State, t: nat, pc: Pc, step: OsStep)
    requires OsEnabled(s, pc, step) && Ownership(s, pc) && Wakeups(s, pc)
    ensures Ownership(OsEffect(s, t, pc, step), OsNext(s, pc, step))
    ensures Wakeups(OsEffect(s, t, pc, step), OsNext(s, pc, step))
  {
    OsStepOwnership(s, t, pc, step);
    OsStepWakeups(s, t, pc, step);
    hide *;
  }

  /** Only the bits of the lock word and the firmware's position matter to ownership. */
  lemma OwnershipBits(s: State, s': State, pc: Pc)
    requires Ownership(s, pc) && s'.spin == s.spin && s'.handler == s.handler
    requires !(OsOwnsAt(pc) && FwOwnsAt(s'.fw))
    requires Owned(s'.word) <==> OsOwnsAt(pc) || FwOwnsAt(s'.fw)
    requires Pending(s'.word) ==> Owned(s'.word)
    ensures Ownership(s', pc)
  {
  }

  /** The steps that may write the lock word. */
  lemma SwapOwnership(s: State, pc: Pc, step: OtherStep)
    requires step.FwSwap? || step.FwSwapRelease?
    requires OtherEnabled(s, step) && Ownership(s, pc)
    ensures Ownership(OtherEffect(s, step), pc)
  {
    OfferBits(s.word);
    hide Owned, Pending, AcquireWord, ReleaseWord;
    var s' := OtherEffect(s, step);
    if s.word != s.fw.seen {
      assert s'.word == s.word;
    } else if step.FwSwap? {
      assert s'.word == AcquireWord(s.word);
    } else {
      assert s'.word == ReleaseWord(s.word);
    }
    OwnershipBits(s, s', pc);
  }

  lemma OtherStepOwnership(s: State, pc: Pc, step: OtherStep)
    requires OtherEnabled(s, step) && Ownership(s, pc)
    ensures Ownership(OtherEffect(s, step), pc)
  {
    if step.FwSwap? || step.FwSwapRelease? {
      SwapOwnership(s, pc, step);
    } else {
      assert OtherEffect(s, step).word == s.word;
    }
    hide Owned, Pending, AcquireWord, ReleaseWord;
  }

  lemma OtherStepWakeups(s: State, pc: Pc, step: OtherStep)
    requires OtherEnabled(s, step) && Ownership(s, pc) && Wakeups(s, pc)
    ensures Wakeups(OtherEffect(s, step), pc)
  {
    OfferBits(s.word);
    hide Owned, Pending, AcquireWord, ReleaseWord;
  }

  /** A step of the handler or the firmware keeps the invariant, wherever the mutex holder stands. */
  lemma OtherStepInv(s: State, pc: Pc, step: OtherStep)
    requires OtherEnabled(s, step) && Ownership(s, pc) && Wakeups(s, pc)
    ensures Ownership(OtherEffect(s, step), pc)
    ensures Wakeups(OtherEffect(s, step), pc)
  {
    OtherStepOwnership(s, pc, step);
    OtherStepWakeups(s, pc, step);
    hide *;
  }

  /** The invariants read nothing of `pcs`. */
  lemma PcsIrrelevant(s: State, pcs: map<nat, Pc>, pc: Pc)
    ensures Ownership(s.(pcs := pcs), pc) == Ownership(s, pc) && Wakeups(s.(pcs := pcs), pc) == Wakeups(s, pc)
  {
  }

  /** Only the thread that holds the native mutex, or one that takes it, can move. */
  lemma StepThread(s: State, t: nat, step: OsStep)
    requires OneThread(s) && OsEnabled(s, At(s, t), step)
    ensures Active(s) == At(s, t)
    ensures var s' := Do(s, Os(t, step));
            OneThread(s') && Active(s') == OsNext(s, At(s, t), step)
  {
    hide Owned, Pending, AcquireWord, ReleaseWord;
    assert step.TakeMutex? || (t in s.pcs && s.pcs[t] != Out);
  }

  /** The invariant, once the program counter of the mutex holder is known. */
  lemma InvFrom(s: State, pc: Pc)
    requires OneThread(s) && Active(s) == pc && Ownership(s, pc) && Wakeups(s, pc)
    ensures Inv(s)
  {
    hide OneThread, Active, Ownership, Wakeups;
  }

  lemma OsStepKeepsInv(s: State, t: nat, step: OsStep)
    requires Inv(s) && Enabled(s, Os(t, step))
    ensures Inv(Do(s, Os(t, step)))
  {
    var pc := At(s, t);
    StepThread(s, t, step);
    hide OneThread, Active, At, Ownership, Wakeups, OsEffect, OsNext, OsEnabled;
    OsStepInv(s, t, pc, step);
    PcsIrrelevant(OsEffect(s, t, pc, step), s.pcs[t := OsNext(s, pc, step)], OsNext(s, pc, step));
    InvFrom(Do(s, Os(t, step)), OsNext(s, pc, step));
  }

  /** A step of the handler or the firmware moves no thread. */
  lemma OtherStepThread(s: State, step: OtherStep)
    requires OneThread(s) && OtherEnabled(s, step)
    ensures OneThread(OtherEffect(s, step)) && Active(OtherEffect(s, step)) == Active(s)
  {
    hide Owned, Pending, AcquireWord, ReleaseWord;
    var s' := OtherEffect(s, step);
    assert s'.pcs == s.pcs && s'.mutex == s.mutex;
  }

  lemma StepInv(s: State, a: Action)
    requires Inv(s) && Enabled(s, a)
    ensures Inv(Do(s, a))
  {
    hide OneThread, Active, At, Ownership, Wakeups, OsEffect, OsNext, OsEnabled, OtherEffect, OtherEnabled;
    match a
    case Os(t, step) =>
      OsStepKeepsInv(s, t, step);
    case Other(step) =>
      OtherStepThread(s, step);
      OtherStepInv(s, Active(s), step);
      InvFrom(OtherEffect(s, step), Active(s));
  }

  // ---------- every run ----------

  /** A run: the states met when the actions happen one after the other, each enabled where it happens. */
  ghost predicate IsRun(states: seq<State>, actions: seq<Action>) {
    && |states| == |actions| + 1
    && (exists w :: !Owned(w) && !Pending(w) && states[0] == Init(w))
    && forall i :: 0 <= i < |actions| ==> IsStep(states[i], actions[i], states[i + 1])
  }

  ghost predicate IsStep(s: State, a: Action, s': State) {
    Enabled(s, a) && s' == Do(s, a)
  }

  lemma {:induction false} RunInv(states: seq<State>, actions: seq<Action>, i: nat)
    requires IsRun(states, actions) && i < |states|
    ensures Inv(states[i])
    decreases i
  {
    if i == 0 {
      var w :| !Owned(w) && !Pending(w) && states[0] == Init(w);
      InitInv(w);
    } else {
      RunInv(states, actions, i - 1);
      assert IsStep(states[i - 1], actions[i - 1], states[i - 1 + 1]);
      StepInv(states[i - 1], actions[i - 1]);
    }
  }

  /** In every state of every run the lock has at most one owner, OS thread or firmware. */
  lemma MutualExclusion(states: seq<State>, actions: seq<Action>, i: nat)
    requires IsRun(states, actions) && i < |states|
    ensures var s := states[i];
            && (forall t :: OsOwnsAt(At(s, t)) ==> !FwOwns(s) && Owned(s.word))
            && (forall t, u :: OsOwnsAt(At(s, t)) && OsOwnsAt(At(s, u)) ==> t == u)
            && (Owned(s.word) ==> FwOwns(s) || exists t :: OsOwnsAt(At(s, t)))
  {
    RunInv(states, actions, i);
    var s := states[i];
    hide Owned, Pending;
    forall t: nat | OsOwnsAt(At(s, t)) ensures s.mutex == Some(t) {
    }
    assert OsOwns(s) ==> OsOwnsAt(At(s, s.mutex.value));
  }

  /** No lost wakeup, either way. */
  lemma NoLostWakeup(states: seq<State>, actions: seq<Action>, i: nat, t: nat)
    requires IsRun(states, actions) && i < |states|
    ensures var s := states[i];
            && (At(s, t).Waiting? ==> s.signals > 0 || (s.flag && ReleaseOutstanding(s)))
            && (s.fw.FwWaiting? ==> NotifyOutstanding(s, Active(s)))
  {
    RunInv(states, actions, i);
    hide Owned, Pending;
    assert At(states[i], t).Waiting? ==> states[i].mutex == Some(t);
  }

  // ---------- a waiter is never stuck ----------

  /** The step that brings a waiting OS thread nearer to its signal. */
  function Helper(s: State): OtherStep {
    if s.handler.Inside? then HandlerRun
    else if s.handler.Wanting? then HandlerLock
    else if s.status then Interrupt
    else if s.fw.FwRaising? then FwRaise
    else if s.fw.FwRelSwapping? then FwSwapRelease
    else FwStartRelease
  }

  /** How many such steps are left. */
  function Distance(s: State): nat {
    if s.signals > 0 then 0
    else if s.handler.Inside? then 1
    else if s.handler.Wanting? then 2
    else if s.status then 3
    else if s.fw.FwRaising? then 4
    else if s.fw.FwRelSwapping? && s.fw.seen == s.word then 5
    else 6
  }

  /** A step of the handler brings the signal nearer; so does a firmware step that ends in the interrupt. */
  lemma HelperNearer(s: State)
    requires s.flag && s.signals == 0 && ReleaseOutstanding(s) && (s.spin == ByHandler <==> s.handler.Inside?)
    requires s.spin != ByOs
    ensures OtherEnabled(s, Helper(s)) && Distance(OtherEffect(s, Helper(s))) < Distance(s)
    ensures OtherEffect(s, Helper(s)).pcs == s.pcs
  {
    hide Owned, Pending, AcquireWord, ReleaseWord;
    var s' := OtherEffect(s, Helper(s));
    if s.handler.Resting? && !s.status && s.fw.FwRelSwapping? {
      assert s.word == s.fw.seen ==> s'.fw.FwRaising?;
      assert s.word != s.fw.seen ==> s'.fw.seen == s'.word;
    }
  }

  /**
   While a thread waits unsignalled, a step of the handler or the firmware is enabled that brings the signal nearer.
   */
  lemma WaiterHelped(s: State, t: nat)
    requires Inv(s) && At(s, t).Waiting? && s.signals == 0
    ensures OtherEnabled(s, Helper(s)) && Distance(OtherEffect(s, Helper(s))) < Distance(s)
    ensures OtherEffect(s, Helper(s)).pcs == s.pcs
  {
    hide Owned, Pending, ReleaseOutstanding, NotifyOutstanding, Helper, Distance, OtherEffect, OtherEnabled;
    assert s.mutex == Some(t);
    HelperNearer(s);
  }

  /** So within Distance(s) steps, none of them an acquisition by the firmware, the waiter can go on. */
  lemma {:induction false} WaiterWakes(s: State, t: nat) returns (actions: seq<Action>, s': State)
    requires Inv(s) && At(s, t).Waiting?
    ensures |actions| <= Distance(s) && forall a :: a in actions ==> a.Other? && !a.other.FwSwap?
    ensures Inv(s') && At(s', t) == At(s, t) && Enabled(s', Os(t, Wake))
    decreases Distance(s)
  {
    if s.signals > 0 {
      actions, s' := [], s;
    } else {
      WaiterHelped(s, t);
      StepInv(s, Other(Helper(s)));
      var rest;
      rest, s' := WaiterWakes(OtherEffect(s, Helper(s)), t);
      actions := [Other(Helper(s))] + rest;
    }
  }

  /** An attempt that nobody disturbs takes a free lock. */
  lemma FreeLockIsTaken(s: State, t: nat)
    requires Inv(s) && At(s, t).Locking? && s.spin == Free && !FwOwns(s)
    ensures var s1 := Do(s, Os(t, TakeSpin));
            var s2 := Do(s1, Os(t, Read));
            var s3 := Do(s2, Os(t, Swap));
            Enabled(s3, Os(t, Settle)) && At(Do(s3, Os(t, Settle)), t) == Owning
  {
    hide Owned, Pending, AcquireWord, ReleaseWord;
    assert s.mutex == Some(t);
  }

  /** The handler gets out of the way, if it is in. */
  function Calmed(s: State): State {
    if s.handler.Inside? then OtherEffect(s, HandlerRun) else s
  }

  /** A thread that has been signalled goes round again, and takes the lock if the firmware has let go of it. */
  lemma WokenTakesLock(s: State, t: nat)
    requires Inv(s) && At(s, t).Waiting? && s.signals > 0 && !FwOwns(s)
    ensures var s0 := Calmed(s);
            && Enabled(s0, Os(t, Wake))
            && var s1 := Do(s0, Os(t, Wake));
            && Enabled(s1, Os(t, TakeSpin))
            && var s2 := Do(s1, Os(t, TakeSpin));
            && Enabled(s2, Os(t, Read))
            && var s3 := Do(s2, Os(t, Read));
            && Enabled(s3, Os(t, Swap))
            && var s4 := Do(s3, Os(t, Swap));
            && Enabled(s4, Os(t, Settle))
            && At(Do(s4, Os(t, Settle)), t) == Owning
  {
    var s0 := Calmed(s);
    if s.handler.Inside? {
      StepInv(s, Other(HandlerRun));
    }
    WokenLocking(s0, t);
    var s1 := Do(s0, Os(t, Wake));
    StepInv(s0, Os(t, Wake));
    hide Inv, Owned, Pending, AcquireWord, ReleaseWord;
    FreeLockIsTaken(s1, t);
  }

  lemma WokenLocking(s: State, t: nat)
    requires Inv(s) && At(s, t).Waiting? && s.signals > 0 && !s.handler.Inside?
    ensures Enabled(s, Os(t, Wake))
    ensures var s1 := Do(s, Os(t, Wake)); At(s1, t).Locking? && s1.spin == Free && s1.fw == s.fw
  {
    hide Owned, Pending, AcquireWord, ReleaseWord, Wakeups;
    assert s.mutex == Some(t);
  }

  /** An attempt that nobody disturbs marks a taken lock as wanted and waits, unless it was the last. */
  lemma TakenLockIsAwaited(s: State, t: nat)
    requires Inv(s) && At(s, t).Locking? && s.spin == Free && FwOwns(s) && At(s, t).spins + 1 != MAX_SPINS
    ensures var s1 := Do(s, Os(t, TakeSpin));
            var s2 := Do(s1, Os(t, Read));
            var s3 := Do(s2, Os(t, Swap));
            && Enabled(s3, Os(t, Arm))
            && var s4 := Do(s3, Os(t, Arm));
            && Enabled(s4, Os(t, Sleep))
            && var s5 := Do(s4, Os(t, Sleep));
               At(s5, t) == Waiting(At(s, t).spins + 1) && Pending(s5.word) && s5.flag && s5.spin == Free
  {
    OfferBits(s.word);
    hide Owned, Pending, AcquireWord, ReleaseWord;
    assert s.mutex == Some(t);
  }

  lemma ReleaseRead(s: State, t: nat)
    requires Inv(s) && At(s, t) == Owning
    ensures Enabled(s, Os(t, StartRelease))
    ensures var s1 := Do(s, Os(t, StartRelease));
            && Enabled(s1, Os(t, ReadForRelease))
            && var s2 := Do(s1, Os(t, ReadForRelease));
               At(s2, t) == RelSwapping(s.word) && s2.word == s.word && s2.rls == s.rls
  {
    hide Owned, Pending, AcquireWord, ReleaseWord, Wakeups, Ownership, OneThread;
  }

  lemma ReleaseWritten(s: State, t: nat)
    requires At(s, t) == RelSwapping(s.word)
    ensures Enabled(s, Os(t, SwapRelease))
    ensures var s3 := Do(s, Os(t, SwapRelease));
            && !Owned(s3.word) && !Pending(s3.word) && (Enabled(s3, Os(t, Notify)) <==> Pending(s.word))
            && var s4 := if Pending(s.word) then Do(s3, Os(t, Notify)) else s3;
            && Enabled(s4, Os(t, Leave)) && s4.rls == (s.rls || Pending(s.word))
            && var s5 := Do(s4, Os(t, Leave));
               At(s5, t) == Out && s5.mutex == None
  {
    OfferBits(s.word);
    hide Owned, Pending, AcquireWord, ReleaseWord;
  }

  /** An owner that nobody disturbs lets go, and tells the firmware exactly if it was waiting. */
  lemma OwnerLetsGo(s: State, t: nat)
    requires Inv(s) && At(s, t) == Owning
    ensures Enabled(s, Os(t, StartRelease))
    ensures var s1 := Do(s, Os(t, StartRelease));
            && Enabled(s1, Os(t, ReadForRelease))
            && var s2 := Do(s1, Os(t, ReadForRelease));
            && Enabled(s2, Os(t, SwapRelease))
            && var s3 := Do(s2, Os(t, SwapRelease));
            && !Owned(s3.word) && !Pending(s3.word) && (Enabled(s3, Os(t, Notify)) <==> Pending(s.word))
            && var s4 := if Pending(s.word) then Do(s3, Os(t, Notify)) else s3;
            && Enabled(s4, Os(t, Leave)) && s4.rls == (s.rls || Pending(s.word))
            && var s5 := Do(s4, Os(t, Leave));
               At(s5, t) == Out && s5.mutex == None
  {
    ReleaseRead(s, t);
    hide *;
    ReleaseWritten(Do(Do(s, Os(t, StartRelease)), Os(t, ReadForRelease)), t);
  }

  // ---------- giving up ----------

  /** How often t takes the spinlock to try, from the i-th action up to the j-th. */
  function Attempts(actions: seq<Action>, t: nat, i: nat, j: nat): nat
    requires i <= j <= |actions|
    decreases j
  {
    if i == j then 0
    else Attempts(actions, t, i, j - 1) + if actions[j - 1] == Os(t, TakeSpin) then 1 else 0
  }

  /** Still trying after n attempts, or leaving after the last. */
  predicate Trying(pc: Pc, n: nat) {
    || ((pc.Locking? || pc.Reading? || pc.Swapping? || pc.Lost? || pc.Armed? || pc.Waiting?) && pc.spins == n)
    || (pc.Leaving? && n == MAX_SPINS)
  }

  lemma TryingStep(s: State, a: Action, t: nat, n: nat)
    requires Enabled(s, a) && Trying(At(s, t), n)
    ensures var pc := At(Do(s, a), t);
            && (pc == Out ==> n == MAX_SPINS && a != Os(t, TakeSpin))
            && (pc != Out && !OsOwnsAt(pc) ==> Trying(pc, n + if a == Os(t, TakeSpin) then 1 else 0))
  {
    hide Owned, Pending, AcquireWord, ReleaseWord;
  }

  lemma StartsTrying(s: State, a: Action, t: nat)
    requires Enabled(s, a) && At(s, t) == Out && At(Do(s, a), t) != Out
    ensures Trying(At(Do(s, a), t), 0) && a != Os(t, TakeSpin)
  {
    hide Owned, Pending, AcquireWord, ReleaseWord;
  }

  lemma {:induction false} TryingSo(states: seq<State>, actions: seq<Action>, t: nat, i: nat, k: nat)
    requires IsRun(states, actions) && i < k < |states| && At(states[i], t) == Out
    requires forall m :: i < m <= k ==> At(states[m], t) != Out && !OsOwnsAt(At(states[m], t))
    ensures Trying(At(states[k], t), Attempts(actions, t, i, k))
    decreases k
  {
    hide Do, Enabled, At, Trying, OsOwnsAt, Init, Owned, Pending;
    assert IsStep(states[k - 1], actions[k - 1], states[k - 1 + 1]);
    if k == i + 1 {
      StartsTrying(states[i], actions[i], t);
    } else {
      TryingSo(states, actions, t, i, k - 1);
      TryingStep(states[k - 1], actions[k - 1], t, Attempts(actions, t, i, k - 1));
    }
  }

  /** Over every run: a thread that comes out again without ever having owned the lock has made all its attempts. */
  lemma GivesUpLast(states: seq<State>, actions: seq<Action>, t: nat, i: nat, j: nat)
    requires IsRun(states, actions) && i + 1 < j < |states| && At(states[i], t) == Out == At(states[j], t)
    requires forall m :: i < m < j ==> At(states[m], t) != Out && !OsOwnsAt(At(states[m], t))
    ensures Attempts(actions, t, i, j) == 0xFFFF
  {
    hide Do, Enabled, At, Trying, OsOwnsAt, Init, Owned, Pending;
    TryingSo(states, actions, t, i, j - 1);
    assert IsStep(states[j - 1], actions[j - 1], states[j - 1 + 1]);
    TryingStep(states[j - 1], actions[j - 1], t, Attempts(actions, t, i, j - 1));
  }

  // ---------- sequence numbers ----------

  const U32: nat := 0x1_0000_0000

  /** uacpi_acquire_global_lock's and uacpi_release_global_lock's bookkeeping, once the lock itself is held. */
  class Sequence {
    var seqNum: nat
    var acquired: bool

    method Acquire() returns (outSeq: nat)
      requires seqNum < U32
      modifies this
      ensures acquired && outSeq < U32 - 1 && seqNum == outSeq + 1
    {
      if seqNum == U32 - 1 {
        seqNum := 0;
      }
      outSeq := seqNum;
      seqNum := seqNum + 1;
      acquired := true;
    }

    /** Returns whether the lock was released. */
    method Release(seq_: nat) returns (ok: bool)
      modifies this
      ensures ok <==> old(acquired) && seq_ == old(seqNum)
      ensures acquired == (old(acquired) && !ok) && seqNum == old(seqNum)
    {
      if !acquired || seq_ != seqNum {
        return false;
      }
      acquired := false;
      return true;
    }
  }

  /** A lock acquired is never released by the number its acquisition returned; the next number releases it. */
  method AcquireThenRelease(s: Sequence) returns (own: bool, next: bool)
    requires s.seqNum < U32
    modifies s
    ensures !own && next
  {
    var n := s.Acquire();
    own := s.Release(n);
    next := s.Release(n + 1);
  }
}
