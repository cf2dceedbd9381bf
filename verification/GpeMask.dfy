/**
 Masking a general-purpose event: one register of events, any number of interrupts and deferred work items, and
 the API callers serialized by the event lock, as a state machine over their separate reads and writes. A set of
 event numbers stands for each 8-bit mask.
 */
module GpeMask {
  import opened Options

  datatype GpeState = Enabled | Conditional | Disabled

  /** Inside set_gpe_state: past the mask test, past both tests, or between the register read and write. */
  datatype Call =
    | Unmasked(e: nat, want: GpeState)
    | Ready(e: nat, on: bool)
    | Storing(e: nat, on: bool, seen: set<nat>)

  /** What the thread that holds the event lock is doing; `jobs` are those it waits for. */
  datatype HolderPc =
    | NoHolder
    | Idle
    | Calling(call: Call)
    | Draining(e: nat, jobs: set<nat>)
    | Disabling(call: Call)
    | Flushing(e: nat, jobs: set<nat>)
    | Applying(value: set<nat>)

  datatype State = State(
    runtime: set<nat>,
    current: set<nat>,
    wake: set<nat>,
    masked: set<nat>,
    enable: set<nat>,            // the hardware register
    jobs: map<nat, Option<Call>>, // interrupts and deferred work in flight
    holder: HolderPc,
    spin: Option<Caller>,        // who holds the register spinlock
    settled: set<nat>            // events whose masking has returned and not been undone
  )

  datatype Caller = Job(id: nat) | Holder

  datatype Action =
    | TakeLock
    | DropLock
    | Mask(e: nat)
    | Drained
    | Flushed
    | Unmask(e: nat, reenable: bool)
    | AddUser(e: nat)
    | RemoveUser(e: nat)
    | SetState(e: nat, want: GpeState)
    | ChangeWake(mask: set<nat>)
    | EnableAllRuntime
    | EnableAllWake
    | DisableAll
    | Apply
    | StartJob(id: nat)
    | EndJob(id: nat)
    | JobCall(id: nat, e: nat, want: GpeState)
    | Test(c: Caller)
    | Load(c: Caller)
    | Store(c: Caller)

  function CallOf(s: State, c: Caller): Option<Call> {
    match c
    case Job(id) => if id in s.jobs then s.jobs[id] else None
    case Holder => if s.holder.Calling? || s.holder.Disabling? then Some(s.holder.call) else None
  }

  /** The caller's call moves on, or returns. */
  function SetCall(s: State, c: Caller, call: Option<Call>): State {
    match c
    case Job(id) => s.(jobs := s.jobs[id := call])
    case Holder =>
      if s.holder.Disabling? then
        s.(holder := if call == None then Flushing(s.holder.call.e, s.jobs.Keys) else Disabling(call.value))
      else s.(holder := if call == None then Idle else Calling(call.value))
  }

  /** set_gpe_state's first test, made before the spinlock is taken. */
  function Begin(s: State, e: nat, want: GpeState): Option<Call> {
    if want != Disabled && e in s.masked then None else Some(Unmasked(e, want))
  }

  predicate Can(s: State, a: Action) {
    match a
    case TakeLock => s.holder.NoHolder?
    case DropLock => s.holder.Idle?
    case Mask(e) => s.holder.Idle?
    case Drained => s.holder.Draining? && s.holder.jobs * s.jobs.Keys == {}
    case Flushed => s.holder.Flushing? && s.holder.jobs * s.jobs.Keys == {}
    case Unmask(e, _) => s.holder.Idle? && e in s.masked
    case AddUser(e) => s.holder.Idle?
    case RemoveUser(e) => s.holder.Idle?
    case SetState(e, _) => s.holder.Idle?
    case ChangeWake(_) => s.holder.Idle?
    case EnableAllRuntime => s.holder.Idle?
    case EnableAllWake => s.holder.Idle?
    case DisableAll => s.holder.Idle?
    case Apply => s.holder.Applying?
    case StartJob(id) => id !in s.jobs
    case EndJob(id) => id in s.jobs && s.jobs[id] == None
    case JobCall(id, e, want) => id in s.jobs && s.jobs[id] == None
    case Test(c) => CallOf(s, c).Some? && CallOf(s, c).value.Unmasked?
    case Load(c) => CallOf(s, c).Some? && CallOf(s, c).value.Ready? && s.spin == None
    case Store(c) => CallOf(s, c).Some? && CallOf(s, c).value.Storing?
  }

  function Do(s: State, a: Action): State
    requires Can(s, a)
  {
    match a
    case TakeLock => s.(holder := Idle)
    case DropLock => s.(holder := NoHolder)
    case Mask(e) =>
      // a second mask is refused without effect
      if e in s.masked then s else s.(masked := s.masked + {e}, holder := Draining(e, s.jobs.Keys))
    case Drained => s.(holder := Disabling(Unmasked(s.holder.e, Disabled)))
    case Flushed => s.(holder := Idle, settled := s.settled + {s.holder.e})
    case Unmask(e, reenable) =>
      var s' := s.(masked := s.masked - {e}, settled := s.settled - {e});
      if reenable then SetCall(s', Holder, Begin(s', e, Conditional)) else s'
    case AddUser(e) =>
      var s' := s.(runtime := s.runtime + {e}, current := s.runtime + {e});
      SetCall(s', Holder, Begin(s', e, Enabled))
    case RemoveUser(e) =>
      var s' := s.(runtime := s.runtime - {e}, current := s.runtime - {e});
      SetCall(s', Holder, Begin(s', e, Disabled))
    case SetState(e, want) => SetCall(s, Holder, Begin(s, e, want))
    case ChangeWake(mask) => s.(wake := mask)
    case EnableAllRuntime => s.(current := s.runtime - s.masked, holder := Applying(s.runtime - s.masked))
    case EnableAllWake => s.(current := s.wake, holder := Applying(s.wake))
    case DisableAll => s.(current := {}, holder := Applying({}))
    case Apply => s.(enable := s.holder.value, holder := Idle)
    case StartJob(id) => s.(jobs := s.jobs[id := None])
    case EndJob(id) => s.(jobs := s.jobs - {id})
    case JobCall(id, e, want) => SetCall(s, Job(id), Begin(s, e, want))
    case Test(c) =>
      var call := CallOf(s, c).value;
      if call.want == Conditional && call.e !in s.current then SetCall(s, c, None)
      else SetCall(s, c, Some(Ready(call.e, call.want != Disabled)))
    case Load(c) =>
      var call := CallOf(s, c).value;
      SetCall(s, c, Some(Storing(call.e, call.on, s.enable))).(spin := Some(c))
    case Store(c) =>
      var call := CallOf(s, c).value;
      SetCall(s, c, None).(spin := None, enable := if call.on then call.seen + {call.e} else call.seen - {call.e})
  }

  // ---------- the invariant ----------

  /** A call that will, if it goes on, set the enable bit of e itself. */
  predicate Enables(call: Option<Call>, e: nat) {
    call.Some? && call.value.e == e &&
    match call.value
    case Unmasked(_, want) => want != Disabled
    case Ready(_, on) => on
    case Storing(_, on, _) => on
  }

  /** A call that would put back a set bit of e it has read. */
  predicate Restores(call: Option<Call>, e: nat) {
    call.Some? && call.value.Storing? && e in call.value.seen
  }

  /** Nobody is about to set the bit of e on purpose. */
  ghost predicate NoEnabler(s: State, e: nat) {
    forall c :: !Enables(CallOf(s, c), e)
  }

  /** The bit of e is clear and nobody is about to set it in any way. */
  ghost predicate Quiet(s: State, e: nat) {
    && e in s.masked && e !in s.enable
    && NoEnabler(s, e)
    && (forall c :: !Restores(CallOf(s, c), e))
    && (s.holder.Applying? ==> e !in s.holder.value)
  }

  /** The lock holder is in the middle of masking e. */
  predicate Masking(s: State, e: nat) {
    match s.holder
    case Draining(e', _) => e' == e
    case Disabling(call) => call.e == e
    case Flushing(e', _) => e' == e
    case _ => false
  }

  ghost predicate Inv(s: State) {
    && (forall c {:trigger CallOf(s, c)} :: s.spin == Some(c) <==> CallOf(s, c).Some? && CallOf(s, c).value.Storing?)
    && (forall e :: e in s.settled ==> Quiet(s, e))
    && (s.holder.Draining? ==>
          var e := s.holder.e;
          e in s.masked && forall id :: id in s.jobs && id !in s.holder.jobs ==> !Enables(s.jobs[id], e))
    && (s.holder.Disabling? ==>
          s.holder.call.e in s.masked && NoEnabler(s, s.holder.call.e))
    && (s.holder.Flushing? ==> Quiet(s, s.holder.e))
    && (forall e :: e in s.masked ==> e in s.settled || Masking(s, e))
  }

  /** Actions that respect masks: enable-all-for-wake writes wake_mask whatever is masked. */
  predicate RespectsMasks(s: State, a: Action) {
    a.EnableAllWake? ==> s.wake * s.settled == {}
  }

  // ---------- every step keeps it ----------

  /** The call an action moves, if it moves one. */
  function Mover(a: Action): Option<Caller> {
    match a
    case Mask(_) | Drained | Flushed | Unmask(_, _) | AddUser(_) | RemoveUser(_) | SetState(_, _) => Some(Holder)
    case TakeLock | DropLock | Apply | EnableAllRuntime | EnableAllWake | DisableAll => Some(Holder)
    case StartJob(id) => Some(Job(id))
    case EndJob(id) => Some(Job(id))
    case JobCall(id, _, _) => Some(Job(id))
    case Test(c) => Some(c)
    case Load(c) => Some(c)
    case Store(c) => Some(c)
    case ChangeWake(_) => None
  }

  /** Only the caller that acts has its call moved. */
  lemma OtherCallsStay(s: State, a: Action, c: Caller)
    requires Can(s, a) && Mover(a) != Some(c)
    ensures CallOf(Do(s, a), c) == CallOf(s, c)
  {
  }

  lemma SpinStep(s: State, a: Action, c: Caller)
    requires Inv(s) && Can(s, a)
    ensures var s' := Do(s, a);
            s'.spin == Some(c) <==> CallOf(s', c).Some? && CallOf(s', c).value.Storing?
  {
    if Mover(a) != Some(c) {
      OtherCallsStay(s, a, c);
      assert s.spin == Some(c) <==> CallOf(s, c).Some? && CallOf(s, c).value.Storing?;
      hide Inv, Quiet, NoEnabler;
    } else {
      assert s.spin == Some(c) <==> CallOf(s, c).Some? && CallOf(s, c).value.Storing?;
      hide Inv, Quiet, NoEnabler;
    }
  }

  /** While e stays masked no call can pass the test for it again. */
  lemma NoEnablerStep(s: State, a: Action, e: nat)
    requires Can(s, a) && e in s.masked && NoEnabler(s, e)
    requires !(a.Unmask? && a.e == e)
    ensures NoEnabler(Do(s, a), e)
  {
    var s' := Do(s, a);
    forall c ensures !Enables(CallOf(s', c), e) {
      assert !Enables(CallOf(s, c), e);
      if Mover(a) != Some(c) {
        OtherCallsStay(s, a, c);
      }
    }
  }

  /** A quiet event stays quiet through everything but its own unmasking and an enable-all that names it. */
  lemma QuietStep(s: State, a: Action, e: nat)
    requires Can(s, a) && Quiet(s, e)
    requires !(a.Unmask? && a.e == e)
    requires a.EnableAllWake? ==> e !in s.wake
    ensures Quiet(Do(s, a), e)
  {
    var s' := Do(s, a);
    NoEnablerStep(s, a, e);
    forall c ensures !Restores(CallOf(s', c), e) {
      assert !Restores(CallOf(s, c), e);
      if Mover(a) != Some(c) {
        OtherCallsStay(s, a, c);
      }
    }
    assert e !in s'.enable by {
      if a.Store? {
        assert !Enables(CallOf(s, a.c), e) && !Restores(CallOf(s, a.c), e);
      }
    }
    hide NoEnabler;
  }

  /** Once the marked jobs have drained, no job can set the bit. */
  lemma DrainedStep(s: State)
    requires Inv(s) && Can(s, Drained)
    ensures NoEnabler(Do(s, Drained), s.holder.e)
  {
    var s', e := Do(s, Drained), s.holder.e;
    forall c ensures !Enables(CallOf(s', c), e) {
      if c.Job? && c.id in s.jobs {
        assert c.id !in s.holder.jobs * s.jobs.Keys;
        assert !Enables(s.jobs[c.id], e);
      }
    }
  }

  /** Masking's own disabling, once stored, leaves the event quiet: it held the spinlock, so nobody else has read. */
  lemma DisabledStep(s: State, a: Action)
    requires Inv(s) && Can(s, a) && s.holder.Disabling? && Mover(a) == Some(Holder)
    ensures var s', e := Do(s, a), s.holder.call.e;
            if s'.holder.Flushing? then s'.holder.e == e && Quiet(s', e)
            else s'.holder.Disabling? && s'.holder.call.e == e && NoEnabler(s', e)
  {
    var s', e := Do(s, a), s.holder.call.e;
    NoEnablerStep(s, a, e);
    assert !Enables(CallOf(s, Holder), e);
    if s'.holder.Flushing? {
      assert s.spin == Some(Holder);
      forall c ensures !Restores(CallOf(s', c), e) {
        assert s.spin == Some(c) <==> CallOf(s, c).Some? && CallOf(s, c).value.Storing?;
        if c != Holder {
          OtherCallsStay(s, a, c);
        }
      }
    }
    hide NoEnabler;
  }

  lemma DrainingStep(s: State, a: Action, id: nat)
    requires Inv(s) && Can(s, a) && Do(s, a).holder.Draining?
    ensures var s' := Do(s, a);
            id in s'.jobs && id !in s'.holder.jobs ==> !Enables(s'.jobs[id], s'.holder.e)
  {
    var s' := Do(s, a);
    if id in s'.jobs && id !in s'.holder.jobs && s.holder.Draining? && id in s.jobs {
      assert !Enables(s.jobs[id], s.holder.e);
      assert CallOf(s, Job(id)) == s.jobs[id];
    }
  }

  lemma MaskedStep(s: State, a: Action, e: nat)
    requires Inv(s) && Can(s, a)
    ensures var s' := Do(s, a); e in s'.masked ==> e in s'.settled || Masking(s', e)
  {
    assert e in s.masked ==> e in s.settled || Masking(s, e);
    assert s.holder.Disabling? ==> s.holder.call.e in s.masked && NoEnabler(s, s.holder.call.e);
    if s.holder.Disabling? {
      assert !Enables(CallOf(s, Holder), s.holder.call.e);
    }
    hide Inv, Quiet, NoEnabler;
  }

  lemma HolderStep(s: State, a: Action)
    requires Inv(s) && Can(s, a) && RespectsMasks(s, a)
    ensures var s' := Do(s, a);
            && (s'.holder.Disabling? ==> s'.holder.call.e in s'.masked && NoEnabler(s', s'.holder.call.e))
            && (s'.holder.Flushing? ==> Quiet(s', s'.holder.e))
            && (s'.holder.Draining? ==> s'.holder.e in s'.masked)
  {
    if s.holder.Disabling? {
      if Mover(a) == Some(Holder) {
        DisabledStep(s, a);
      } else {
        NoEnablerStep(s, a, s.holder.call.e);
      }
    } else if s.holder.Flushing? && Mover(a) != Some(Holder) {
      QuietStep(s, a, s.holder.e);
    } else if a.Drained? {
      DrainedStep(s);
    }
    hide Quiet, NoEnabler;
  }

  lemma SettledStep(s: State, a: Action, e: nat)
    requires Inv(s) && Can(s, a) && RespectsMasks(s, a) && e in Do(s, a).settled
    ensures Quiet(Do(s, a), e)
  {
    if a.Flushed? && e == s.holder.e {
      QuietStep(s, a, e);
    } else {
      assert e in s.settled && Quiet(s, e);
      assert a.EnableAllWake? && e in s.wake ==> e in s.wake * s.settled;
      hide Inv, Quiet;
      QuietStep(s, a, e);
    }
  }

  /** Every step that respects masks keeps the invariant. */
  lemma StepInv(s: State, a: Action)
    requires Inv(s) && Can(s, a) && RespectsMasks(s, a)
    ensures Inv(Do(s, a))
  {
    var s' := Do(s, a);
    HolderStep(s, a);
    forall c ensures s'.spin == Some(c) <==> CallOf(s', c).Some? && CallOf(s', c).value.Storing? {
      SpinStep(s, a, c);
    }
    forall e | e in s'.settled ensures Quiet(s', e) {
      SettledStep(s, a, e);
    }
    forall e | e in s'.masked ensures e in s'.settled || Masking(s', e) {
      MaskedStep(s, a, e);
    }
    if s'.holder.Draining? {
      forall id | id in s'.jobs && id !in s'.holder.jobs ensures !Enables(s'.jobs[id], s'.holder.e) {
        DrainingStep(s, a, id);
      }
    }
    hide Quiet, NoEnabler, Do, Can, Enables, CallOf, Masking, RespectsMasks;
  }

  // ---------- runs ----------

  /** Nothing masked, nobody at work; the enable register may hold anything. */
  predicate Init(s: State) {
    && s.masked == {} && s.settled == {} && s.jobs == map[]
    && s.holder == NoHolder && s.spin == None
  }

  predicate IsStep(s: State, a: Action, s': State) {
    Can(s, a) && s' == Do(s, a)
  }

  /** A run as its states and the actions between them. */
  ghost predicate IsRun(run: seq<State>, actions: seq<Action>) {
    && |run| == |actions| + 1 && Init(run[0])
    && forall i :: 0 <= i < |actions| ==> IsStep(run[i], actions[i], run[i + 1])
  }

  /** A run whose actions all respect masks. */
  ghost predicate Run(run: seq<State>, actions: seq<Action>) {
    IsRun(run, actions) && forall i :: 0 <= i < |actions| ==> RespectsMasks(run[i], actions[i])
  }

  lemma {:induction false} RunInv(run: seq<State>, actions: seq<Action>, i: nat)
    requires Run(run, actions) && i < |run|
    ensures Inv(run[i])
  {
    if i > 0 {
      RunInv(run, actions, i - 1);
      assert IsStep(run[i - 1], actions[i - 1], run[i]);
      StepInv(run[i - 1], actions[i - 1]);
    }
  }

  /** In every state of every run, a masked event whose masking is not still under way has its enable bit clear. */
  lemma MaskedStaysDisabled(run: seq<State>, actions: seq<Action>, i: nat, e: nat)
    requires Run(run, actions) && i < |run|
    requires e in run[i].masked && !Masking(run[i], e)
    ensures e !in run[i].enable
  {
    RunInv(run, actions, i);
    assert Quiet(run[i], e);
  }

  /**
   Enabling every event for wake does break masks: it clears the enable bits of all masked events exactly when no
   masked event is marked for wake.
   */
  lemma EnableAllWakeRespects(s: State)
    requires Can(s, EnableAllWake)
    ensures var s' := Do(Do(s, EnableAllWake), Apply); s'.masked * s'.enable == {} <==> s.masked * s.wake == {}
  {
  }

  /** Any run that has masked an event can go on to have its bit set. */
  lemma WakeBreaksMask(run: seq<State>, actions: seq<Action>, e: nat)
    returns (run': seq<State>, actions': seq<Action>)
    requires IsRun(run, actions)
    requires var s := run[|actions|]; s.holder.Idle? && e in s.masked
    ensures IsRun(run', actions') && run <= run' && actions <= actions'
    ensures var s := run'[|actions'|]; e in s.masked && !Masking(s, e) && e in s.enable
  {
    var s0 := run[|actions|];
    var s1 := Do(s0, ChangeWake({e}));
    var s2 := Do(s1, EnableAllWake);
    var s3 := Do(s2, Apply);
    run' := run + [s1, s2, s3];
    actions' := actions + [ChangeWake({e}), EnableAllWake, Apply];
    hide Do, Can;
    forall i | 0 <= i < |actions'| ensures IsStep(run'[i], actions'[i], run'[i + 1]) {
      if i < |actions| {
        assert IsStep(run[i], actions[i], run[i + 1]);
      }
    }
  }

  /** A handler update masks the event when it looks enabled, and afterwards unmasks it whenever it so tried. */
  function UpdateHandler(s: State, e: nat, reenable: bool): State
    requires s.holder.Idle? && e in s.masked
  {
    if e in s.current then Do(Do(s, Mask(e)), Unmask(e, reenable)) else s
  }

  /**
   Changing the handler of an event the user has masked leaves it masked exactly when the event is not in the
   current mask: the refusal of the second masking goes unnoticed and the unmasking undoes the user's.
   */
  lemma UpdateHandlerKeepsMask(s: State, e: nat, reenable: bool)
    requires Inv(s) && s.holder.Idle? && e in s.masked
    ensures e in UpdateHandler(s, e, reenable).masked <==> e !in s.current
    ensures forall e' :: e' != e ==> (e' in UpdateHandler(s, e, reenable).masked <==> e' in s.masked)
  {
  }

  /** A call of set_gpe_state by the lock holder, from the mask test to its return. */
  lemma CallRuns(s: State, e: nat, on: bool) returns (mid: seq<State>, s': State)
    requires s.spin == None && CallOf(s, Holder) == Some(Unmasked(e, if on then Enabled else Disabled))
    ensures mid == [s, Do(s, Test(Holder)), Do(Do(s, Test(Holder)), Load(Holder))]
    ensures IsStep(s, Test(Holder), mid[1]) && IsStep(mid[1], Load(Holder), mid[2]) && IsStep(mid[2], Store(Holder), s')
    ensures s' == SetCall(s, Holder, None).(enable := if on then s.enable + {e} else s.enable - {e})
  {
    var s1 := Do(s, Test(Holder));
    var s2 := Do(s1, Load(Holder));
    mid, s' := [s, s1, s2], Do(s2, Store(Holder));
  }

  /** The same for the conditional form: it stores only if the event is in the current mask. */
  lemma ConditionalRuns(s: State, e: nat) returns (run: seq<State>, actions: seq<Action>)
    requires s.spin == None && CallOf(s, Holder) == Some(Unmasked(e, Conditional))
    ensures Part(run, actions) && run[0] == s
    ensures run[|actions|] ==
            SetCall(s, Holder, None).(enable := if e in s.current then s.enable + {e} else s.enable)
  {
    var s1 := Do(s, Test(Holder));
    if e in s.current {
      var s2 := Do(s1, Load(Holder));
      run, actions := [s, s1, s2, Do(s2, Store(Holder))], [Test(Holder), Load(Holder), Store(Holder)];
    } else {
      run, actions := [s, s1], [Test(Holder)];
    }
  }

  /**
   An event that is unmasked with its enabling asked for gets its enable bit again, undisturbed, if and only if it is in
   the current mask or has the bit anyway; every other event's bit stays.
   */
  lemma UnmaskEnables(s: State, e: nat) returns (run: seq<State>, actions: seq<Action>)
    requires s.holder.Idle? && s.spin == None && e in s.masked
    ensures Part(run, actions) && run[0] == s && [Unmask(e, true)] <= actions
    ensures var s' := run[|actions|];
            && s'.holder.Idle? && e !in s'.masked && (e in s'.enable <==> e in s.current || e in s.enable)
            && forall x :: x != e ==> (x in s'.enable <==> x in s.enable) && (x in s'.masked <==> x in s.masked)
  {
    var s1 := Do(s, Unmask(e, true));
    var later, steps := ConditionalRuns(s1, e);
    assert IsStep(s, Unmask(e, true), s1);
    PartsJoin([s, s1], [Unmask(e, true)], later, steps);
    run, actions := [s, s1] + later[1..], [Unmask(e, true)] + steps;
  }

  /** An event that gets its first user, undisturbed, has its enable bit set unless it is masked. */
  lemma FirstUserEnables(s: State, e: nat) returns (run: seq<State>, actions: seq<Action>)
    requires s.holder.Idle? && s.spin == None
    ensures Part(run, actions) && run[0] == s && [AddUser(e)] <= actions
    ensures var s' := run[|actions|];
            && s'.holder.Idle? && e in s'.runtime && e in s'.current
            && s'.enable == if e in s.masked then s.enable else s.enable + {e}
  {
    var s1 := Do(s, AddUser(e));
    assert IsStep(s, AddUser(e), s1);
    if e in s.masked {
      run, actions := [s, s1], [AddUser(e)];
    } else {
      var mid, s' := CallRuns(s1, e, true);
      run, actions := [s, s1, mid[1], mid[2], s'], [AddUser(e), Test(Holder), Load(Holder), Store(Holder)];
    }
  }

  /** And one that loses its last user has it cleared. */
  lemma LastUserDisables(s: State, e: nat) returns (run: seq<State>, actions: seq<Action>)
    requires s.holder.Idle? && s.spin == None
    ensures Part(run, actions) && run[0] == s && [RemoveUser(e)] <= actions
    ensures var s' := run[|actions|];
            s'.holder.Idle? && e !in s'.runtime && e !in s'.current && s'.enable == s.enable - {e}
  {
    var s1 := Do(s, RemoveUser(e));
    assert IsStep(s, RemoveUser(e), s1);
    var mid, s' := CallRuns(s1, e, false);
    run, actions := [s, s1, mid[1], mid[2], s'], [RemoveUser(e), Test(Holder), Load(Holder), Store(Holder)];
  }

  /** Masking an event, undisturbed and with nobody to wait for, clears its enable bit and no other. */
  lemma MaskDisables(s: State, e: nat) returns (run: seq<State>, actions: seq<Action>)
    requires s.holder.Idle? && s.spin == None && s.jobs == map[] && e !in s.masked
    ensures Part(run, actions) && run[0] == s && [Mask(e)] <= actions
    ensures var s' := run[|actions|];
            s'.holder.Idle? && s'.masked == s.masked + {e} && s'.enable == s.enable - {e}
  {
    var s1 := Do(s, Mask(e));
    var s2 := Do(s1, Drained);
    var mid, s5 := CallRuns(s2, e, false);
    run := [s, s1, s2, mid[1], mid[2], s5, Do(s5, Flushed)];
    actions := [Mask(e), Drained, Test(Holder), Load(Holder), Store(Holder), Flushed];
    assert IsStep(s, Mask(e), s1) && IsStep(s1, Drained, s2) && IsStep(s5, Flushed, run[6]);
    hide Do, Can, CallOf, SetCall;
  }

  /** Enabling all for runtime enables exactly the events with users that are not masked; disabling all none. */
  lemma AllSet(s: State)
    requires s.holder.Idle?
    ensures Can(s, EnableAllRuntime) && Can(Do(s, EnableAllRuntime), Apply)
    ensures forall e :: e in Do(Do(s, EnableAllRuntime), Apply).enable <==> e in s.runtime && e !in s.masked
    ensures Can(s, DisableAll) && Can(Do(s, DisableAll), Apply) && Do(Do(s, DisableAll), Apply).enable == {}
  {
  }

  /** Part of a run that respects masks. */
  ghost predicate Part(run: seq<State>, actions: seq<Action>) {
    && |run| == |actions| + 1
    && forall i :: 0 <= i < |actions| ==> IsStep(run[i], actions[i], run[i + 1]) && RespectsMasks(run[i], actions[i])
  }

  lemma PartsJoin(a: seq<State>, x: seq<Action>, b: seq<State>, y: seq<Action>)
    requires Part(a, x) && Part(b, y) && a[|x|] == b[0]
    ensures Part(a + b[1..], x + y) && (a + b[1..])[0] == a[0] && (a + b[1..])[|x + y|] == b[|y|]
  {
    var s, z := a + b[1..], x + y;
    forall i | 0 <= i < |z| ensures IsStep(s[i], z[i], s[i + 1]) && RespectsMasks(s[i], z[i]) {
      if i >= |x| {
        assert IsStep(b[i - |x|], y[i - |x|], b[i - |x| + 1]);
      } else {
        assert IsStep(a[i], x[i], a[i + 1]);
      }
    }
    hide IsStep, RespectsMasks;
  }

  /** The lock is taken and the event gets its first user. */
  lemma UserAdded(s0: State, e: nat) returns (run: seq<State>, actions: seq<Action>)
    requires Init(s0)
    ensures Part(run, actions) && run[0] == s0
    ensures var s := run[|actions|];
            s.holder == Idle && s.spin == None && s.jobs == map[] && s.masked == {} && e in s.current
  {
    var s1 := Do(s0, TakeLock);
    var s2 := Do(s1, AddUser(e));
    var calls, s5 := CallRuns(s2, e, true);
    run := [s0, s1, s2, calls[1], calls[2], s5];
    actions := [TakeLock, AddUser(e), Test(Holder), Load(Holder), Store(Holder)];
    assert IsStep(s0, TakeLock, s1) && IsStep(s1, AddUser(e), s2);
    hide Do, Can, CallOf, SetCall;
  }

  /** The event is masked, and nobody has to be waited for. */
  lemma EventMasked(s0: State, e: nat) returns (run: seq<State>, actions: seq<Action>)
    requires s0.holder == Idle && s0.spin == None && s0.jobs == map[] && s0.masked == {}
    ensures Part(run, actions) && run[0] == s0
    ensures var s := run[|actions|];
            s.holder == Idle && e in s.masked && e in s.settled && s.current == s0.current
  {
    var s1 := Do(s0, Mask(e));
    var s2 := Do(s1, Drained);
    var calls, s5 := CallRuns(s2, e, false);
    var s6 := Do(s5, Flushed);
    run := [s0, s1, s2, calls[1], calls[2], s5, s6];
    actions := [Mask(e), Drained, Test(Holder), Load(Holder), Store(Holder), Flushed];
    assert IsStep(s0, Mask(e), s1) && IsStep(s1, Drained, s2) && IsStep(s5, Flushed, s6);
    hide Do, Can, CallOf, SetCall;
  }

  /** From any start: an event gets a user, is masked to the end, and its handler's change unmasks it. */
  lemma UpdateHandlerUnmasks(s0: State, e: nat, reenable: bool) returns (run: seq<State>, actions: seq<Action>)
    requires Init(s0)
    ensures Run(run, actions) && run[0] == s0
    ensures var s := run[|actions|];
            && s.holder.Idle? && e in s.masked && e in s.settled && e in s.current
            && e !in UpdateHandler(s, e, reenable).masked
  {
    var a, x := UserAdded(s0, e);
    var b, y := EventMasked(a[|x|], e);
    PartsJoin(a, x, b, y);
    run, actions := a + b[1..], x + y;
    assert e !in UpdateHandler(b[|y|], e, reenable).masked;
    hide Do, Can, UpdateHandler, IsStep, RespectsMasks;
  }
}
