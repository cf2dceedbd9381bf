/**
 The lock a thread may take again while it holds it: a plain mutex, an owner word and a depth. The AML mutex is the
 same lock with a 16-bit depth that refuses to overflow. Any number of threads, one atomic step at a time; each
 thread's position carries how many of its acquires are still to be released.
 */
module RecursiveLock {
  import opened Options

  /**
   Between calls a thread is at Rest. Bumping and Falling have passed the owner and depth tests; Taking waits for the
   mutex; Naming and Setting hold it and are about to store the owner and the depth; Clearing and Freeing are about
   to clear the owner and to release the mutex.
   */
  datatype Pc =
    | Rest(nesting: nat)
    | Bumping(nesting: nat)
    | Taking(nesting: nat)
    | Naming
    | Setting
    | Clearing
    | Freeing

  /** `limit` is the depth beyond which a further acquire is refused, if there is one. */
  datatype State = State(limit: Option<nat>, mutex: Option<nat>, owner: Option<nat>, depth: int, pcs: map<nat, Pc>)

  datatype Step =
    | Acquire      // compare the owner, and if it is this thread the depth with the limit
    | Bump         // depth++
    | TakeMutex
    | GiveUp       // the mutex could not be acquired
    | StoreOwner
    | StoreDepth
    | Release      // depth--, compared with 1
    | ClearOwner
    | FreeMutex

  function At(s: State, t: nat): Pc {
    if t in s.pcs then s.pcs[t] else Rest(0)
  }

  /** Only a thread with an acquire to undo may release; that is all that is asked of the threads. */
  predicate Can(s: State, t: nat, step: Step) {
    var pc := At(s, t);
    match step
    case Acquire => pc.Rest?
    case Bump => pc.Bumping?
    case TakeMutex => pc.Taking? && s.mutex == None
    case GiveUp => pc.Taking?
    case StoreOwner => pc == Naming
    case StoreDepth => pc == Setting
    case Release => pc.Rest? && pc.nesting > 0
    case ClearOwner => pc == Clearing
    case FreeMutex => pc == Freeing
  }

  /** An acquire that finds the owner to be this thread and the depth at its limit. */
  predicate Refused(s: State, t: nat) {
    s.owner == Some(t) && s.limit.Some? && s.depth == s.limit.value
  }

  function Move(s: State, t: nat, pc: Pc): State {
    s.(pcs := s.pcs[t := pc])
  }

  function Do(s: State, t: nat, step: Step): State
    requires Can(s, t, step)
  {
    var pc := At(s, t);
    match step
    case Acquire =>
      if Refused(s, t) then s
      else if s.owner == Some(t) then Move(s, t, Bumping(pc.nesting))
      else Move(s, t, Taking(pc.nesting))
    case Bump => Move(s, t, Rest(pc.nesting + 1)).(depth := s.depth + 1)
    case TakeMutex => Move(s, t, Naming).(mutex := Some(t))
    case GiveUp => Move(s, t, Rest(pc.nesting))
    case StoreOwner => Move(s, t, Setting).(owner := Some(t))
    case StoreDepth => Move(s, t, Rest(1)).(depth := 1)
    case Release => Move(s, t, if s.depth > 1 then Rest(pc.nesting - 1) else Clearing).(depth := s.depth - 1)
    case ClearOwner => Move(s, t, Freeing).(owner := None)
    case FreeMutex => Move(s, t, Rest(0)).(mutex := None)
  }

  // ---------- the invariant ----------

  /** The thread is inside: it has acquires to release, or is on its way in or out. */
  predicate Holds(pc: Pc) {
    match pc
    case Rest(n) => n > 0
    case Bumping(_) => true
    case Taking(_) => false
    case Naming | Setting | Clearing | Freeing => true
  }

  predicate Owns(pc: Pc) {
    Holds(pc) && pc != Naming && pc != Freeing
  }

  /** The depth word is exactly the holder's nesting, whenever the holder is not about to store it. */
  predicate DepthFits(s: State, pc: Pc) {
    match pc
    case Rest(n) => n > 0 ==> s.depth == n
    case Bumping(n) => n > 0 && s.depth == n && (s.limit.Some? ==> n < s.limit.value)
    case Taking(n) => n == 0
    case Clearing => s.depth == 0
    case _ => true
  }

  predicate Fits(s: State, t: nat) {
    && (Holds(At(s, t)) <==> s.mutex == Some(t))
    && (Owns(At(s, t)) <==> s.owner == Some(t))
    && DepthFits(s, At(s, t))
  }

  ghost predicate Inv(s: State) {
    && (forall t: nat :: Fits(s, t))
    && (s.limit.Some? ==> 1 <= s.limit.value && s.depth <= s.limit.value)
  }

  predicate Init(s: State) {
    s.mutex == None && s.owner == None && s.depth == 0 && s.pcs == map[] && (s.limit.Some? ==> 1 <= s.limit.value)
  }

  lemma ThreadStep(s: State, t: nat, step: Step, u: nat)
    requires Inv(s) && Can(s, t, step)
    ensures Fits(Do(s, t, step), u)
  {
    assert Fits(s, t) && Fits(s, u);
    hide Inv;
  }

  lemma StepInv(s: State, t: nat, step: Step)
    requires Inv(s) && Can(s, t, step)
    ensures Inv(Do(s, t, step))
  {
    var s' := Do(s, t, step);
    forall u: nat ensures Fits(s', u) {
      ThreadStep(s, t, step, u);
    }
    assert Fits(s, t);
  }

  // ---------- runs ----------

  predicate IsStep(s: State, t: nat, step: Step, s': State) {
    Can(s, t, step) && s' == Do(s, t, step)
  }

  ghost predicate Run(run: seq<State>, steps: seq<(nat, Step)>) {
    && |run| == |steps| + 1 && Init(run[0])
    && forall i :: 0 <= i < |steps| ==> IsStep(run[i], steps[i].0, steps[i].1, run[i + 1])
  }

  lemma {:induction false} RunInv(run: seq<State>, steps: seq<(nat, Step)>, i: nat)
    requires Run(run, steps) && i < |run|
    ensures Inv(run[i])
  {
    if i > 0 {
      RunInv(run, steps, i - 1);
      assert IsStep(run[i - 1], steps[i - 1].0, steps[i - 1].1, run[i]);
      StepInv(run[i - 1], steps[i - 1].0, steps[i - 1].1);
    }
  }

  /** At most one thread is inside, and while it rests inside the owner word names it and the depth is its nesting. */
  lemma OwnerAndDepth(run: seq<State>, steps: seq<(nat, Step)>, i: nat, t: nat, u: nat)
    requires Run(run, steps) && i < |run|
    requires Holds(At(run[i], t))
    ensures u != t ==> !Holds(At(run[i], u))
    ensures var s := run[i]; At(s, t).Rest? ==> s.owner == Some(t) && s.depth == At(s, t).nesting
  {
    RunInv(run, steps, i);
    assert Fits(run[i], t) && Fits(run[i], u);
  }

  /**
   The holder's own further acquire never waits: it is refused, changing nothing, exactly when its nesting has
   reached the limit, and otherwise goes on to raise the depth.
   */
  lemma HolderNeverWaits(run: seq<State>, steps: seq<(nat, Step)>, i: nat, t: nat)
    requires Run(run, steps) && i < |run|
    requires At(run[i], t).Rest? && At(run[i], t).nesting > 0
    ensures var s := run[i];
            var s' := Do(s, t, Acquire);
            if s.limit == Some(At(s, t).nesting) then s' == s
            else At(s', t).Bumping? && At(Do(s', t, Bump), t) == Rest(At(s, t).nesting + 1)
  {
    RunInv(run, steps, i);
    assert Fits(run[i], t);
  }

  /** The depth never passes the limit, so a 16-bit depth with limit 0xFFFF never wraps. */
  lemma DepthBounded(run: seq<State>, steps: seq<(nat, Step)>, i: nat)
    requires Run(run, steps) && i < |run|
    requires run[i].limit.Some?
    ensures run[i].depth <= run[i].limit.value
  {
    RunInv(run, steps, i);
  }

  /** The mutex is released with the release that matches the first acquire, and by no earlier one. */
  lemma LastReleaseFrees(run: seq<State>, steps: seq<(nat, Step)>, i: nat, t: nat)
    requires Run(run, steps) && i < |run|
    requires At(run[i], t).Rest? && At(run[i], t).nesting > 0
    ensures var s := run[i];
            var s' := Do(s, t, Release);
            if At(s, t).nesting > 1 then At(s', t) == Rest(At(s, t).nesting - 1) && s'.mutex == Some(t)
            else At(s', t) == Clearing && Do(Do(s', t, ClearOwner), t, FreeMutex).mutex == None
  {
    RunInv(run, steps, i);
    assert Fits(run[i], t);
  }

  /** A first acquire that nobody disturbs takes the free mutex, and the thread is then inside once. */
  lemma FirstAcquireGetsIn(run: seq<State>, steps: seq<(nat, Step)>, i: nat, t: nat)
    requires Run(run, steps) && i < |run|
    requires At(run[i], t) == Rest(0)
    ensures var s1 := Do(run[i], t, Acquire);
            && (Can(s1, t, TakeMutex) <==> run[i].mutex == None)
            && (run[i].mutex == None ==>
                  var s2 := Do(s1, t, TakeMutex);
                  && Can(s2, t, StoreOwner)
                  && var s3 := Do(s2, t, StoreOwner);
                  && Can(s3, t, StoreDepth)
                  && var s4 := Do(s3, t, StoreDepth);
                     At(s4, t) == Rest(1) && s4.mutex == Some(t) && s4.owner == Some(t) && s4.depth == 1)
  {
    RunInv(run, steps, i);
    assert Fits(run[i], t);
  }

  /** One that gives up has changed nothing. */
  lemma GivenUp(run: seq<State>, steps: seq<(nat, Step)>, i: nat, t: nat)
    requires Run(run, steps) && i < |run|
    requires At(run[i], t) == Rest(0)
    ensures var s1 := Do(run[i], t, Acquire);
            && Can(s1, t, GiveUp)
            && var s2 := Do(s1, t, GiveUp);
               At(s2, t) == Rest(0) && s2 == run[i].(pcs := s2.pcs) && forall u: nat :: At(s2, u) == At(run[i], u)
  {
    RunInv(run, steps, i);
    assert Fits(run[i], t);
  }
}
