/**
 The reader/writer lock built from two plain mutexes: the first reader takes the write mutex for all of them and
 the last one, perhaps another thread, gives it back. Any number of threads, one atomic step at a time.
 */
module RwLock {
  import opened Options

  /** Where a thread stands; from Counting to Returning and from Uncounting to Leaving it holds the read mutex. */
  datatype Pc =
    | Out
    | Counting
    | TakingWrite
    | Returning(ok: bool)
    | Reading
    | Uncounting
    | GivingWrite
    | Leaving
    | Writing

  datatype State = State(readMutex: Option<nat>, writeTaken: bool, numReaders: int, pcs: map<nat, Pc>)

  datatype Step =
    | LockRead        // acquire the read mutex
    | Count           // num_readers++, compared with 0
    | TakeWrite
    | WriteFails      // the write mutex could not be acquired
    | ReturnRead      // release the read mutex
    | UnlockRead      // acquire the read mutex
    | Uncount         // num_readers--, compared with 1
    | GiveWrite
    | ReturnUnlock    // release the read mutex
    | LockWrite
    | UnlockWrite

  function At(s: State, t: nat): Pc {
    if t in s.pcs then s.pcs[t] else Out
  }

  predicate Can(s: State, t: nat, step: Step) {
    var pc := At(s, t);
    match step
    case LockRead => pc == Out && s.readMutex == None
    case Count => pc == Counting
    case TakeWrite => pc == TakingWrite && !s.writeTaken
    case WriteFails => pc == TakingWrite
    case ReturnRead => pc.Returning?
    case UnlockRead => pc == Reading && s.readMutex == None
    case Uncount => pc == Uncounting
    case GiveWrite => pc == GivingWrite
    case ReturnUnlock => pc == Leaving
    case LockWrite => pc == Out && !s.writeTaken
    case UnlockWrite => pc == Writing
  }

  function Move(s: State, t: nat, pc: Pc): State {
    s.(pcs := s.pcs[t := pc])
  }

  function Do(s: State, t: nat, step: Step): State
    requires Can(s, t, step)
  {
    match step
    case LockRead => Move(s, t, Counting).(readMutex := Some(t))
    case Count =>
      Move(s, t, if s.numReaders == 0 then TakingWrite else Returning(true)).(numReaders := s.numReaders + 1)
    case TakeWrite => Move(s, t, Returning(true)).(writeTaken := true)
    case WriteFails => Move(s, t, Returning(false)).(numReaders := 0)
    case ReturnRead => Move(s, t, if At(s, t).ok then Reading else Out).(readMutex := None)
    case UnlockRead => Move(s, t, Uncounting).(readMutex := Some(t))
    case Uncount => Move(s, t, if s.numReaders == 1 then GivingWrite else Leaving).(numReaders := s.numReaders - 1)
    case GiveWrite => Move(s, t, Leaving).(writeTaken := false)
    case ReturnUnlock => Move(s, t, Out).(readMutex := None)
    case LockWrite => Move(s, t, Writing).(writeTaken := true)
    case UnlockWrite => Move(s, t, Out).(writeTaken := false)
  }

  // ---------- the invariant ----------

  predicate HasReadMutex(pc: Pc) {
    pc == Counting || pc == TakingWrite || pc.Returning? || pc == Uncounting || pc == GivingWrite || pc == Leaving
  }

  /** A reader the counter counts and the write mutex is held for. */
  predicate Inside(pc: Pc) {
    pc == Reading || pc == Uncounting || pc == Returning(true)
  }

  /** The counter counts the readers inside and one that is still waiting for the write mutex. */
  predicate Counts(pc: Pc) {
    Inside(pc) || pc == TakingWrite
  }

  function Counted(s: State): set<nat> {
    set t | t in s.pcs && Counts(s.pcs[t])
  }

  /** Who the write mutex is held for at t: as a writer, as a reader, or as the last reader on its way out. */
  predicate KeepsWrite(pc: Pc) {
    Inside(pc) || pc == GivingWrite || pc == Writing
  }

  ghost predicate Inv(s: State) {
    && (forall t: nat {:trigger At(s, t)} :: HasReadMutex(At(s, t)) <==> s.readMutex == Some(t))
    && s.numReaders == |Counted(s)|
    && (s.writeTaken <==> exists t: nat :: KeepsWrite(At(s, t)))
    && (forall t: nat, u: nat {:trigger At(s, t), At(s, u)} ::
          t != u && At(s, t) == Writing ==> !KeepsWrite(At(s, u)))
    && (forall t: nat, u: nat {:trigger At(s, t), At(s, u)} ::
          At(s, t) == TakingWrite || At(s, t) == GivingWrite ==> !Inside(At(s, u)))
  }

  predicate Init(s: State) {
    s == State(None, false, 0, map[])
  }

  // ---------- every step keeps it ----------

  /** A step changes the counted set at its own thread only. */
  lemma CountedStep(s: State, t: nat, step: Step)
    requires Can(s, t, step)
    ensures var s' := Do(s, t, step);
            Counted(s') == if Counts(At(s', t)) then Counted(s) + {t} else Counted(s) - {t}
  {
  }

  /** Someone waiting for the write mutex, or giving it back, is the only thread the counter could count. */
  lemma AloneCounted(s: State, t: nat)
    requires Inv(s) && At(s, t) == TakingWrite
    ensures Counted(s) == {t} && s.numReaders == 1
  {
    assert t in Counted(s);
    assert s.readMutex == Some(t);
    forall u | u in Counted(s) ensures u == t {
      assert At(s, u) == TakingWrite || Inside(At(s, u));
      assert HasReadMutex(At(s, u)) <==> s.readMutex == Some(u);
    }
    assert Counted(s) == {t};
  }

  lemma OneMoreOrLess(c: set<nat>, t: nat)
    ensures |c + {t}| == if t in c then |c| else |c| + 1
    ensures |c - {t}| == if t in c then |c| - 1 else |c|
  {
    if t in c {
      assert c + {t} == c;
    } else {
      assert c - {t} == c;
    }
  }

  /** The counter moves with its thread; setting it to zero is right because a thread taking the mutex is alone. */
  lemma CounterStep(s: State, t: nat, step: Step)
    requires Can(s, t, step) && (At(s, t) == TakingWrite ==> s.numReaders == 1)
    ensures var s' := Do(s, t, step);
            s'.numReaders ==
            s.numReaders + (if Counts(At(s', t)) then 1 else 0) - (if Counts(At(s, t)) then 1 else 0)
  {
  }

  lemma CountStep(s: State, t: nat, step: Step)
    requires Inv(s) && Can(s, t, step)
    ensures var s' := Do(s, t, step); s'.numReaders == |Counted(s')|
  {
    CountedStep(s, t, step);
    if At(s, t) == TakingWrite {
      AloneCounted(s, t);
    }
    CounterStep(s, t, step);
    assert t in Counted(s) <==> Counts(At(s, t));
    OneMoreOrLess(Counted(s), t);
    hide Inv, Counted, Do, Can, At;
  }

  lemma ReadMutexStep(s: State, t: nat, step: Step, u: nat)
    requires Inv(s) && Can(s, t, step)
    ensures var s' := Do(s, t, step); HasReadMutex(At(s', u)) <==> s'.readMutex == Some(u)
  {
    assert HasReadMutex(At(s, u)) <==> s.readMutex == Some(u);
    assert HasReadMutex(At(s, t)) <==> s.readMutex == Some(t);
    hide Inv;
  }

  /** With the counter at zero nobody is inside; with it at one the thread that is inside is alone. */
  lemma CounterTells(s: State, t: nat, u: nat)
    requires Inv(s) && u != t
    ensures s.numReaders == 0 ==> !Inside(At(s, u))
    ensures s.numReaders == 1 && Inside(At(s, t)) ==> !Inside(At(s, u))
  {
    if Inside(At(s, u)) {
      assert u in Counted(s);
      if Inside(At(s, t)) {
        assert {t, u} <= Counted(s);
        assert |Counted(s) - {t, u}| == |Counted(s)| - |{t, u}|;
      }
    }
  }

  lemma InsideStep(s: State, t: nat, step: Step, u: nat, v: nat)
    requires Inv(s) && Can(s, t, step)
    ensures var s' := Do(s, t, step);
            At(s', u) == TakingWrite || At(s', u) == GivingWrite ==> !Inside(At(s', v))
  {
    var s' := Do(s, t, step);
    if At(s', u) == TakingWrite || At(s', u) == GivingWrite {
      ReadMutexStep(s, t, step, u);
      ReadMutexStep(s, t, step, v);
      assert HasReadMutex(At(s, u)) <==> s.readMutex == Some(u);
      assert HasReadMutex(At(s, t)) <==> s.readMutex == Some(t);
      if v != t {
        CounterTells(s, t, v);
        assert (At(s, u) == TakingWrite || At(s, u) == GivingWrite) ==> !Inside(At(s, v));
      }
      hide Inv;
    }
  }

  /** A reader that finds the counter above zero has someone inside, who keeps writers out. */
  lemma CounterFindsReader(s: State, t: nat, u: nat)
    requires Inv(s) && At(s, t) == Counting && s.numReaders != 0
    ensures s.writeTaken && At(s, u) != Writing
  {
    assert Counted(s) != {};
    var r :| r in Counted(s);
    assert HasReadMutex(At(s, r)) <==> s.readMutex == Some(r);
    assert HasReadMutex(At(s, t)) <==> s.readMutex == Some(t);
    assert KeepsWrite(At(s, r));
    assert u != r && At(s, u) == Writing ==> !KeepsWrite(At(s, r));
  }

  lemma WriterStep(s: State, t: nat, step: Step, u: nat, v: nat)
    requires Inv(s) && Can(s, t, step) && u != v
    ensures var s' := Do(s, t, step); At(s', u) == Writing ==> !KeepsWrite(At(s', v))
  {
    var s' := Do(s, t, step);
    assert At(s, u) == Writing ==> !KeepsWrite(At(s, v));
    assert KeepsWrite(At(s, u)) || KeepsWrite(At(s, v)) ==> s.writeTaken;
    if step == Count && v == t && s.numReaders != 0 {
      CounterFindsReader(s, t, u);
    }
    hide Inv;
  }

  lemma TakenStep(s: State, t: nat, step: Step)
    requires Inv(s) && Can(s, t, step)
    ensures var s' := Do(s, t, step); s'.writeTaken <==> exists u: nat :: KeepsWrite(At(s', u))
  {
    var s' := Do(s, t, step);
    if s'.writeTaken {
      if KeepsWrite(At(s', t)) {
      } else {
        var u: nat :| KeepsWrite(At(s, u));
        if u == t {
          // a last reader leaving is not the last one
          assert step == Uncount && s.numReaders != 1;
          AnotherInside(s, t);
          var v: nat :| v != t && Inside(At(s, v));
          assert KeepsWrite(At(s', v));
        } else {
          assert KeepsWrite(At(s', u));
        }
      }
    } else {
      forall u: nat ensures !KeepsWrite(At(s', u)) {
        NotKept(s, t, step, u);
      }
    }
  }

  /** A reader that is not the only one counted has company inside. */
  lemma AnotherInside(s: State, t: nat)
    requires Inv(s) && At(s, t) == Uncounting && s.numReaders != 1
    ensures exists v: nat :: v != t && Inside(At(s, v))
  {
    assert t in Counted(s);
    assert |Counted(s) - {t}| == |Counted(s)| - 1;
    var v :| v in Counted(s) - {t};
    assert HasReadMutex(At(s, v)) <==> s.readMutex == Some(v);
    assert HasReadMutex(At(s, t)) <==> s.readMutex == Some(t);
    assert Inside(At(s, v));
  }

  lemma NotKept(s: State, t: nat, step: Step, u: nat)
    requires Inv(s) && Can(s, t, step) && !Do(s, t, step).writeTaken
    ensures !KeepsWrite(At(Do(s, t, step), u))
  {
    assert KeepsWrite(At(s, u)) ==> s.writeTaken;
    assert KeepsWrite(At(s, t)) ==> s.writeTaken;
    assert HasReadMutex(At(s, u)) <==> s.readMutex == Some(u);
    assert HasReadMutex(At(s, t)) <==> s.readMutex == Some(t);
    assert At(s, t) == GivingWrite ==> !Inside(At(s, u));
    assert u != t && At(s, t) == Writing ==> !KeepsWrite(At(s, u));
    assert u != t && At(s, u) == Writing ==> !KeepsWrite(At(s, t));
    if step == Count && s.numReaders != 0 {
      CounterFindsReader(s, t, u);
    }
    hide Inv;
  }

  lemma StepInv(s: State, t: nat, step: Step)
    requires Inv(s) && Can(s, t, step)
    ensures Inv(Do(s, t, step))
  {
    var s' := Do(s, t, step);
    CountStep(s, t, step);
    TakenStep(s, t, step);
    forall u: nat ensures HasReadMutex(At(s', u)) <==> s'.readMutex == Some(u) {
      ReadMutexStep(s, t, step, u);
    }
    forall u: nat, v: nat | u != v && At(s', u) == Writing ensures !KeepsWrite(At(s', v)) {
      WriterStep(s, t, step, u, v);
    }
    forall u: nat, v: nat | At(s', u) == TakingWrite || At(s', u) == GivingWrite ensures !Inside(At(s', v)) {
      InsideStep(s, t, step, u, v);
    }
    hide Do, Can, At, Counted, HasReadMutex, KeepsWrite, Inside;
  }

  // ---------- runs ----------

  predicate IsStep(s: State, t: nat, step: Step, s': State) {
    Can(s, t, step) && s' == Do(s, t, step)
  }

  ghost predicate Run(run: seq<State>, steps: seq<(nat, Step)>) {
    && |run| == |steps| + 1 && Init(run[0])
    && forall i :: 0 <= i < |steps| ==> IsStep(run[i], steps[i].0, steps[i].1, run[i + 1])
  }

  lemma {:induction false} RunInv(run: seq<State>, steps: seq<(nat, Step)>, i: nat)
    requires Run(run, steps) && i < |run|
    ensures Inv(run[i])
  {
    if i > 0 {
      RunInv(run, steps, i - 1);
      assert IsStep(run[i - 1], steps[i - 1].0, steps[i - 1].1, run[i]);
      StepInv(run[i - 1], steps[i - 1].0, steps[i - 1].1);
    }
  }

  /** A writer inside excludes every other thread, reader or writer, in every state of every run. */
  lemma WriterExcludesAll(run: seq<State>, steps: seq<(nat, Step)>, i: nat, t: nat, u: nat)
    requires Run(run, steps) && i < |run| && t != u
    requires At(run[i], t) == Writing
    ensures At(run[i], u) != Writing && !Inside(At(run[i], u))
  {
    RunInv(run, steps, i);
    var s := run[i];
    assert t != u && At(s, t) == Writing ==> !KeepsWrite(At(s, u));
  }

  /** Whenever the read mutex is free the counter is the number of readers inside, and all of them are reading. */
  lemma CounterIsReaders(run: seq<State>, steps: seq<(nat, Step)>, i: nat)
    requires Run(run, steps) && i < |run| && run[i].readMutex == None
    ensures run[i].numReaders == |set t | t in run[i].pcs && run[i].pcs[t] == Reading|
    ensures (run[i].numReaders > 0 || exists t: nat :: At(run[i], t) == Writing) <==> run[i].writeTaken
  {
    RunInv(run, steps, i);
    var s := run[i];
    var readers := set t | t in s.pcs && s.pcs[t] == Reading;
    forall t | t in s.pcs ensures s.pcs[t] == Reading <==> Inside(s.pcs[t]) || s.pcs[t] == TakingWrite {
      assert HasReadMutex(At(s, t)) <==> s.readMutex == Some(t);
    }
    assert readers == Counted(s);
    if s.numReaders > 0 {
      assert Counted(s) != {};
      var t :| t in Counted(s);
      assert KeepsWrite(At(s, t));
    }
    if s.writeTaken {
      var t: nat :| KeepsWrite(At(s, t));
      assert HasReadMutex(At(s, t)) <==> s.readMutex == Some(t);
      assert At(s, t) == Writing || t in Counted(s);
    }
  }

  /** Nobody is ever left behind with the write mutex: with every thread out, both mutexes are free. */
  lemma AllOutMeansFree(run: seq<State>, steps: seq<(nat, Step)>, i: nat)
    requires Run(run, steps) && i < |run|
    requires forall t: nat :: At(run[i], t) == Out
    ensures run[i].readMutex == None && !run[i].writeTaken && run[i].numReaders == 0
  {
    RunInv(run, steps, i);
    var s := run[i];
    var t := if s.readMutex.Some? then s.readMutex.value else 0;
    assert HasReadMutex(At(s, t)) <==> s.readMutex == Some(t);
    forall t | t in s.pcs ensures s.pcs[t] == Out {
      assert At(s, t) == Out;
    }
    assert Counted(s) == {};
  }

  // ---------- getting in and out ----------

  /**
   A reader that nobody disturbs gets in if no writer is inside; the first of several takes the write mutex for all.
   */
  lemma ReaderGetsIn(s: State, t: nat)
    requires At(s, t) == Out && s.readMutex == None
    ensures Can(s, t, LockRead)
    ensures var s1 := Do(s, t, LockRead);
            && Can(s1, t, Count)
            && var s2 := Do(s1, t, Count);
            && s2.numReaders == s.numReaders + 1
            && if s.numReaders == 0 then
                 && (Can(s2, t, TakeWrite) <==> !s.writeTaken) && !Can(s2, t, ReturnRead)
                 && (!s.writeTaken ==>
                       var s3 := Do(s2, t, TakeWrite);
                       s3.writeTaken && Can(s3, t, ReturnRead) && At(Do(s3, t, ReturnRead), t) == Reading)
               else
                 Can(s2, t, ReturnRead) && At(Do(s2, t, ReturnRead), t) == Reading && s2.writeTaken == s.writeTaken
  {
  }

  /** One that cannot have the write mutex goes out again with the counter at zero. */
  lemma ReaderTurnedAway(s: State, t: nat)
    requires At(s, t) == TakingWrite
    ensures Can(s, t, WriteFails)
    ensures var s1 := Do(s, t, WriteFails);
            && Can(s1, t, ReturnRead)
            && var s2 := Do(s1, t, ReturnRead);
               At(s2, t) == Out && s2.readMutex == None && s2.numReaders == 0 && s2.writeTaken == s.writeTaken
  {
  }

  /** A reader that nobody disturbs gets out; the last one gives the write mutex back, whoever took it. */
  lemma ReaderGetsOut(s: State, t: nat)
    requires Inv(s) && At(s, t) == Reading && s.readMutex == None
    ensures Can(s, t, UnlockRead)
    ensures var s1 := Do(s, t, UnlockRead);
            && Can(s1, t, Uncount)
            && var s2 := Do(s1, t, Uncount);
            && (Can(s2, t, GiveWrite) <==> s.numReaders == 1)
            && var s3 := if s.numReaders == 1 then Do(s2, t, GiveWrite) else s2;
            && Can(s3, t, ReturnUnlock)
            && var s4 := Do(s3, t, ReturnUnlock);
            && At(s4, t) == Out && s4.readMutex == None && s4.numReaders == s.numReaders - 1
            && s4.writeTaken == (s.numReaders > 1)
  {
    assert t in Counted(s) && |Counted(s)| > 0;
    assert KeepsWrite(At(s, t));
    hide Inv;
  }

  /** A writer gets in exactly when nobody is inside, and out again. */
  lemma WriterInAndOut(s: State, t: nat)
    requires Inv(s) && At(s, t) == Out
    ensures Can(s, t, LockWrite) <==> forall u: nat :: !KeepsWrite(At(s, u))
    ensures Can(s, t, LockWrite) ==>
              var s1 := Do(s, t, LockWrite);
              && At(s1, t) == Writing && s1.writeTaken && Can(s1, t, UnlockWrite)
              && var s2 := Do(s1, t, UnlockWrite);
                 At(s2, t) == Out && !s2.writeTaken && s2.numReaders == s.numReaders && s2.readMutex == s.readMutex
  {
  }
}
