/** Counting semaphores at the granularity of their spinlocks: every thread is
    somewhere inside P or V, and steps of all threads interleave freely. */
module Semaphore {

  datatype Lock = Open | By(thread: nat)

  /** Where a thread is. A thread waiting for a spinlock stays where it is. */
  datatype Pc =
    | Outside          // in neither P nor V
    | PEnter           // before spinlock_acquire(sem_lock), fresh call
    | PCheck           // holds sem_lock, about to test sem_count
    | PBridge          // holds sem_lock and wc_lock, about to release sem_lock
    | PSleep           // holds wc_lock, about to go on the sleeper list
    | Asleep           // on the sleeper list
    | Woken            // runnable again, before spinlock_acquire(sem_lock)
    | PRecheck         // holds sem_lock after waking, about to test sem_count
    | PTaken           // holds sem_lock, has decremented sem_count
    | VEnter           // before spinlock_acquire(sem_lock)
    | VAdd             // holds sem_lock, about to increment
    | VWake            // has incremented, about to lock the wait channel
    | VTake            // holds sem_lock and wc_lock, about to take a sleeper
    | VRun(target: nat) // has taken a sleeper off the list, about to make it runnable
    | VDone            // holds sem_lock, about to release it

  datatype State = State(
    count: nat,
    semLock: Lock,
    wcLock: Lock,
    sleepers: seq<nat>,
    pcs: seq<Pc>)

  predicate Init(s: State)
  {
    && s.semLock == Open && s.wcLock == Open && s.sleepers == []
    && (forall t :: 0 <= t < |s.pcs| ==> s.pcs[t] == Outside)
  }

  function At(s: State, t: nat, pc: Pc): State
    requires t < |s.pcs|
  {
    s.(pcs := s.pcs[t := pc])
  }

  /** What a thread may do next; Blocked when a spinlock it needs is taken. */
  datatype Action = EnterP | EnterV | Continue

  predicate Enabled(s: State, t: nat, a: Action)
    requires t < |s.pcs|
  {
    match s.pcs[t]
    case Outside => a != Continue
    case PEnter | Woken | VEnter => a == Continue && s.semLock == Open
    case PCheck | PRecheck => a == Continue && (s.count == 0 ==> s.wcLock == Open)
    case VWake => a == Continue && s.wcLock == Open
    case Asleep => false
    case VRun(target) => a == Continue && target < |s.pcs|
    case _ => a == Continue
  }

  function Step(s: State, t: nat, a: Action): State
    requires t < |s.pcs| && Enabled(s, t, a)
  {
    match s.pcs[t]
    case Outside => At(s, t, if a == EnterP then PEnter else VEnter)
    case PEnter => At(s, t, PCheck).(semLock := By(t))
    case Woken => At(s, t, PRecheck).(semLock := By(t))
    case PCheck | PRecheck =>
      if s.count == 0 then At(s, t, PBridge).(wcLock := By(t))
      else At(s, t, PTaken).(count := s.count - 1)
    case PBridge => At(s, t, PSleep).(semLock := Open)
    case PSleep => At(s, t, Asleep).(sleepers := s.sleepers + [t], wcLock := Open)
    case PTaken => At(s, t, Outside).(semLock := Open)
    case VEnter => At(s, t, VAdd).(semLock := By(t))
    case VAdd => At(s, t, VWake).(count := s.count + 1)
    case VWake => At(s, t, VTake).(wcLock := By(t))
    case VTake =>
      if s.sleepers == [] then At(s, t, VDone).(wcLock := Open)
      else At(s, t, VRun(s.sleepers[0])).(sleepers := s.sleepers[1..], wcLock := Open)
    case VRun(target) => At(At(s, target, Woken), t, VDone)
    case VDone => At(s, t, Outside).(semLock := Open)
  }

  // ----- the invariant

  predicate HoldsSem(pc: Pc)
  {
    pc.PCheck? || pc.PRecheck? || pc.PBridge? || pc.PTaken? ||
    pc.VAdd? || pc.VWake? || pc.VTake? || pc.VRun? || pc.VDone?
  }

  predicate HoldsWc(pc: Pc)
  {
    pc.PBridge? || pc.PSleep? || pc.VTake?
  }

  /** Going to sleep: past the test of sem_count. */
  predicate Dozing(pc: Pc)
  {
    pc.PBridge? || pc.PSleep?
  }

  /** A wakeup under way that has not rechecked sem_count yet: a woken thread,
      one about to be made runnable, or a V that has yet to look for a sleeper. */
  predicate WakesSomeone(pc: Pc)
  {
    pc.Woken? || pc.PRecheck? || pc.VRun? || pc.VWake? || pc.VTake?
  }

  function Wakeups(pcs: seq<Pc>): set<nat>
  {
    set t: nat | t < |pcs| && WakesSomeone(pcs[t])
  }

  /** Someone is asleep or past the point of no return. */
  predicate SomeoneWaits(s: State)
  {
    s.sleepers != [] || exists t :: 0 <= t < |s.pcs| && Dozing(s.pcs[t])
  }

  ghost predicate LocksOk(s: State)
  {
    && (forall t :: 0 <= t < |s.pcs| ==> (HoldsSem(s.pcs[t]) <==> s.semLock == By(t)))
    && (forall t :: 0 <= t < |s.pcs| ==> (HoldsWc(s.pcs[t]) <==> s.wcLock == By(t)))
    && (s.semLock.By? ==> s.semLock.thread < |s.pcs|)
    && (s.wcLock.By? ==> s.wcLock.thread < |s.pcs|)
  }

  /** The sleeper list holds each sleeping thread once, except the one a V has
      taken off it and is about to make runnable. */
  ghost predicate SleepersOk(s: State)
  {
    && (forall i :: 0 <= i < |s.sleepers| ==> s.sleepers[i] < |s.pcs| && s.pcs[s.sleepers[i]] == Asleep)
    && (forall i, j :: 0 <= i < j < |s.sleepers| ==> s.sleepers[i] != s.sleepers[j])
    && (forall t :: 0 <= t < |s.pcs| && s.pcs[t].VRun? ==>
          s.pcs[t].target < |s.pcs| && s.pcs[s.pcs[t].target] == Asleep && s.pcs[t].target !in s.sleepers)
    && (forall t :: 0 <= t < |s.pcs| && s.pcs[t] == Asleep ==>
          t in s.sleepers || (s.semLock.By? && s.semLock.thread < |s.pcs| && s.pcs[s.semLock.thread] == VRun(t)))
  }

  ghost predicate Inv(s: State)
  {
    && LocksOk(s)
    && SleepersOk(s)
    && (SomeoneWaits(s) ==> s.count <= |Wakeups(s.pcs)|)
  }

  lemma InitInv(s: State)
    requires Init(s)
    ensures Inv(s)
  {
  }

  /** A step of thread t that leaves the other threads' hold on the spinlocks alone. */
  lemma LocksKept(s: State, s': State, t: nat)
    requires LocksOk(s) && t < |s.pcs| == |s'.pcs|
    requires forall u :: 0 <= u < |s.pcs| && u != t ==>
      HoldsSem(s'.pcs[u]) == HoldsSem(s.pcs[u]) && HoldsWc(s'.pcs[u]) == HoldsWc(s.pcs[u])
    requires (s'.semLock == s.semLock && HoldsSem(s'.pcs[t]) == HoldsSem(s.pcs[t])) ||
             (s.semLock == Open && s'.semLock == By(t) && HoldsSem(s'.pcs[t])) ||
             (s.semLock == By(t) && s'.semLock == Open && !HoldsSem(s'.pcs[t]))
    requires (s'.wcLock == s.wcLock && HoldsWc(s'.pcs[t]) == HoldsWc(s.pcs[t])) ||
             (s.wcLock == Open && s'.wcLock == By(t) && HoldsWc(s'.pcs[t])) ||
             (s.wcLock == By(t) && s'.wcLock == Open && !HoldsWc(s'.pcs[t]))
    ensures LocksOk(s')
  {
  }

  lemma LocksStep(s: State, t: nat, a: Action)
    requires LocksOk(s) && SleepersOk(s) && t < |s.pcs| && Enabled(s, t, a)
    ensures LocksOk(Step(s, t, a))
  {
    assert HoldsSem(s.pcs[t]) <==> s.semLock == By(t);
    assert HoldsWc(s.pcs[t]) <==> s.wcLock == By(t);
    if s.pcs[t].VRun? {
      assert s.pcs[s.pcs[t].target] == Asleep;
    }
    hide LocksOk, SleepersOk;
    var s' := Step(s, t, a);
    forall u | 0 <= u < |s.pcs| && u != t
      ensures HoldsSem(s'.pcs[u]) == HoldsSem(s.pcs[u]) && HoldsWc(s'.pcs[u]) == HoldsWc(s.pcs[u])
    {
      assert s'.pcs[u] == s.pcs[u] || (s.pcs[u] == Asleep && s'.pcs[u] == Woken);
    }
    LocksKept(s, s', t);
  }

  /** Steps that touch neither the list nor a sleeping thread. */
  lemma SleepersKept(s: State, s': State, t: nat)
    requires SleepersOk(s) && LocksOk(s) && t < |s.pcs| == |s'.pcs|
    requires s'.pcs == s.pcs[t := s'.pcs[t]] && s'.sleepers == s.sleepers
    requires s.pcs[t] != Asleep && s'.pcs[t] != Asleep && !s.pcs[t].VRun? && !s'.pcs[t].VRun?
    requires s'.semLock == s.semLock || s.semLock == Open || s.semLock == By(t)
    ensures SleepersOk(s')
  {
    forall u | 0 <= u < |s'.pcs| && s'.pcs[u] == Asleep
      ensures u in s'.sleepers || (s'.semLock.By? && s'.semLock.thread < |s'.pcs| && s'.pcs[s'.semLock.thread] == VRun(u))
    {
      assert u != t && s.pcs[u] == Asleep;
    }
  }

  lemma SleepersStep(s: State, t: nat, a: Action)
    requires LocksOk(s) && SleepersOk(s) && t < |s.pcs| && Enabled(s, t, a)
    ensures SleepersOk(Step(s, t, a))
  {
    var s' := Step(s, t, a);
    if s.pcs[t].PSleep? {
      PSleepSleepers(s, t);
    } else if s.pcs[t].VTake? {
      VTakeSleepers(s, t);
    } else if s.pcs[t].VRun? {
      VRunSleepers(s, t);
    } else {
      assert HoldsSem(s.pcs[t]) <==> s.semLock == By(t);
      hide LocksOk, SleepersOk;
      SleepersKept(s, s', t);
    }
  }

  lemma PSleepSleepers(s: State, t: nat)
    requires LocksOk(s) && SleepersOk(s) && t < |s.pcs| && s.pcs[t] == PSleep
    ensures SleepersOk(Step(s, t, Continue))
  {
    hide LocksOk;
    var s' := Step(s, t, Continue);
    assert t !in s.sleepers;
    assert s'.sleepers == s.sleepers + [t] && s'.pcs == s.pcs[t := Asleep] && s'.semLock == s.semLock;
    hide Step, Enabled;
    forall u | 0 <= u < |s'.pcs| && s'.pcs[u] == Asleep
      ensures u in s'.sleepers || (s'.semLock.By? && s'.semLock.thread < |s'.pcs| && s'.pcs[s'.semLock.thread] == VRun(u))
    {
      if u == t {
        assert s'.sleepers[|s.sleepers|] == t;
      } else if u in s.sleepers {
        assert u in s'.sleepers;
      }
    }
  }

  lemma VTakeSleepers(s: State, t: nat)
    requires LocksOk(s) && SleepersOk(s) && t < |s.pcs| && s.pcs[t] == VTake
    ensures SleepersOk(Step(s, t, Continue))
  {
    var s' := Step(s, t, Continue);
    assert s.semLock == By(t);
    assert forall u :: 0 <= u < |s.pcs| && u != t ==> !s.pcs[u].VRun? by {
      assert forall u :: 0 <= u < |s.pcs| && u != t ==> !HoldsSem(s.pcs[u]);
    }
    hide LocksOk, HoldsSem;
    if s.sleepers == [] {
      assert s'.sleepers == [] && s'.pcs == s.pcs[t := VDone] && s'.semLock == s.semLock;
      hide Step, Enabled;
      assert forall u :: 0 <= u < |s.pcs| ==> s.pcs[u] != Asleep;
    } else {
      assert s'.sleepers == s.sleepers[1..] && s'.pcs == s.pcs[t := VRun(s.sleepers[0])] && s'.semLock == s.semLock;
      hide Step, Enabled;
      TakesOne(s, t, s');
    }
  }

  lemma TakesOne(s: State, t: nat, s': State)
    requires SleepersOk(s) && t < |s.pcs| && s.pcs[t] == VTake && s.sleepers != [] && s.semLock == By(t)
    requires forall u :: 0 <= u < |s.pcs| && u != t ==> !s.pcs[u].VRun?
    requires s'.sleepers == s.sleepers[1..] && s'.pcs == s.pcs[t := VRun(s.sleepers[0])] && s'.semLock == s.semLock
    ensures SleepersOk(s')
  {
    TakeFirst(s.sleepers);
    forall u | 0 <= u < |s'.pcs| && s'.pcs[u] == Asleep
      ensures u in s'.sleepers || s'.pcs[s'.semLock.thread] == VRun(u)
    {
      assert s.pcs[u] == Asleep;
    }
  }

  lemma TakeFirst(list: seq<nat>)
    requires list != [] && (forall i, j :: 0 <= i < j < |list| ==> list[i] != list[j])
    ensures list[0] !in list[1..]
    ensures forall u :: u in list ==> u == list[0] || u in list[1..]
  {
    forall u | u in list
      ensures u == list[0] || u in list[1..]
    {
      var i :| 0 <= i < |list| && list[i] == u;
      if i > 0 {
        assert list[1..][i - 1] == u;
      }
    }
  }

  lemma VRunSleepers(s: State, t: nat)
    requires LocksOk(s) && SleepersOk(s) && t < |s.pcs| && s.pcs[t].VRun?
    ensures SleepersOk(Step(s, t, Continue))
  {
    assert s.semLock == By(t);
    assert forall u :: 0 <= u < |s.pcs| && u != t ==> !HoldsSem(s.pcs[u]);
    var s', v := Step(s, t, Continue), s.pcs[t].target;
    assert s'.pcs == s.pcs[v := Woken][t := VDone] && s'.sleepers == s.sleepers && s'.semLock == s.semLock;
    hide LocksOk, Step, Enabled;
  }

  /** How one step changes the number of wakeups under way. */
  lemma WakeupsChange(pcs: seq<Pc>, t: nat, pc: Pc)
    requires t < |pcs|
    ensures var n, n' := |Wakeups(pcs)|, |Wakeups(pcs[t := pc])|;
            n' == n + (if WakesSomeone(pc) then 1 else 0) - (if WakesSomeone(pcs[t]) then 1 else 0)
  {
    var w, w' := Wakeups(pcs), Wakeups(pcs[t := pc]);
    assert w - {t} == w' - {t};
    if t in w {
      assert w == (w - {t}) + {t};
    }
    if t in w' {
      assert w' == (w' - {t}) + {t};
    }
  }

  lemma WakeupsStep(s: State, t: nat, a: Action)
    requires Inv(s) && t < |s.pcs| && Enabled(s, t, a)
    ensures var s' := Step(s, t, a); SomeoneWaits(s') ==> s'.count <= |Wakeups(s'.pcs)|
  {
    var s' := Step(s, t, a);
    if s.pcs[t].VRun? {
      VRunWakeups(s, t);
    } else if s.pcs[t].VTake? {
      VTakeWakeups(s, t);
    } else {
      WakeupsChange(s.pcs, t, s'.pcs[t]);
      hide LocksOk, SleepersOk, Wakeups;
      if SomeoneWaits(s') {
        WaitsBefore(s, s', t);
      }
    }
  }

  lemma WaitsBefore(s: State, s': State, t: nat)
    requires t < |s.pcs| == |s'.pcs| && s'.pcs == s.pcs[t := s'.pcs[t]]
    requires s'.sleepers == s.sleepers || s.pcs[t].PSleep?
    requires SomeoneWaits(s')
    ensures SomeoneWaits(s) || Dozing(s'.pcs[t])
  {
    if s.sleepers == [] && !s.pcs[t].PSleep? {
      var u :| 0 <= u < |s'.pcs| && Dozing(s'.pcs[u]);
      if u != t {
        assert Dozing(s.pcs[u]);
      }
    } else if s.pcs[t].PSleep? {
      assert Dozing(s.pcs[t]);
    }
  }

  /** While a V holds both spinlocks nobody is going to sleep, so an empty list means nobody waits. */
  lemma VTakeWakeups(s: State, t: nat)
    requires Inv(s) && t < |s.pcs| && s.pcs[t] == VTake
    ensures var s' := Step(s, t, Continue); SomeoneWaits(s') ==> s'.count <= |Wakeups(s'.pcs)|
  {
    var s' := Step(s, t, Continue);
    WakeupsChange(s.pcs, t, s'.pcs[t]);
    assert s.wcLock == By(t);
    assert forall u :: 0 <= u < |s.pcs| && u != t ==> !HoldsWc(s.pcs[u]);
    assert forall u :: 0 <= u < |s'.pcs| ==> !Dozing(s'.pcs[u]);
  }

  lemma VRunWakeups(s: State, t: nat)
    requires Inv(s) && t < |s.pcs| && s.pcs[t].VRun?
    ensures var s' := Step(s, t, Continue); SomeoneWaits(s') ==> s'.count <= |Wakeups(s'.pcs)|
  {
    var s' := Step(s, t, Continue);
    var g := s.pcs[t].target;
    assert s.pcs[g] == Asleep;
    WakeupsChange(s.pcs, g, Woken);
    WakeupsChange(s.pcs[g := Woken], t, VDone);
    hide Wakeups;
    if SomeoneWaits(s') && s.sleepers == [] {
      var u :| 0 <= u < |s'.pcs| && Dozing(s'.pcs[u]);
      assert Dozing(s.pcs[u]);
    }
  }

  lemma StepInv(s: State, t: nat, a: Action)
    requires Inv(s) && t < |s.pcs| && Enabled(s, t, a)
    ensures Inv(Step(s, t, a))
  {
    LocksStep(s, t, a);
    SleepersStep(s, t, a);
    WakeupsStep(s, t, a);
  }

  // ----- whole runs

  ghost predicate StepsTo(s: State, move: (nat, Action), s': State)
  {
    move.0 < |s.pcs| && Enabled(s, move.0, move.1) && s' == Step(s, move.0, move.1)
  }

  ghost predicate IsRun(run: seq<State>, moves: seq<(nat, Action)>)
  {
    && |run| == |moves| + 1 && Init(run[0])
    && (forall i :: 0 <= i < |moves| ==> StepsTo(run[i], moves[i], run[i + 1]))
  }

  /** Units given by V less units taken by P, over the first i moves of a run. */
  function Balance(run: seq<State>, moves: seq<(nat, Action)>, i: nat): int
    requires i <= |moves| < |run|
  {
    if i == 0 then 0
    else Balance(run, moves, i - 1) + MoveBalance(run[i - 1], moves[i - 1].0)
  }

  /** -1 when thread t is about to take a unit, 1 when it is about to give one. */
  function MoveBalance(s: State, t: nat): int
  {
    if t >= |s.pcs| then 0
    else if (s.pcs[t].PCheck? || s.pcs[t].PRecheck?) && s.count > 0 then -1
    else if s.pcs[t].VAdd? then 1
    else 0
  }

  /** Every reachable state keeps the invariant, and the count is the initial
      count plus what V has given less what P has taken. */
  lemma {:induction false} RunInv(run: seq<State>, moves: seq<(nat, Action)>, i: nat)
    requires IsRun(run, moves) && i <= |moves|
    ensures Inv(run[i]) && |run[i].pcs| == |run[0].pcs|
    ensures run[i].count == run[0].count + Balance(run, moves, i)
  {
    hide Inv;
    if i == 0 {
      InitInv(run[0]);
    } else {
      RunInv(run, moves, i - 1);
      assert StepsTo(run[i - 1], moves[i - 1], run[i]);
      StepInv(run[i - 1], moves[i - 1].0, moves[i - 1].1);
    }
  }

  // ----- calls and the count

  /** What a thread inside P or V still owes the count: a P that has not taken its unit
      yet holds the count up by one, a V that has not added its unit yet keeps it down. */
  function Owed(pc: Pc): int
  {
    match pc
    case PEnter | PCheck | PBridge | PSleep | Asleep | Woken | PRecheck => 1
    case VEnter | VAdd => -1
    case _ => 0
  }

  function OwedBy(pcs: seq<Pc>): int
  {
    if pcs == [] then 0 else OwedBy(pcs[..|pcs| - 1]) + Owed(pcs[|pcs| - 1])
  }

  lemma {:induction false} OwedUpdate(pcs: seq<Pc>, t: nat, pc: Pc)
    requires t < |pcs|
    ensures OwedBy(pcs[t := pc]) == OwedBy(pcs) - Owed(pcs[t]) + Owed(pc)
  {
    hide Owed;
    var m := |pcs| - 1;
    if t < m {
      assert pcs[t := pc][..m] == pcs[..m][t := pc];
      OwedUpdate(pcs[..m], t, pc);
    } else {
      assert pcs[t := pc][..m] == pcs[..m];
    }
  }

  lemma {:induction false} NothingOwed(pcs: seq<Pc>)
    requires forall t :: 0 <= t < |pcs| ==> pcs[t] == Outside
    ensures OwedBy(pcs) == 0
  {
    if pcs != [] {
      NothingOwed(pcs[..|pcs| - 1]);
    }
  }

  /** How many calls of V less calls of P the first i moves make. */
  function Calls(moves: seq<(nat, Action)>, i: nat): int
    requires i <= |moves|
  {
    if i == 0 then 0
    else Calls(moves, i - 1) +
         match moves[i - 1].1
         case EnterP => -1
         case EnterV => 1
         case Continue => 0
  }

  /** The thread that moves pays what it owed into the count or starts to owe. */
  lemma OwnOwed(s: State, t: nat, a: Action)
    requires t < |s.pcs| && Enabled(s, t, a) && !s.pcs[t].VRun?
    ensures Step(s, t, a).pcs == s.pcs[t := Step(s, t, a).pcs[t]]
    ensures Step(s, t, a).count - Owed(Step(s, t, a).pcs[t]) ==
            s.count - Owed(s.pcs[t]) + match a case EnterP => -1 case EnterV => 1 case Continue => 0
  {
  }

  lemma StepOwed(s: State, t: nat, a: Action)
    requires Inv(s) && t < |s.pcs| && Enabled(s, t, a)
    ensures Step(s, t, a).count - OwedBy(Step(s, t, a).pcs) ==
            s.count - OwedBy(s.pcs) + match a case EnterP => -1 case EnterV => 1 case Continue => 0
  {
    hide OwedBy;
    if s.pcs[t].VRun? {
      var target := s.pcs[t].target;
      assert s.pcs[target] == Asleep;
      OwedUpdate(s.pcs, target, Woken);
      OwedUpdate(s.pcs[target := Woken], t, VDone);
    } else {
      hide Inv;
      OwnOwed(s, t, a);
      OwedUpdate(s.pcs, t, Step(s, t, a).pcs[t]);
      hide Step, Enabled, Owed;
    }
  }

  /** In every run the count is the initial count plus the calls of V less the calls of P,
      up to what the threads inside P or V still owe it. */
  lemma {:induction false} RunCalls(run: seq<State>, moves: seq<(nat, Action)>, i: nat)
    requires IsRun(run, moves) && i <= |moves|
    ensures run[i].count == run[0].count + Calls(moves, i) + OwedBy(run[i].pcs)
  {
    hide Inv, Step, Enabled, OwedBy;
    if i == 0 {
      NothingOwed(run[0].pcs);
    } else {
      RunCalls(run, moves, i - 1);
      RunInv(run, moves, i - 1);
      assert StepsTo(run[i - 1], moves[i - 1], run[i]);
      StepOwed(run[i - 1], moves[i - 1].0, moves[i - 1].1);
    }
  }

  /** When every thread has returned, each V has added one and each P has taken one. */
  lemma AllReturned(run: seq<State>, moves: seq<(nat, Action)>, i: nat)
    requires IsRun(run, moves) && i <= |moves|
    requires forall t :: 0 <= t < |run[i].pcs| ==> run[i].pcs[t] == Outside
    ensures run[i].count == run[0].count + Calls(moves, i)
  {
    RunCalls(run, moves, i);
    NothingOwed(run[i].pcs);
  }

  /** No wakeup is lost: while threads sleep, every unit of the count has a
      wakeup under way that has not been used yet. */
  lemma NoLostWakeup(run: seq<State>, moves: seq<(nat, Action)>, i: nat)
    requires IsRun(run, moves) && i <= |moves| && run[i].sleepers != []
    ensures run[i].count <= |Wakeups(run[i].pcs)|
  {
    RunInv(run, moves, i);
  }

  /** The spinlocks never deadlock: a thread inside P or V that is not asleep
      means some thread inside P or V can step. */
  lemma SpinlocksProgress(s: State, t: nat) returns (u: nat)
    requires Inv(s) && t < |s.pcs| && s.pcs[t] != Outside && s.pcs[t] != Asleep
    ensures u < |s.pcs| && s.pcs[u] != Outside && Enabled(s, u, Continue)
  {
    if s.wcLock.By? {
      u := s.wcLock.thread;
      assert HoldsWc(s.pcs[u]);
    } else if s.semLock.By? {
      u := s.semLock.thread;
      assert HoldsSem(s.pcs[u]);
    } else {
      u := t;
      assert !HoldsSem(s.pcs[t]) && !HoldsWc(s.pcs[t]);
    }
  }

  /** When nothing inside the semaphore can step, threads sleep only on an exhausted count. */
  lemma SleepOnlyWhenExhausted(run: seq<State>, moves: seq<(nat, Action)>, i: nat)
    requires IsRun(run, moves) && i <= |moves| && run[i].sleepers != []
    requires forall t :: 0 <= t < |run[i].pcs| && run[i].pcs[t] != Outside ==> !Enabled(run[i], t, Continue)
    ensures run[i].count == 0
  {
    var s := run[i];
    NoLostWakeup(run, moves, i);
    RunInv(run, moves, i);
    hide Inv;
    if Wakeups(s.pcs) != {} {
      var t :| t in Wakeups(s.pcs);
      var u := SpinlocksProgress(s, t);
      assert false;
    }
  }
}
