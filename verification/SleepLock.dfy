/** Sleep locks: lock_acquire and lock_release at the granularity of their
    spinlocks, with the owner test made before any spinlock is taken. The lock
    refines a semaphore whose count is 1 when the lock has no owner. */
module SleepLock {
  import opened Options
  import Sem = Semaphore

  type Owner = Option<nat>

  datatype Pc =
    | Outside
    | ATest            // about to compare owner_thread with itself, no lock held
    | AEnter | ACheck | ABridge | ASleep | Asleep | Woken | ARecheck | ATaken
    | RTest            // about to compare owner_thread with itself, no lock held
    | REnter | RClear | RWake | RTake | RRun(target: nat) | RDone

  /** inside[t] records that t's last lock_acquire returned and it has not called lock_release since. */
  datatype State = State(
    owner: Owner,
    spin: Sem.Lock,
    wcLock: Sem.Lock,
    sleepers: seq<nat>,
    pcs: seq<Pc>,
    inside: seq<bool>)

  datatype Action = CallAcquire | CallRelease | Continue

  predicate Init(s: State)
  {
    && s.owner == None && s.spin == Sem.Open && s.wcLock == Sem.Open && s.sleepers == []
    && |s.inside| == |s.pcs|
    && (forall t :: 0 <= t < |s.pcs| ==> s.pcs[t] == Outside && !s.inside[t])
  }

  function At(s: State, t: nat, pc: Pc): State
    requires t < |s.pcs|
  {
    s.(pcs := s.pcs[t := pc])
  }

  function Return(s: State, t: nat): State
    requires t < |s.pcs| == |s.inside|
  {
    At(s, t, Outside).(inside := s.inside[t := true])
  }

  predicate Enabled(s: State, t: nat, a: Action)
    requires t < |s.pcs|
  {
    match s.pcs[t]
    case Outside => a != Continue
    case AEnter | Woken | REnter => a == Continue && s.spin == Sem.Open
    case ACheck | ARecheck => a == Continue && (s.owner != None ==> s.wcLock == Sem.Open)
    case RWake => a == Continue && s.wcLock == Sem.Open
    case Asleep => false
    case RRun(target) => a == Continue && target < |s.pcs|
    case _ => a == Continue
  }

  function Step(s: State, t: nat, a: Action): State
    requires t < |s.pcs| == |s.inside| && Enabled(s, t, a)
  {
    match s.pcs[t]
    case Outside =>
      if a == CallAcquire then At(s, t, ATest) else At(s, t, RTest).(inside := s.inside[t := false])
    case ATest => if s.owner == Some(t) then Return(s, t) else At(s, t, AEnter)
    case AEnter => At(s, t, ACheck).(spin := Sem.By(t))
    case Woken => At(s, t, ARecheck).(spin := Sem.By(t))
    case ACheck | ARecheck =>
      if s.owner != None then At(s, t, ABridge).(wcLock := Sem.By(t))
      else At(s, t, ATaken).(owner := Some(t))
    case ABridge => At(s, t, ASleep).(spin := Sem.Open)
    case ASleep => At(s, t, Asleep).(sleepers := s.sleepers + [t], wcLock := Sem.Open)
    case ATaken => Return(s, t).(spin := Sem.Open)
    case RTest => if s.owner != Some(t) then At(s, t, Outside) else At(s, t, REnter)
    case REnter => At(s, t, RClear).(spin := Sem.By(t))
    case RClear => At(s, t, RWake).(owner := None)
    case RWake => At(s, t, RTake).(wcLock := Sem.By(t))
    case RTake =>
      if s.sleepers == [] then At(s, t, RDone).(wcLock := Sem.Open)
      else At(s, t, RRun(s.sleepers[0])).(sleepers := s.sleepers[1..], wcLock := Sem.Open)
    case RRun(target) => At(At(s, target, Woken), t, RDone)
    case RDone => At(s, t, Outside).(spin := Sem.Open)
  }

  // ----- refinement of a binary semaphore

  function AbsPc(pc: Pc): Sem.Pc
  {
    match pc
    case Outside | ATest | RTest => Sem.Outside
    case AEnter => Sem.PEnter
    case ACheck => Sem.PCheck
    case ABridge => Sem.PBridge
    case ASleep => Sem.PSleep
    case Asleep => Sem.Asleep
    case Woken => Sem.Woken
    case ARecheck => Sem.PRecheck
    case ATaken => Sem.PTaken
    case REnter => Sem.VEnter
    case RClear => Sem.VAdd
    case RWake => Sem.VWake
    case RTake => Sem.VTake
    case RRun(target) => Sem.VRun(target)
    case RDone => Sem.VDone
  }

  function AbsPcs(pcs: seq<Pc>): (r: seq<Sem.Pc>)
    ensures |r| == |pcs|
    ensures forall i :: 0 <= i < |pcs| ==> r[i] == AbsPc(pcs[i])
  {
    seq(|pcs|, i requires 0 <= i < |pcs| => AbsPc(pcs[i]))
  }

  function Abs(s: State): Sem.State
  {
    Sem.State(if s.owner == None then 1 else 0, s.spin, s.wcLock, s.sleepers, AbsPcs(s.pcs))
  }

  /** A thread past the unsynchronised test of lock_release still owns the lock. */
  predicate Releasing(pc: Pc)
  {
    pc.REnter? || pc.RClear?
  }

  ghost predicate OwnerOk(s: State)
  {
    && |s.inside| == |s.pcs|
    && (s.owner.Some? ==> s.owner.value < |s.pcs|)
    && (forall t :: 0 <= t < |s.pcs| ==> ThreadOk(s, t))
  }

  /** Thread t's view: it is inside, about to return from lock_acquire, or
      about to clear the owner, only as the owner. */
  predicate ThreadOk(s: State, t: nat)
    requires t < |s.pcs| == |s.inside|
  {
    && (s.inside[t] || Releasing(s.pcs[t]) || s.pcs[t] == ATaken ==> s.owner == Some(t))
    && (InRelease(s.pcs[t]) ==> !s.inside[t])
  }

  predicate InRelease(pc: Pc)
  {
    pc.RTest? || pc.REnter? || pc.RClear? || pc.RWake? || pc.RTake? || pc.RRun? || pc.RDone?
  }

  lemma OwnerStep(s: State, t: nat, a: Action)
    requires OwnerOk(s) && t < |s.pcs| && Enabled(s, t, a)
    requires s.pcs[t].RRun? ==> s.pcs[s.pcs[t].target] == Asleep
    ensures OwnerOk(Step(s, t, a))
  {
    var s' := Step(s, t, a);
    assert ThreadOk(s, t);
    forall u | 0 <= u < |s'.pcs|
      ensures ThreadOk(s', u)
    {
      assert ThreadOk(s, u);
      if u != t {
        OtherKept(s, t, a, u);
      }
    }
  }

  lemma OtherKept(s: State, t: nat, a: Action, u: nat)
    requires t < |s.pcs| == |s.inside| && u < |s.pcs| && u != t && Enabled(s, t, a)
    requires ThreadOk(s, t) && ThreadOk(s, u)
    requires s.pcs[t].RRun? ==> s.pcs[s.pcs[t].target] == Asleep
    ensures ThreadOk(Step(s, t, a), u)
  {
    var s' := Step(s, t, a);
    assert s'.inside[u] == s.inside[u];
    assert s'.pcs[u] == s.pcs[u] || (s.pcs[u] == Asleep && s'.pcs[u] == Woken);
    assert s'.owner == s.owner || s.owner == None || s.owner == Some(t);
  }

  lemma AbsAt(pcs: seq<Pc>, t: nat, pc: Pc)
    requires t < |pcs|
    ensures AbsPcs(pcs[t := pc]) == AbsPcs(pcs)[t := AbsPc(pc)]
  {
  }

  function AbsAction(s: State, t: nat): Sem.Action
    requires t < |s.pcs|
  {
    match s.pcs[t]
    case ATest => Sem.EnterP
    case RTest => Sem.EnterV
    case _ => Sem.Continue
  }

  /** The steps of the lock that the semaphore does not see: entering a call,
      and the early returns of an owner that acquires or a non-owner that releases. */
  predicate Silent(s: State, t: nat)
    requires t < |s.pcs|
  {
    || s.pcs[t].Outside?
    || (s.pcs[t].ATest? && s.owner == Some(t))
    || (s.pcs[t].RTest? && s.owner != Some(t))
  }

  /** Every step of the lock is a step of the semaphore, or silent. */
  lemma Refines(s: State, t: nat, a: Action)
    requires OwnerOk(s) && t < |s.pcs| && Enabled(s, t, a)
    ensures var s' := Step(s, t, a);
            if Silent(s, t) then Abs(s') == Abs(s)
            else Sem.Enabled(Abs(s), t, AbsAction(s, t)) && Abs(s') == Sem.Step(Abs(s), t, AbsAction(s, t))
  {
    if s.pcs[t].RRun? {
      RefinesRun(s, t, a);
    } else if Silent(s, t) {
      RefinesNone(s, t, a);
    } else {
      RefinesOne(s, t, a);
    }
  }

  predicate Acquiring(pc: Pc)
  {
    pc.ATest? || pc.AEnter? || pc.Woken? || pc.ACheck? || pc.ARecheck? || pc.ABridge? || pc.ASleep? || pc.ATaken?
  }

  lemma RefinesRun(s: State, t: nat, a: Action)
    requires OwnerOk(s) && t < |s.pcs| && Enabled(s, t, a) && s.pcs[t].RRun?
    ensures !Silent(s, t) && Sem.Enabled(Abs(s), t, AbsAction(s, t))
    ensures Abs(Step(s, t, a)) == Sem.Step(Abs(s), t, AbsAction(s, t))
  {
    AbsAt(s.pcs, s.pcs[t].target, Woken);
    AbsAt(s.pcs[s.pcs[t].target := Woken], t, RDone);
    hide OwnerOk, AbsPcs;
  }

  lemma RefinesNone(s: State, t: nat, a: Action)
    requires OwnerOk(s) && t < |s.pcs| && Enabled(s, t, a) && Silent(s, t)
    ensures Abs(Step(s, t, a)) == Abs(s)
  {
    var s' := Step(s, t, a);
    AbsAt(s.pcs, t, s'.pcs[t]);
    assert AbsPcs(s'.pcs) == AbsPcs(s.pcs);
  }

  lemma RefinesOne(s: State, t: nat, a: Action)
    requires OwnerOk(s) && t < |s.pcs| && Enabled(s, t, a) && !Silent(s, t) && !s.pcs[t].RRun?
    ensures var s' := Step(s, t, a);
            Sem.Enabled(Abs(s), t, AbsAction(s, t)) && Abs(s') == Sem.Step(Abs(s), t, AbsAction(s, t))
  {
    hide *;
    if Acquiring(s.pcs[t]) {
      RefinesAcquire(s, t, a);
    } else {
      RefinesRelease(s, t, a);
    }
  }

  lemma RefinesAcquire(s: State, t: nat, a: Action)
    requires OwnerOk(s) && t < |s.pcs| && Enabled(s, t, a) && !Silent(s, t) && Acquiring(s.pcs[t])
    ensures var s' := Step(s, t, a);
            Sem.Enabled(Abs(s), t, AbsAction(s, t)) && Abs(s') == Sem.Step(Abs(s), t, AbsAction(s, t))
  {
    var s' := Step(s, t, a);
    AbsAt(s.pcs, t, s'.pcs[t]);
    assert s'.pcs == s.pcs[t := s'.pcs[t]];
    hide OwnerOk, AbsPcs;
    var c, c' := Abs(s), Sem.Step(Abs(s), t, AbsAction(s, t));
    assert c'.pcs == c.pcs[t := AbsPc(s'.pcs[t])];
    assert c'.count == (if s'.owner == None then 1 else 0);
  }

  lemma RefinesRelease(s: State, t: nat, a: Action)
    requires OwnerOk(s) && t < |s.pcs| && Enabled(s, t, a) && !Silent(s, t) && !s.pcs[t].RRun? && !Acquiring(s.pcs[t])
    ensures var s' := Step(s, t, a);
            Sem.Enabled(Abs(s), t, AbsAction(s, t)) && Abs(s') == Sem.Step(Abs(s), t, AbsAction(s, t))
  {
    var s' := Step(s, t, a);
    AbsAt(s.pcs, t, s'.pcs[t]);
    assert s'.pcs == s.pcs[t := s'.pcs[t]];
    assert s.pcs[t].RClear? ==> s.owner == Some(t) by { assert ThreadOk(s, t); }
    hide OwnerOk, AbsPcs;
    var c, c' := Abs(s), Sem.Step(Abs(s), t, AbsAction(s, t));
    assert c'.pcs == c.pcs[t := AbsPc(s'.pcs[t])];
    assert c'.count == (if s'.owner == None then 1 else 0);
  }

  ghost predicate Inv(s: State)
  {
    OwnerOk(s) && Sem.Inv(Abs(s))
  }

  lemma InitInv(s: State)
    requires Init(s)
    ensures Inv(s)
  {
    Sem.InitInv(Abs(s));
  }

  lemma StepInv(s: State, t: nat, a: Action)
    requires Inv(s) && t < |s.pcs| && Enabled(s, t, a)
    ensures Inv(Step(s, t, a))
  {
    Refines(s, t, a);
    RunTargetSleeps(s, t);
    OwnerStep(s, t, a);
    if !Silent(s, t) {
      Sem.StepInv(Abs(s), t, AbsAction(s, t));
    }
  }

  lemma RunTargetSleeps(s: State, t: nat)
    requires Sem.Inv(Abs(s)) && t < |s.pcs|
    ensures s.pcs[t].RRun? ==> s.pcs[t].target < |s.pcs| && s.pcs[s.pcs[t].target] == Asleep
  {
    if s.pcs[t].RRun? {
      assert Abs(s).pcs[t].VRun?;
    }
  }

  // ----- whole runs

  ghost predicate StepsTo(s: State, move: (nat, Action), s': State)
  {
    move.0 < |s.pcs| == |s.inside| && Enabled(s, move.0, move.1) && s' == Step(s, move.0, move.1)
  }

  ghost predicate IsRun(run: seq<State>, moves: seq<(nat, Action)>)
  {
    && |run| == |moves| + 1 && Init(run[0])
    && (forall i :: 0 <= i < |moves| ==> StepsTo(run[i], moves[i], run[i + 1]))
  }

  lemma {:induction false} RunInv(run: seq<State>, moves: seq<(nat, Action)>, i: nat)
    requires IsRun(run, moves) && i <= |moves|
    ensures Inv(run[i])
  {
    hide Inv;
    if i == 0 {
      InitInv(run[0]);
    } else {
      RunInv(run, moves, i - 1);
      assert StepsTo(run[i - 1], moves[i - 1], run[i]);
      StepInv(run[i - 1], moves[i - 1].0, moves[i - 1].1);
    }
  }

  predicate IsAcquirer(pc: Pc)
  {
    pc.ATest? || pc.AEnter? || pc.ACheck? || pc.ABridge? || pc.ASleep? || pc.Asleep? || pc.Woken? ||
    pc.ARecheck? || pc.ATaken?
  }

  /** The last call thread t made in the first i moves. */
  ghost function LastCall(moves: seq<(nat, Action)>, i: nat, t: nat): Action
    requires i <= |moves|
  {
    if i == 0 then Continue
    else if moves[i - 1].0 == t && moves[i - 1].1 != Continue then moves[i - 1].1
    else LastCall(moves, i - 1, t)
  }

  /** What t's last call tells about where it is: in lock_acquire or lock_release as it
      called, and once back, inside just when that call was lock_acquire. */
  ghost predicate RoleOk(s: State, t: nat, call: Action)
    requires t < |s.pcs| == |s.inside|
  {
    && (s.inside[t] ==> call == CallAcquire)
    && (s.pcs[t] == Outside && call == CallAcquire ==> s.inside[t])
    && (s.pcs[t] != Outside ==> call != Continue && (IsAcquirer(s.pcs[t]) <==> call == CallAcquire))
  }

  lemma OwnRole(s: State, t: nat, a: Action, call: Action)
    requires t < |s.pcs| == |s.inside| && Enabled(s, t, a) && RoleOk(s, t, call)
    ensures |Step(s, t, a).pcs| == |Step(s, t, a).inside| == |s.pcs|
    ensures RoleOk(Step(s, t, a), t, if a != Continue then a else call)
  {
    assert s.pcs[t].RRun? ==> Step(s, t, a).pcs[t] == RDone;
  }

  lemma OthersRole(s: State, t: nat, a: Action, u: nat, call: Action)
    requires t < |s.pcs| == |s.inside| && Enabled(s, t, a) && u < |s.pcs| && u != t && RoleOk(s, u, call)
    requires s.pcs[t].RRun? ==> s.pcs[t].target < |s.pcs| && s.pcs[s.pcs[t].target] == Asleep
    ensures |Step(s, t, a).pcs| == |Step(s, t, a).inside| == |s.pcs|
    ensures RoleOk(Step(s, t, a), u, call)
  {
    var s' := Step(s, t, a);
    assert s'.inside[u] == s.inside[u];
    assert s'.pcs[u] == s.pcs[u] || (s.pcs[u] == Asleep && s'.pcs[u] == Woken);
    hide Step, Enabled;
  }

  lemma StepRole(s: State, t: nat, a: Action, u: nat, call: Action)
    requires Inv(s) && t < |s.pcs| == |s.inside| && Enabled(s, t, a) && u < |s.pcs| && RoleOk(s, u, call)
    ensures |Step(s, t, a).pcs| == |Step(s, t, a).inside| == |s.pcs|
    ensures RoleOk(Step(s, t, a), u, if t == u && a != Continue then a else call)
  {
    hide RoleOk, Step, Enabled;
    RunTargetSleeps(s, t);
    hide Inv;
    if u == t {
      OwnRole(s, t, a, call);
    } else {
      OthersRole(s, t, a, u, call);
    }
  }

  lemma StartRole(s: State, t: nat)
    requires Init(s) && t < |s.pcs|
    ensures |s.inside| == |s.pcs| && RoleOk(s, t, Continue)
  {
  }

  /** In every run a thread is where its last call says. */
  lemma {:induction false} RunRoles(run: seq<State>, moves: seq<(nat, Action)>, i: nat, t: nat)
    requires IsRun(run, moves) && i <= |moves| && t < |run[0].pcs|
    ensures |run[i].pcs| == |run[i].inside| == |run[0].pcs|
    ensures RoleOk(run[i], t, LastCall(moves, i, t))
  {
    hide Inv, Init, RoleOk, Step, Enabled;
    if i == 0 {
      StartRole(run[0], t);
    } else {
      RunRoles(run, moves, i - 1, t);
      RunInv(run, moves, i - 1);
      assert StepsTo(run[i - 1], moves[i - 1], run[i]);
      StepRole(run[i - 1], moves[i - 1].0, moves[i - 1].1, t, LastCall(moves, i - 1, t));
    }
  }

  /** Two threads are never both between lock_acquire and lock_release. */
  lemma MutualExclusion(run: seq<State>, moves: seq<(nat, Action)>, i: nat, t: nat, u: nat)
    requires IsRun(run, moves) && i <= |moves|
    requires t < |run[i].inside| && u < |run[i].inside| && run[i].inside[t] && run[i].inside[u]
    ensures t == u && run[i].owner == Some(t)
  {
    RunInv(run, moves, i);
    assert ThreadOk(run[i], t) && ThreadOk(run[i], u);
  }

  /** While threads sleep on a lock nobody owns, a wakeup is under way. */
  lemma NoLostWakeup(run: seq<State>, moves: seq<(nat, Action)>, i: nat)
    requires IsRun(run, moves) && i <= |moves| && run[i].sleepers != [] && run[i].owner == None
    ensures Sem.Wakeups(AbsPcs(run[i].pcs)) != {}
  {
    RunInv(run, moves, i);
  }

  /** When no thread inside the lock can step, threads sleep only while it is owned. */
  lemma SleepOnlyWhenOwned(run: seq<State>, moves: seq<(nat, Action)>, i: nat)
    requires IsRun(run, moves) && i <= |moves| && run[i].sleepers != []
    requires forall t :: 0 <= t < |run[i].pcs| && run[i].pcs[t] != Outside ==> !Enabled(run[i], t, Continue)
    ensures run[i].owner != None
  {
    var s := run[i];
    RunInv(run, moves, i);
    if s.owner == None {
      NoLostWakeup(run, moves, i);
      var t :| t in Sem.Wakeups(Abs(s).pcs);
      var u := Sem.SpinlocksProgress(Abs(s), t);
      assert Abs(s).pcs[u] == AbsPc(s.pcs[u]);
      assert Enabled(s, u, Continue);
    }
  }
}
