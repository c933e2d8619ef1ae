/** The reader-writer lock: lk_read, lk_write and a semaphore of max_readers
    permits, each of their operations one step. */
module RwLock {
  import opened Options

  type Owner = Option<nat>

  datatype Pc =
    | Idle
    | RWait            // in rwlock_acquire_read, before lock_acquire(lk_read)
    | RPermit          // owns lk_read, before P
    | RUnlock          // has its permit, before lock_release(lk_read)
    | Reading
    | WWait            // in rwlock_acquire_write, before lock_acquire(lk_write)
    | WPermit(got: nat) // owns lk_write, got permits so far, before the next P or the release
    | Writing
    | WReturn(left: nat) // in rwlock_release_write, left permits still to give back

  datatype State = State(sem: nat, lkRead: Owner, lkWrite: Owner, pcs: seq<Pc>)

  datatype Action = AcquireRead | AcquireWrite | Continue

  predicate Init(s: State, max: nat)
  {
    && s.sem == max && s.lkRead == None && s.lkWrite == None
    && (forall t :: 0 <= t < |s.pcs| ==> s.pcs[t] == Idle)
  }

  function At(s: State, t: nat, pc: Pc): State
    requires t < |s.pcs|
  {
    s.(pcs := s.pcs[t := pc])
  }

  /** A lock_acquire waits while another thread owns the lock, a P while no permit is left. */
  predicate Enabled(s: State, max: nat, t: nat, a: Action)
    requires t < |s.pcs|
  {
    match s.pcs[t]
    case Idle => a != Continue
    case RWait => a == Continue && (s.lkRead == None || s.lkRead == Some(t))
    case RPermit => a == Continue && s.sem > 0
    case WWait => a == Continue && (s.lkWrite == None || s.lkWrite == Some(t))
    case WPermit(got) => a == Continue && (got < max ==> s.sem > 0)
    case _ => a == Continue
  }

  function Step(s: State, max: nat, t: nat, a: Action): State
    requires t < |s.pcs| && Enabled(s, max, t, a)
  {
    match s.pcs[t]
    case Idle => At(s, t, if a == AcquireRead then RWait else WWait)
    case RWait => At(s, t, RPermit).(lkRead := Some(t))
    case RPermit => At(s, t, RUnlock).(sem := s.sem - 1)
    case RUnlock => At(s, t, Reading).(lkRead := if s.lkRead == Some(t) then None else s.lkRead)
    case Reading => At(s, t, Idle).(sem := s.sem + 1)
    case WWait => At(s, t, WPermit(0)).(lkWrite := Some(t))
    case WPermit(got) =>
      if got < max then At(s, t, WPermit(got + 1)).(sem := s.sem - 1)
      else At(s, t, Writing).(lkWrite := if s.lkWrite == Some(t) then None else s.lkWrite)
    case Writing => At(s, t, WReturn(max))
    case WReturn(left) =>
      if left > 0 then At(s, t, WReturn(left - 1)).(sem := s.sem + 1)
      else At(s, t, Idle)
  }

  // ----- permits

  function Permits(pc: Pc, max: nat): nat
  {
    match pc
    case RUnlock | Reading => 1
    case WPermit(got) => got
    case Writing => max
    case WReturn(left) => left
    case _ => 0
  }

  function AllPermits(pcs: seq<Pc>, max: nat): nat
  {
    if pcs == [] then 0 else Permits(pcs[0], max) + AllPermits(pcs[1..], max)
  }

  lemma {:induction false} AllPermitsAt(pcs: seq<Pc>, max: nat, t: nat, pc: Pc)
    requires t < |pcs|
    ensures AllPermits(pcs[t := pc], max) == AllPermits(pcs, max) - Permits(pcs[t], max) + Permits(pc, max)
  {
    if t == 0 {
      assert pcs[t := pc][1..] == pcs[1..];
    } else {
      assert pcs[t := pc][1..] == pcs[1..][t - 1 := pc];
      AllPermitsAt(pcs[1..], max, t - 1, pc);
    }
  }

  /** Two threads' permits are part of the total. */
  lemma {:induction false} TwoShares(pcs: seq<Pc>, max: nat, t: nat, u: nat)
    requires t < u < |pcs|
    ensures Permits(pcs[t], max) + Permits(pcs[u], max) <= AllPermits(pcs, max)
  {
    if t == 0 {
      OneShare(pcs[1..], max, u - 1);
    } else {
      TwoShares(pcs[1..], max, t - 1, u - 1);
    }
  }

  lemma {:induction false} OneShare(pcs: seq<Pc>, max: nat, t: nat)
    requires t < |pcs|
    ensures Permits(pcs[t], max) <= AllPermits(pcs, max)
  {
    if t > 0 {
      OneShare(pcs[1..], max, t - 1);
    }
  }

  /** If thread t has not got all the permits held, another thread has some. */
  lemma {:induction false} OtherHolder(pcs: seq<Pc>, max: nat, t: nat) returns (u: nat)
    requires t < |pcs| && Permits(pcs[t], max) < AllPermits(pcs, max)
    ensures u < |pcs| && u != t && Permits(pcs[u], max) > 0
  {
    if t == 0 {
      u := SomeHolder(pcs[1..], max);
      u := u + 1;
    } else if Permits(pcs[0], max) > 0 {
      u := 0;
    } else {
      u := OtherHolder(pcs[1..], max, t - 1);
      u := u + 1;
    }
  }

  lemma {:induction false} SomeHolder(pcs: seq<Pc>, max: nat) returns (u: nat)
    requires AllPermits(pcs, max) > 0
    ensures u < |pcs| && Permits(pcs[u], max) > 0
  {
    if Permits(pcs[0], max) > 0 {
      u := 0;
    } else {
      u := SomeHolder(pcs[1..], max);
      u := u + 1;
    }
  }

  // ----- the invariant

  predicate OwnsRead(pc: Pc)
  {
    pc.RPermit? || pc.RUnlock?
  }

  predicate OwnsWrite(pc: Pc)
  {
    pc.WPermit?
  }

  ghost predicate OwnersOk(s: State)
  {
    && (forall t :: 0 <= t < |s.pcs| ==> (OwnsRead(s.pcs[t]) <==> s.lkRead == Some(t)))
    && (forall t :: 0 <= t < |s.pcs| ==> (OwnsWrite(s.pcs[t]) <==> s.lkWrite == Some(t)))
    && (s.lkRead.Some? ==> s.lkRead.value < |s.pcs|)
    && (s.lkWrite.Some? ==> s.lkWrite.value < |s.pcs|)
  }

  ghost predicate Inv(s: State, max: nat)
  {
    && s.sem + AllPermits(s.pcs, max) == max
    && OwnersOk(s)
    && (forall t :: 0 <= t < |s.pcs| && s.pcs[t].WPermit? ==> s.pcs[t].got <= max)
  }

  lemma InitInv(s: State, max: nat)
    requires Init(s, max)
    ensures Inv(s, max)
  {
    NobodyHolds(s.pcs, max);
  }

  lemma {:induction false} NobodyHolds(pcs: seq<Pc>, max: nat)
    requires forall t :: 0 <= t < |pcs| ==> pcs[t] == Idle
    ensures AllPermits(pcs, max) == 0
  {
    if pcs != [] {
      NobodyHolds(pcs[1..], max);
    }
  }

  lemma StepInv(s: State, max: nat, t: nat, a: Action)
    requires Inv(s, max) && t < |s.pcs| && Enabled(s, max, t, a)
    ensures Inv(Step(s, max, t, a), max)
  {
    hide AllPermits, OwnersOk;
    var s' := Step(s, max, t, a);
    AllPermitsAt(s.pcs, max, t, s'.pcs[t]);
    assert s'.pcs == s.pcs[t := s'.pcs[t]];
    OwnersStep(s, max, t, a);
    assert s'.sem + Permits(s'.pcs[t], max) == s.sem + Permits(s.pcs[t], max);
  }

  lemma OwnersStep(s: State, max: nat, t: nat, a: Action)
    requires OwnersOk(s) && t < |s.pcs| && Enabled(s, max, t, a)
    ensures OwnersOk(Step(s, max, t, a))
  {
    var s' := Step(s, max, t, a);
    assert OwnsRead(s.pcs[t]) <==> s.lkRead == Some(t);
    assert OwnsWrite(s.pcs[t]) <==> s.lkWrite == Some(t);
    forall u | 0 <= u < |s'.pcs|
      ensures OwnsRead(s'.pcs[u]) <==> s'.lkRead == Some(u)
      ensures OwnsWrite(s'.pcs[u]) <==> s'.lkWrite == Some(u)
    {
      assert OwnsRead(s.pcs[u]) <==> s.lkRead == Some(u);
      assert OwnsWrite(s.pcs[u]) <==> s.lkWrite == Some(u);
    }
  }

  // ----- whole runs

  ghost predicate StepsTo(s: State, max: nat, move: (nat, Action), s': State)
  {
    move.0 < |s.pcs| && Enabled(s, max, move.0, move.1) && s' == Step(s, max, move.0, move.1)
  }

  ghost predicate IsRun(run: seq<State>, max: nat, moves: seq<(nat, Action)>)
  {
    && |run| == |moves| + 1 && Init(run[0], max)
    && (forall i :: 0 <= i < |moves| ==> StepsTo(run[i], max, moves[i], run[i + 1]))
  }

  /** Permits are conserved in every reachable state. */
  lemma {:induction false} RunInv(run: seq<State>, max: nat, moves: seq<(nat, Action)>, i: nat)
    requires IsRun(run, max, moves) && i <= |moves|
    ensures Inv(run[i], max) && run[i].sem + AllPermits(run[i].pcs, max) == max
  {
    if i == 0 {
      InitInv(run[0], max);
    } else {
      RunInv(run, max, moves, i - 1);
      assert StepsTo(run[i - 1], max, moves[i - 1], run[i]);
      StepInv(run[i - 1], max, moves[i - 1].0, moves[i - 1].1);
    }
  }

  /** A writer past rwlock_acquire_write excludes every reader and every other
      writer, for any positive number of permits. */
  lemma WriterExcludes(run: seq<State>, max: nat, moves: seq<(nat, Action)>, i: nat, t: nat, u: nat)
    requires max >= 1 && IsRun(run, max, moves) && i <= |moves|
    requires t < |run[i].pcs| && u < |run[i].pcs| && t != u && run[i].pcs[t] == Writing
    ensures run[i].pcs[u] != Reading && run[i].pcs[u] != Writing && run[i].sem == 0
  {
    RunInv(run, max, moves, i);
    OneShare(run[i].pcs, max, t);
    if t < u {
      TwoShares(run[i].pcs, max, t, u);
    } else {
      TwoShares(run[i].pcs, max, u, t);
    }
  }

  /** With no permits at all the lock would not exclude anybody. */
  lemma NoPermitsNoExclusion() returns (run: seq<State>, moves: seq<(nat, Action)>)
    ensures IsRun(run, 0, moves) && run[|moves|].pcs == [Writing, Writing]
  {
    var s0 := State(0, None, None, [Idle, Idle]);
    var s1 := Step(s0, 0, 0, AcquireWrite);
    var s2 := Step(s1, 0, 0, Continue);
    var s3 := Step(s2, 0, 0, Continue);
    var s4 := Step(s3, 0, 1, AcquireWrite);
    var s5 := Step(s4, 0, 1, Continue);
    var s6 := Step(s5, 0, 1, Continue);
    run := [s0, s1, s2, s3, s4, s5, s6];
    moves := [(0, AcquireWrite), (0, Continue), (0, Continue), (1, AcquireWrite), (1, Continue), (1, Continue)];
  }

  // ----- who reads and who writes

  predicate IsReader(pc: Pc)
  {
    pc.RWait? || pc.RPermit? || pc.RUnlock? || pc.Reading?
  }

  /** The last call thread t made in the first i moves. */
  ghost function LastCall(moves: seq<(nat, Action)>, i: nat, t: nat): Action
    requires i <= |moves|
  {
    if i == 0 then Continue
    else if moves[i - 1].0 == t && moves[i - 1].1 != Continue then moves[i - 1].1
    else LastCall(moves, i - 1, t)
  }

  /** In every run a thread in the lock that called rwlock_acquire_read is on the readers'
      way, and one that called rwlock_acquire_write on the writers'. */
  lemma {:induction false} RunRoles(run: seq<State>, max: nat, moves: seq<(nat, Action)>, i: nat, t: nat)
    requires IsRun(run, max, moves) && i <= |moves| && t < |run[i].pcs| && run[i].pcs[t] != Idle
    ensures LastCall(moves, i, t) != Continue
    ensures IsReader(run[i].pcs[t]) <==> LastCall(moves, i, t) == AcquireRead
  {
    if i > 0 {
      assert StepsTo(run[i - 1], max, moves[i - 1], run[i]);
      if run[i - 1].pcs[t] != Idle {
        RunRoles(run, max, moves, i - 1, t);
      }
    }
  }

  // ----- how long a call takes

  /** The moves a thread still makes until it has released the lock. */
  function ToDo(pc: Pc, max: nat): int
  {
    match pc
    case Idle => 0
    case RWait => 4
    case RPermit => 3
    case RUnlock => 2
    case Reading => 1
    case WWait => 2 * max + 4
    case WPermit(got) => 2 * max + 3 - got
    case Writing => max + 2
    case WReturn(left) => left + 1
  }

  /** What thread t's calls allow it in the first i moves, four moves for a reader and
      2 * max + 4 for a writer, less the moves it has made. */
  function Allowance(moves: seq<(nat, Action)>, max: nat, i: nat, t: nat): int
    requires i <= |moves|
  {
    if i == 0 then 0
    else Allowance(moves, max, i - 1, t) +
         if moves[i - 1].0 != t then 0
         else match moves[i - 1].1
           case AcquireRead => 4
           case AcquireWrite => 2 * max + 4
           case Continue => -1
  }

  /** In every run a thread makes exactly the moves its calls allow: a reader is back after
      four, a writer after 2 * max + 4. With Progress, every call comes to its end. */
  lemma {:induction false} RunLengths(run: seq<State>, max: nat, moves: seq<(nat, Action)>, i: nat, t: nat)
    requires IsRun(run, max, moves) && i <= |moves| && t < |run[0].pcs|
    ensures |run[i].pcs| == |run[0].pcs| && (run[i].pcs[t].WPermit? ==> run[i].pcs[t].got <= max)
    ensures ToDo(run[i].pcs[t], max) == Allowance(moves, max, i, t) >= 0
    ensures run[i].pcs[t] == Idle <==> Allowance(moves, max, i, t) == 0
  {
    if i > 0 {
      RunLengths(run, max, moves, i - 1, t);
      assert StepsTo(run[i - 1], max, moves[i - 1], run[i]);
    }
  }

  // ----- readers together

  /** The first k of n threads read, the others have not called yet. */
  function SomeReading(max: nat, n: nat, k: nat): State
    requires k <= n && k <= max
  {
    State(max - k, None, None, seq(n, t => if t < k then Reading else Idle))
  }

  /** Thread k joins the readers. */
  lemma OneMoreReads(max: nat, n: nat, k: nat) returns (a: State, b: State, c: State)
    requires k < n && k < max
    ensures StepsTo(SomeReading(max, n, k), max, (k, AcquireRead), a) && StepsTo(a, max, (k, Continue), b)
    ensures StepsTo(b, max, (k, Continue), c) && StepsTo(c, max, (k, Continue), SomeReading(max, n, k + 1))
  {
    var s, s' := SomeReading(max, n, k), SomeReading(max, n, k + 1);
    a := At(s, k, RWait);
    b := At(a, k, RPermit).(lkRead := Some(k));
    c := At(b, k, RUnlock).(sem := s.sem - 1);
    assert At(c, k, Reading).(lkRead := None) == s' by {
      assert c.pcs[k := Reading] == s'.pcs;
    }
  }

  /** Readers share: as many threads as there are permits can read at the same time. */
  lemma {:induction false} ReadersShare(max: nat, n: nat, k: nat) returns (run: seq<State>, moves: seq<(nat, Action)>)
    requires k <= n && k <= max
    ensures IsRun(run, max, moves) && run[|moves|].pcs == seq(n, t => if t < k then Reading else Idle)
    ensures run[|moves|] == SomeReading(max, n, k)
    decreases k
  {
    if k == 0 {
      run, moves := [SomeReading(max, n, 0)], [];
    } else {
      run, moves := ReadersShare(max, n, k - 1);
      var a, b, c := OneMoreReads(max, n, k - 1);
      hide SomeReading, StepsTo, Init;
      var m := k - 1;
      run, moves := Extend(run, max, moves, (m, AcquireRead), a);
      run, moves := Extend(run, max, moves, (m, Continue), b);
      run, moves := Extend(run, max, moves, (m, Continue), c);
      run, moves := Extend(run, max, moves, (m, Continue), SomeReading(max, n, k));
      ReadingPcs(max, n, k);
    }
  }

  lemma ReadingPcs(max: nat, n: nat, k: nat)
    requires k <= n && k <= max
    ensures SomeReading(max, n, k).pcs == seq(n, t => if t < k then Reading else Idle)
  {
  }

  lemma Extend(run0: seq<State>, max: nat, moves0: seq<(nat, Action)>, move: (nat, Action), s: State)
    returns (run: seq<State>, moves: seq<(nat, Action)>)
    requires IsRun(run0, max, moves0) && StepsTo(run0[|moves0|], max, move, s)
    ensures IsRun(run, max, moves) && run[|moves|] == s
  {
    hide StepsTo, Init;
    run, moves := run0 + [s], moves0 + [move];
    forall i | 0 <= i < |moves|
      ensures StepsTo(run[i], max, moves[i], run[i + 1])
    {
      if i < |moves0| {
        assert run[i] == run0[i] && run[i + 1] == run0[i + 1] && moves[i] == moves0[i];
      }
    }
  }

  // ----- progress

  /** A thread that holds a permit outside rwlock_acquire_write can always step. */
  lemma HolderSteps(s: State, max: nat, u: nat)
    requires u < |s.pcs| && Permits(s.pcs[u], max) > 0 && !s.pcs[u].WPermit?
    ensures s.pcs[u] != Idle && Enabled(s, max, u, Continue)
  {
  }

  /** Nobody waits for a permit in vain: only one writer collects at a time, so
      when no permit is left some thread that is not collecting holds one. */
  lemma PermitProgress(s: State, max: nat, t: nat) returns (u: nat)
    requires max >= 1 && Inv(s, max) && t < |s.pcs|
    requires s.pcs[t].RPermit? || s.pcs[t].WPermit?
    ensures u < |s.pcs| && s.pcs[u] != Idle && Enabled(s, max, u, Continue)
  {
    if Enabled(s, max, t, Continue) {
      u := t;
    } else {
      assert s.sem == 0;
      var w := if s.lkWrite.Some? then s.lkWrite.value else t;
      assert Permits(s.pcs[w], max) < max || Enabled(s, max, w, Continue);
      if Enabled(s, max, w, Continue) {
        u := w;
      } else {
        u := OtherHolder(s.pcs, max, w);
        assert !s.pcs[u].WPermit?;
        HolderSteps(s, max, u);
      }
    }
  }

  /** While some thread is anywhere in the lock, some thread in the lock can step. */
  lemma Progress(run: seq<State>, max: nat, moves: seq<(nat, Action)>, i: nat, t: nat) returns (u: nat)
    requires max >= 1 && IsRun(run, max, moves) && i <= |moves| && t < |run[i].pcs| && run[i].pcs[t] != Idle
    ensures u < |run[i].pcs| && run[i].pcs[u] != Idle && Enabled(run[i], max, u, Continue)
  {
    var s := run[i];
    RunInv(run, max, moves, i);
    if s.pcs[t].RWait? && s.lkRead.Some? {
      u := s.lkRead.value;
      assert OwnsRead(s.pcs[u]);
      if s.pcs[u].RPermit? {
        u := PermitProgress(s, max, u);
      }
    } else if s.pcs[t].WWait? && s.lkWrite.Some? {
      assert OwnsWrite(s.pcs[s.lkWrite.value]);
      u := PermitProgress(s, max, s.lkWrite.value);
    } else if s.pcs[t].RPermit? || s.pcs[t].WPermit? {
      u := PermitProgress(s, max, t);
    } else {
      u := t;
    }
  }
}
