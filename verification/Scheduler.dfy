/** Thread placement: run queues, wait channels, zombies, wakeups and migration
    as steps that any number of CPUs interleave in any way. */
module Scheduler {
  import opened Counting

  /** A thread is a number. moving holds the victims of a migration this CPU
      is in the middle of, migrating says that it is in the middle of one. */
  datatype Cpu = Cpu(
    cur: nat,
    idle: bool,
    runq: seq<nat>,
    zombies: seq<nat>,
    moving: seq<nat>,
    migrating: bool)

  /** hands holds the threads taken off a wait channel and not yet made runnable. */
  datatype State = State(
    cpus: seq<Cpu>,
    chans: seq<seq<nat>>,
    hands: seq<nat>,
    tcpu: map<nat, nat>)

  datatype Step =
    | Yield(c: nat)             // thread_switch(S_READY)
    | Sleep(c: nat, w: nat)     // thread_switch(S_SLEEP) on channel w
    | Exit(c: nat)              // thread_switch(S_ZOMBIE)
    | PickNext(c: nat)          // the rest of thread_switch: the idle loop finds a thread
    | Exorcise(c: nat)          // destroys this CPU's zombies
    | Fork(c: nat, t: nat)      // a new thread on the current CPU
    | TakeSleeper(w: nat)       // wchan_wakeone or wchan_wakeall takes a sleeper
    | MakeRunnable(k: nat)      // and puts it on its CPU's run queue
    | MigrateStart(c: nat, n: nat)  // takes n victims off the tail of its own queue
    | MigratePush(c: nat, d: nat)   // gives the first victim to CPU d
    | MigrateEnd(c: nat)            // puts the remaining victims back

  // ----- the lists

  function OnCpuLists(c: Cpu, t: nat): nat
  {
    On(c.runq, t) + On(c.zombies, t) + On(c.moving, t)
  }

  function OnAllCpus(cpus: seq<Cpu>, t: nat): nat
  {
    if cpus == [] then 0 else OnCpuLists(cpus[0], t) + OnAllCpus(cpus[1..], t)
  }

  /** How often t is on any list. */
  function Placed(s: State, t: nat): nat
  {
    OnAllCpus(s.cpus, t) + OnLists(s.chans, t) + On(s.hands, t)
  }

  // ----- steps

  function SetCpu(s: State, c: nat, cpu: Cpu): State
    requires c < |s.cpus|
  {
    s.(cpus := s.cpus[c := cpu])
  }

  predicate Enabled(s: State, step: Step)
  {
    match step
    case Yield(c) => Running(s, c) && s.cpus[c].runq != [] && OnCpu(s, s.cpus[c].cur)
    case Sleep(c, w) => Running(s, c) && w < |s.chans|
    case Exit(c) => Running(s, c)
    case PickNext(c) => c < |s.cpus| && s.cpus[c].idle && !s.cpus[c].migrating && s.cpus[c].runq != []
    case Exorcise(c) => Running(s, c)
    case Fork(c, t) => Running(s, c) && t !in s.tcpu && OnCpu(s, s.cpus[c].cur)
    case TakeSleeper(w) => w < |s.chans| && s.chans[w] != []
    case MakeRunnable(k) => k < |s.hands| && OnCpu(s, s.hands[k])
    case MigrateStart(c, n) => c < |s.cpus| && !s.cpus[c].migrating && n <= |s.cpus[c].runq|
    case MigratePush(c, d) => c < |s.cpus| && d < |s.cpus| && c != d && s.cpus[c].moving != []
    case MigrateEnd(c) => c < |s.cpus| && s.cpus[c].migrating
  }

  /** The CPU executes its current thread, outside migration. */
  predicate Running(s: State, c: nat)
  {
    c < |s.cpus| && !s.cpus[c].idle && !s.cpus[c].migrating
  }

  predicate OnCpu(s: State, t: nat)
  {
    t in s.tcpu && s.tcpu[t] < |s.cpus|
  }

  /** thread_make_runnable: to the tail of the queue of the thread's own CPU. */
  function Enqueue(s: State, t: nat): State
    requires OnCpu(s, t)
  {
    var c := s.tcpu[t];
    SetCpu(s, c, s.cpus[c].(runq := s.cpus[c].runq + [t]))
  }

  function Idle(s: State, c: nat): State
    requires c < |s.cpus|
  {
    SetCpu(s, c, s.cpus[c].(idle := true))
  }

  function Next(s: State, step: Step): State
    requires Enabled(s, step)
  {
    match step
    case Yield(c) => Idle(Enqueue(s, s.cpus[c].cur), c)
    case Sleep(c, w) => Idle(s.(chans := s.chans[w := s.chans[w] + [s.cpus[c].cur]]), c)
    case Exit(c) => SetCpu(s, c, s.cpus[c].(zombies := s.cpus[c].zombies + [s.cpus[c].cur], idle := true))
    case PickNext(c) =>
      SetCpu(s, c, s.cpus[c].(cur := s.cpus[c].runq[0], runq := s.cpus[c].runq[1..], idle := false))
    case Exorcise(c) => SetCpu(s, c, s.cpus[c].(zombies := []))
    case Fork(c, t) =>
      Enqueue(s.(tcpu := s.tcpu[t := s.tcpu[s.cpus[c].cur]]), t)
    case TakeSleeper(w) => s.(chans := s.chans[w := s.chans[w][1..]], hands := s.hands + [s.chans[w][0]])
    case MakeRunnable(k) =>
      Enqueue(s, s.hands[k]).(hands := s.hands[..k] + s.hands[k + 1..])
    case MigrateStart(c, n) =>
      var q := s.cpus[c].runq;
      SetCpu(s, c, s.cpus[c].(runq := q[..|q| - n], moving := s.cpus[c].moving + q[|q| - n..], migrating := true))
    case MigratePush(c, d) => PushVictim(s, c, d, s.cpus[c].cur)
    case MigrateEnd(c) =>
      SetCpu(s, c, s.cpus[c].(runq := s.cpus[c].runq + s.cpus[c].moving, moving := [], migrating := false))
  }

  /** The first victim goes to the tail of d's queue, unless it is the thread to skip. */
  function PushVictim(s: State, c: nat, d: nat, skip: nat): State
    requires c < |s.cpus| && d < |s.cpus| && c != d && s.cpus[c].moving != []
  {
    var t, rest := s.cpus[c].moving[0], s.cpus[c].moving[1..];
    if t == skip then SetCpu(s, c, s.cpus[c].(moving := rest + [t]))
    else Enqueue(SetCpu(s, c, s.cpus[c].(moving := rest)).(tcpu := s.tcpu[t := d]), t)
  }

  // ----- the invariant

  ghost predicate Inv(s: State)
  {
    && OncePlaced(s)
    && CurrentOk(s)
    && HomeOk(s)
  }

  /** Every thread is on at most one list, at most once. */
  ghost predicate OncePlaced(s: State)
  {
    forall t: nat :: Placed(s, t) <= 1
  }

  /** A current thread belongs to its CPU; that of a busy CPU is on no list. */
  ghost predicate CurrentOk(s: State)
  {
    forall c :: 0 <= c < |s.cpus| ==> CpuCurrentOk(s, c)
  }

  predicate CpuCurrentOk(s: State, c: nat)
    requires c < |s.cpus|
  {
    && s.cpus[c].cur in s.tcpu && s.tcpu[s.cpus[c].cur] == c
    && (!s.cpus[c].idle ==> Placed(s, s.cpus[c].cur) == 0)
  }

  /** Threads on a CPU's own lists belong to that CPU, every listed thread to some CPU. */
  ghost predicate HomeOk(s: State)
  {
    && (forall c: nat, t: nat :: c < |s.cpus| && OnCpuLists(s.cpus[c], t) > 0 ==> t in s.tcpu && s.tcpu[t] == c)
    && (forall t: nat :: Placed(s, t) > 0 ==> t in s.tcpu)
    && (forall t :: t in s.tcpu ==> s.tcpu[t] < |s.cpus|)
  }

  // ----- how a list change shows

  lemma {:induction false} OnAllCpusAt(cpus: seq<Cpu>, c: nat, cpu: Cpu, t: nat)
    requires c < |cpus|
    ensures OnCpuLists(cpus[c], t) <= OnAllCpus(cpus, t)
    ensures OnAllCpus(cpus[c := cpu], t) == OnAllCpus(cpus, t) - OnCpuLists(cpus[c], t) + OnCpuLists(cpu, t)
  {
    hide OnCpuLists;
    if c == 0 {
      assert cpus[c := cpu][1..] == cpus[1..];
    } else {
      assert cpus[c := cpu][1..] == cpus[1..][c - 1 := cpu];
      OnAllCpusAt(cpus[1..], c - 1, cpu, t);
    }
  }

  lemma PlacedCpu(s: State, c: nat, cpu: Cpu, t: nat)
    requires c < |s.cpus|
    ensures OnCpuLists(s.cpus[c], t) <= Placed(s, t)
    ensures Placed(SetCpu(s, c, cpu), t) == Placed(s, t) - OnCpuLists(s.cpus[c], t) + OnCpuLists(cpu, t)
  {
    OnAllCpusAt(s.cpus, c, cpu, t);
  }

  lemma EnqueuePlaced(s: State, t: nat, u: nat)
    requires OnCpu(s, t)
    ensures var s' := Enqueue(s, t);
            var one := if u == t then 1 else 0;
            Placed(s', u) == Placed(s, u) + one &&
            OnCpuLists(s'.cpus[s.tcpu[t]], u) == OnCpuLists(s.cpus[s.tcpu[t]], u) + one
  {
    var c := s.tcpu[t];
    OnAppend(s.cpus[c].runq, t, u);
    PlacedCpu(s, c, s.cpus[c].(runq := s.cpus[c].runq + [t]), u);
    hide Placed, On;
  }

  // ----- a busy CPU puts its current thread on a list

  /** Thread t is on one more list in s' than in s, any other thread on as many. */
  ghost predicate PlacedOneMore(s: State, s': State, t: nat)
  {
    forall u: nat :: Placed(s', u) == Placed(s, u) + if u == t then 1 else 0
  }

  ghost predicate SameElsewhere(s: State, s': State, c: nat)
  {
    |s'.cpus| == |s.cpus| && forall d :: 0 <= d < |s.cpus| && d != c ==> s'.cpus[d] == s.cpus[d]
  }

  /** CPU c's own lists have gained at most t. */
  ghost predicate GainsAtMost(before: Cpu, after: Cpu, t: nat)
  {
    forall u: nat :: OnCpuLists(after, u) <= OnCpuLists(before, u) + if u == t then 1 else 0
  }

  lemma PutAwayKeeps(s: State, s': State, c: nat)
    requires Inv(s) && c < |s.cpus| && !s.cpus[c].idle && s'.tcpu == s.tcpu && SameElsewhere(s, s', c)
    requires PlacedOneMore(s, s', s.cpus[c].cur)
    requires s'.cpus[c].idle && s'.cpus[c].cur == s.cpus[c].cur
    requires GainsAtMost(s.cpus[c], s'.cpus[c], s.cpus[c].cur)
    ensures Inv(s')
  {
    hide Placed, OnCpuLists;
    var t := s.cpus[c].cur;
    assert CpuCurrentOk(s, c);
    forall d | 0 <= d < |s'.cpus|
      ensures CpuCurrentOk(s', d)
    {
      assert CpuCurrentOk(s, d);
    }
    forall d: nat, u: nat | d < |s'.cpus| && OnCpuLists(s'.cpus[d], u) > 0
      ensures u in s'.tcpu && s'.tcpu[u] == d
    {
      if d != c || u != t {
        assert OnCpuLists(s.cpus[d], u) > 0;
      }
    }
    forall u: nat | Placed(s', u) > 0
      ensures u in s'.tcpu
    {
      assert u == t || Placed(s, u) > 0;
    }
  }

  lemma YieldPlaced(s: State, c: nat, u: nat)
    requires Enabled(s, Yield(c))
    ensures var s', t := Next(s, Yield(c)), s.cpus[c].cur;
            && Placed(s', u) == Placed(s, u) + (if u == t then 1 else 0)
            && OnCpuLists(s'.cpus[c], u) <= OnCpuLists(s.cpus[c], u) + if u == t then 1 else 0
  {
    hide Placed, OnCpuLists;
    EnqueuePlaced(s, s.cpus[c].cur, u);
    SetIdle(Enqueue(s, s.cpus[c].cur), c, u);
  }

  lemma YieldKeeps(s: State, c: nat)
    requires Inv(s) && Enabled(s, Yield(c))
    ensures Inv(Next(s, Yield(c)))
  {
    var t := s.cpus[c].cur;
    assert CpuCurrentOk(s, c);
    hide Inv, Placed, OnCpuLists;
    var s' := Next(s, Yield(c));
    forall u: nat
      ensures Placed(s', u) == Placed(s, u) + if u == t then 1 else 0
      ensures OnCpuLists(s'.cpus[c], u) <= OnCpuLists(s.cpus[c], u) + if u == t then 1 else 0
    {
      YieldPlaced(s, c, u);
    }
    PutAwayKeeps(s, s', c);
  }

  lemma SetIdle(s: State, c: nat, u: nat)
    requires c < |s.cpus|
    ensures Placed(Idle(s, c), u) == Placed(s, u)
    ensures OnCpuLists(Idle(s, c).cpus[c], u) == OnCpuLists(s.cpus[c], u)
  {
    PlacedCpu(s, c, s.cpus[c].(idle := true), u);
    hide Placed;
  }

  lemma SleepPlaced(s: State, c: nat, w: nat, u: nat)
    requires Enabled(s, Sleep(c, w))
    ensures var s', t := Next(s, Sleep(c, w)), s.cpus[c].cur;
            && Placed(s', u) == Placed(s, u) + (if u == t then 1 else 0)
            && OnCpuLists(s'.cpus[c], u) == OnCpuLists(s.cpus[c], u)
  {
    hide OnCpuLists;
    var t := s.cpus[c].cur;
    var s1 := s.(chans := s.chans[w := s.chans[w] + [t]]);
    OnListsAt(s.chans, w, s.chans[w] + [t], u);
    OnAppend(s.chans[w], t, u);
    assert Placed(s1, u) == Placed(s, u) + if u == t then 1 else 0;
    hide Placed;
    SetIdle(s1, c, u);
  }

  lemma SleepKeeps(s: State, c: nat, w: nat)
    requires Inv(s) && Enabled(s, Sleep(c, w))
    ensures Inv(Next(s, Sleep(c, w)))
  {
    hide Inv, OnCpuLists;
    var t := s.cpus[c].cur;
    var s' := Next(s, Sleep(c, w));
    hide Placed;
    forall u: nat
      ensures Placed(s', u) == Placed(s, u) + if u == t then 1 else 0
      ensures OnCpuLists(s'.cpus[c], u) <= OnCpuLists(s.cpus[c], u) + if u == t then 1 else 0
    {
      SleepPlaced(s, c, w, u);
    }
    PutAwayKeeps(s, s', c);
  }

  lemma ExitPlaced(s: State, c: nat, u: nat)
    requires Enabled(s, Exit(c))
    ensures var s', t := Next(s, Exit(c)), s.cpus[c].cur;
            && Placed(s', u) == Placed(s, u) + (if u == t then 1 else 0)
            && OnCpuLists(s'.cpus[c], u) == OnCpuLists(s.cpus[c], u) + if u == t then 1 else 0
  {
    hide Placed, On;
    OnAppend(s.cpus[c].zombies, s.cpus[c].cur, u);
    PlacedCpu(s, c, Next(s, Exit(c)).cpus[c], u);
  }

  lemma ExitKeeps(s: State, c: nat)
    requires Inv(s) && Enabled(s, Exit(c))
    ensures Inv(Next(s, Exit(c)))
  {
    hide Inv, Placed, OnCpuLists;
    var t := s.cpus[c].cur;
    var s' := Next(s, Exit(c));
    forall u: nat
      ensures Placed(s', u) == Placed(s, u) + if u == t then 1 else 0
      ensures OnCpuLists(s'.cpus[c], u) <= OnCpuLists(s.cpus[c], u) + if u == t then 1 else 0
    {
      ExitPlaced(s, c, u);
    }
    PutAwayKeeps(s, s', c);
  }

  // ----- steps that only shrink a CPU's lists

  /** s' has dropped threads from CPU c's lists; its current thread is now one it dropped, or as before. */
  lemma ShrinkKeeps(s: State, s': State, c: nat)
    requires Inv(s) && c < |s.cpus| && s'.tcpu == s.tcpu && SameElsewhere(s, s', c)
    requires forall u: nat :: Placed(s', u) <= Placed(s, u) && OnCpuLists(s'.cpus[c], u) <= OnCpuLists(s.cpus[c], u)
    requires CpuCurrentOk(s', c)
    ensures Inv(s')
  {
    hide Placed, OnCpuLists;
    forall d | 0 <= d < |s'.cpus|
      ensures CpuCurrentOk(s', d)
    {
      assert CpuCurrentOk(s, d);
    }
    forall d: nat, u: nat | d < |s'.cpus| && OnCpuLists(s'.cpus[d], u) > 0
      ensures u in s'.tcpu && s'.tcpu[u] == d
    {
      assert OnCpuLists(s.cpus[d], u) > 0;
    }
    forall u: nat | Placed(s', u) > 0
      ensures u in s'.tcpu
    {
      assert Placed(s, u) > 0;
    }
  }

  lemma PickNextPlaced(s: State, c: nat, u: nat)
    requires Enabled(s, PickNext(c))
    ensures var s', t := Next(s, PickNext(c)), s.cpus[c].runq[0];
            && Placed(s', u) == Placed(s, u) - (if u == t then 1 else 0)
            && OnCpuLists(s'.cpus[c], u) == OnCpuLists(s.cpus[c], u) - (if u == t then 1 else 0)
            && OnCpuLists(s.cpus[c], u) <= Placed(s, u) && (u == t ==> OnCpuLists(s.cpus[c], u) > 0)
  {
    hide Placed, On;
    OnFirst(s.cpus[c].runq, u);
    PlacedCpu(s, c, Next(s, PickNext(c)).cpus[c], u);
  }

  lemma PickNextKeeps(s: State, c: nat)
    requires Inv(s) && Enabled(s, PickNext(c))
    ensures Inv(Next(s, PickNext(c)))
  {
    hide Placed, OnCpuLists;
    var s' := Next(s, PickNext(c));
    var t := s.cpus[c].runq[0];
    forall u: nat
      ensures Placed(s', u) == Placed(s, u) - if u == t then 1 else 0
      ensures OnCpuLists(s'.cpus[c], u) == OnCpuLists(s.cpus[c], u) - if u == t then 1 else 0
      ensures OnCpuLists(s.cpus[c], u) <= Placed(s, u)
    {
      PickNextPlaced(s, c, u);
    }
    assert OnCpuLists(s.cpus[c], t) > 0 && Placed(s, t) <= 1;
    hide Inv;
    ShrinkKeeps(s, s', c);
  }

  lemma ExorcisePlaced(s: State, c: nat, u: nat)
    requires Enabled(s, Exorcise(c))
    ensures var s' := Next(s, Exorcise(c));
            && Placed(s', u) == Placed(s, u) - On(s.cpus[c].zombies, u)
            && OnCpuLists(s'.cpus[c], u) == OnCpuLists(s.cpus[c], u) - On(s.cpus[c].zombies, u)
            && OnCpuLists(s.cpus[c], u) <= Placed(s, u)
  {
    hide Placed, On;
    OnNone(u);
    PlacedCpu(s, c, Next(s, Exorcise(c)).cpus[c], u);
  }

  lemma ExorciseKeeps(s: State, c: nat)
    requires Inv(s) && Enabled(s, Exorcise(c))
    ensures Inv(Next(s, Exorcise(c)))
  {
    hide Placed;
    var s' := Next(s, Exorcise(c));
    forall u: nat
      ensures Placed(s', u) <= Placed(s, u) && OnCpuLists(s'.cpus[c], u) <= OnCpuLists(s.cpus[c], u)
    {
      ExorcisePlaced(s, c, u);
    }
    assert CpuCurrentOk(s, c);
    hide Inv, OnCpuLists;
    ShrinkKeeps(s, s', c);
  }

  // ----- steps that give a thread to a CPU's run queue

  /** Thread t, waiting on a list or new, ends up on CPU e's lists and nowhere else. */
  ghost predicate GivenTo(s: State, s': State, t: nat, e: nat)
  {
    && |s'.cpus| == |s.cpus| && e < |s.cpus| && s'.tcpu == s.tcpu[t := e]
    && (forall d :: 0 <= d < |s.cpus| ==> s'.cpus[d].cur == s.cpus[d].cur && s'.cpus[d].idle == s.cpus[d].idle)
    && (forall d: nat, u: nat :: d < |s.cpus| && u != t ==> OnCpuLists(s'.cpus[d], u) <= OnCpuLists(s.cpus[d], u))
    && (forall d: nat :: d < |s.cpus| && d != e ==> OnCpuLists(s'.cpus[d], t) == 0)
    && (forall u: nat :: u != t ==> Placed(s', u) <= Placed(s, u))
    && Placed(s', t) <= 1
  }

  lemma GivenKeeps(s: State, s': State, t: nat, e: nat)
    requires Inv(s) && GivenTo(s, s', t, e)
    requires Placed(s, t) > 0 || t !in s.tcpu
    requires (t in s.tcpu && s.tcpu[t] == e) || (forall d :: 0 <= d < |s.cpus| ==> s.cpus[d].cur != t)
    ensures Inv(s')
  {
    hide Placed, OnCpuLists;
    forall d | 0 <= d < |s'.cpus|
      ensures CpuCurrentOk(s', d)
    {
      assert CpuCurrentOk(s, d);
    }
    forall d: nat, u: nat | d < |s'.cpus| && OnCpuLists(s'.cpus[d], u) > 0
      ensures u in s'.tcpu && s'.tcpu[u] == d
    {
      if u != t {
        assert OnCpuLists(s.cpus[d], u) > 0;
      }
    }
    forall u: nat
      ensures Placed(s', u) <= 1 && (Placed(s', u) > 0 ==> u in s'.tcpu)
    {
      assert Placed(s, u) <= 1;
    }
  }

  lemma Once(s: State, t: nat)
    requires Inv(s)
    ensures Placed(s, t) <= 1
  {
  }

  lemma CurrentHere(s: State, c: nat)
    requires Inv(s) && c < |s.cpus|
    ensures CpuCurrentOk(s, c)
  {
  }

  lemma NewThread(s: State, t: nat)
    requires Inv(s) && t !in s.tcpu
    ensures Placed(s, t) == 0
    ensures forall d :: 0 <= d < |s.cpus| ==> s.cpus[d].cur != t
  {
    hide Placed;
    forall d | 0 <= d < |s.cpus|
      ensures s.cpus[d].cur != t
    {
      assert CpuCurrentOk(s, d);
    }
  }

  lemma NotListed(s: State, d: nat, t: nat)
    requires Inv(s) && d < |s.cpus| && (t !in s.tcpu || s.tcpu[t] != d)
    ensures OnCpuLists(s.cpus[d], t) == 0
  {
  }

  lemma ForkPlaced(s: State, c: nat, t: nat, u: nat)
    requires Enabled(s, Fork(c, t))
    ensures var s', e := Next(s, Fork(c, t)), s.tcpu[s.cpus[c].cur];
            && Placed(s', u) == Placed(s, u) + (if u == t then 1 else 0)
            && OnCpuLists(s'.cpus[e], u) == OnCpuLists(s.cpus[e], u) + if u == t then 1 else 0
  {
    hide Placed, OnCpuLists;
    var s1 := s.(tcpu := s.tcpu[t := s.tcpu[s.cpus[c].cur]]);
    SameLists(s, s1, u);
    EnqueuePlaced(s1, t, u);
  }

  lemma ForkKeeps(s: State, c: nat, t: nat)
    requires Inv(s) && Enabled(s, Fork(c, t))
    ensures Inv(Next(s, Fork(c, t)))
  {
    hide Inv, Placed, OnCpuLists;
    var e := s.tcpu[s.cpus[c].cur];
    var s' := Next(s, Fork(c, t));
    NewThread(s, t);
    forall u: nat
      ensures Placed(s', u) == Placed(s, u) + (if u == t then 1 else 0)
      ensures OnCpuLists(s'.cpus[e], u) == OnCpuLists(s.cpus[e], u) + (if u == t then 1 else 0)
    {
      ForkPlaced(s, c, t, u);
    }
    forall d: nat | d < |s.cpus| && d != e
      ensures OnCpuLists(s'.cpus[d], t) == 0
    {
      NotListed(s, d, t);
    }
    assert GivenTo(s, s', t, e);
    GivenKeeps(s, s', t, e);
  }

  lemma SameLists(s: State, s': State, u: nat)
    requires s'.cpus == s.cpus && s'.chans == s.chans && s'.hands == s.hands
    ensures Placed(s', u) == Placed(s, u)
  {
  }

  lemma MakeRunnablePlaced(s: State, k: nat, u: nat)
    requires Enabled(s, MakeRunnable(k))
    ensures var s', t := Next(s, MakeRunnable(k)), s.hands[k];
            var e := s.tcpu[t];
            && Placed(s', u) == Placed(s, u) && (u == t ==> Placed(s, u) > 0)
            && OnCpuLists(s'.cpus[e], u) == OnCpuLists(s.cpus[e], u) + if u == t then 1 else 0
  {
    hide Placed, OnCpuLists, On;
    var s1, s' := Enqueue(s, s.hands[k]), Next(s, MakeRunnable(k));
    OnWithout(s.hands, k, u);
    EnqueuePlaced(s, s.hands[k], u);
    HandsPlaced(s1, s'.hands, u);
    HandsPlaced(s, [], u);
    OnNone(u);
  }

  lemma MakeRunnableKeeps(s: State, k: nat)
    requires Inv(s) && Enabled(s, MakeRunnable(k))
    ensures Inv(Next(s, MakeRunnable(k)))
  {
    hide Inv, Placed, OnCpuLists, On;
    var t := s.hands[k];
    var e := s.tcpu[t];
    var s' := Next(s, MakeRunnable(k));
    forall u: nat
      ensures Placed(s', u) == Placed(s, u)
      ensures OnCpuLists(s'.cpus[e], u) == OnCpuLists(s.cpus[e], u) + (if u == t then 1 else 0)
      ensures u == t ==> Placed(s, u) > 0
    {
      MakeRunnablePlaced(s, k, u);
    }
    Once(s, t);
    forall d: nat | d < |s.cpus| && d != e
      ensures OnCpuLists(s'.cpus[d], t) == 0
    {
      NotListed(s, d, t);
    }
    assert s.tcpu[t := e] == s.tcpu;
    assert GivenTo(s, s', t, e);
    GivenKeeps(s, s', t, e);
  }

  lemma HandsPlaced(s: State, hands: seq<nat>, u: nat)
    ensures Placed(s.(hands := hands), u) == Placed(s, u) - On(s.hands, u) + On(hands, u)
  {
  }

  lemma TakeSleeperPlaced(s: State, w: nat, u: nat)
    requires Enabled(s, TakeSleeper(w))
    ensures Placed(Next(s, TakeSleeper(w)), u) == Placed(s, u)
  {
    hide On;
    OnListsAt(s.chans, w, s.chans[w][1..], u);
    OnFirst(s.chans[w], u);
    OnAppend(s.hands, s.chans[w][0], u);
  }

  lemma TakeSleeperKeeps(s: State, w: nat)
    requires Inv(s) && Enabled(s, TakeSleeper(w))
    ensures Inv(Next(s, TakeSleeper(w)))
  {
    var s' := Next(s, TakeSleeper(w));
    forall u: nat
      ensures Placed(s', u) == Placed(s, u)
    {
      hide Placed;
      TakeSleeperPlaced(s, w, u);
    }
    SamePlacementKeeps(s, s');
  }

  lemma SamePlacementKeeps(s: State, s': State)
    requires Inv(s) && s'.cpus == s.cpus && s'.tcpu == s.tcpu && (forall u: nat :: Placed(s', u) == Placed(s, u))
    ensures Inv(s')
  {
    hide Placed, OnCpuLists;
    forall d | 0 <= d < |s'.cpus|
      ensures CpuCurrentOk(s', d)
    {
      assert CpuCurrentOk(s, d);
    }
    forall u: nat
      ensures Placed(s', u) <= 1 && (Placed(s', u) > 0 ==> u in s'.tcpu)
    {
      assert Placed(s', u) == Placed(s, u) && Placed(s, u) <= 1;
    }
  }

  // ----- migration

  lemma MigrateStartPlaced(s: State, c: nat, n: nat, u: nat)
    requires Enabled(s, MigrateStart(c, n))
    ensures var s' := Next(s, MigrateStart(c, n));
            Placed(s', u) == Placed(s, u) && OnCpuLists(s'.cpus[c], u) == OnCpuLists(s.cpus[c], u)
  {
    hide On, Placed;
    var q := s.cpus[c].runq;
    OnSplit(q, |q| - n, u);
    OnConcat(s.cpus[c].moving, q[|q| - n..], u);
    PlacedCpu(s, c, Next(s, MigrateStart(c, n)).cpus[c], u);
  }

  lemma MigrateStartKeeps(s: State, c: nat, n: nat)
    requires Inv(s) && Enabled(s, MigrateStart(c, n))
    ensures Inv(Next(s, MigrateStart(c, n)))
  {
    hide Inv, OnCpuLists, Placed;
    var s' := Next(s, MigrateStart(c, n));
    forall u: nat
      ensures Placed(s', u) == Placed(s, u) && OnCpuLists(s'.cpus[c], u) == OnCpuLists(s.cpus[c], u)
    {
      MigrateStartPlaced(s, c, n, u);
    }
    CurrentHere(s, c);
    ShrinkKeeps(s, s', c);
  }

  lemma MigrateEndPlaced(s: State, c: nat, u: nat)
    requires Enabled(s, MigrateEnd(c))
    ensures var s' := Next(s, MigrateEnd(c));
            Placed(s', u) == Placed(s, u) && OnCpuLists(s'.cpus[c], u) == OnCpuLists(s.cpus[c], u)
  {
    hide On, Placed;
    OnNone(u);
    OnConcat(s.cpus[c].runq, s.cpus[c].moving, u);
    PlacedCpu(s, c, Next(s, MigrateEnd(c)).cpus[c], u);
  }

  lemma MigrateEndKeeps(s: State, c: nat)
    requires Inv(s) && Enabled(s, MigrateEnd(c))
    ensures Inv(Next(s, MigrateEnd(c)))
  {
    var s' := Next(s, MigrateEnd(c));
    forall u: nat
      ensures Placed(s', u) == Placed(s, u) && OnCpuLists(s'.cpus[c], u) == OnCpuLists(s.cpus[c], u)
    {
      hide Placed, OnCpuLists;
      MigrateEndPlaced(s, c, u);
    }
    assert CpuCurrentOk(s, c);
    hide Inv, Placed, OnCpuLists;
    ShrinkKeeps(s, s', c);
  }

  lemma MigratePushKeeps(s: State, c: nat, d: nat)
    requires Inv(s) && Enabled(s, MigratePush(c, d))
    ensures Inv(Next(s, MigratePush(c, d)))
  {
    if s.cpus[c].moving[0] == s.cpus[c].cur {
      SkipKeeps(s, c, d);
    } else {
      PushKeeps(s, c, d);
    }
  }

  lemma SkipPlaced(s: State, c: nat, d: nat, u: nat)
    requires Enabled(s, MigratePush(c, d)) && s.cpus[c].moving[0] == s.cpus[c].cur
    ensures var s' := Next(s, MigratePush(c, d));
            Placed(s', u) == Placed(s, u) && OnCpuLists(s'.cpus[c], u) == OnCpuLists(s.cpus[c], u)
  {
    hide On, Placed;
    var m := s.cpus[c].moving;
    OnFirst(m, u);
    OnAppend(m[1..], m[0], u);
    PlacedCpu(s, c, Next(s, MigratePush(c, d)).cpus[c], u);
  }

  /** The current thread goes to the end of the victims. */
  lemma SkipKeeps(s: State, c: nat, d: nat)
    requires Inv(s) && Enabled(s, MigratePush(c, d)) && s.cpus[c].moving[0] == s.cpus[c].cur
    ensures Inv(Next(s, MigratePush(c, d)))
  {
    var s' := Next(s, MigratePush(c, d));
    forall u: nat
      ensures Placed(s', u) == Placed(s, u) && OnCpuLists(s'.cpus[c], u) == OnCpuLists(s.cpus[c], u)
    {
      hide Placed, OnCpuLists;
      SkipPlaced(s, c, d, u);
    }
    assert CpuCurrentOk(s, c);
    hide Inv, Placed, OnCpuLists;
    ShrinkKeeps(s, s', c);
  }

  lemma PushKeeps(s: State, c: nat, d: nat)
    requires Inv(s) && Enabled(s, MigratePush(c, d)) && s.cpus[c].moving[0] != s.cpus[c].cur
    ensures Inv(Next(s, MigratePush(c, d)))
  {
    hide Inv, Placed, OnCpuLists;
    var s' := Next(s, MigratePush(c, d));
    var t := s.cpus[c].moving[0];
    VictimHome(s, c, t);
    forall u: nat
      ensures Placed(s', u) == Placed(s, u)
      ensures OnCpuLists(s'.cpus[c], u) == OnCpuLists(s.cpus[c], u) - (if u == t then 1 else 0)
      ensures OnCpuLists(s'.cpus[d], u) == OnCpuLists(s.cpus[d], u) + (if u == t then 1 else 0)
      ensures OnCpuLists(s.cpus[c], u) <= Placed(s, u)
    {
      PushPlaced(s, c, d, u);
    }
    Once(s, t);
    forall e: nat | e < |s.cpus| && e != d
      ensures OnCpuLists(s'.cpus[e], t) == 0
    {
      if e != c {
        NotListed(s, e, t);
      }
    }
    assert GivenTo(s, s', t, d);
    GivenKeeps(s, s', t, d);
  }

  /** A victim belongs to the migrating CPU, so only that CPU can be executing it. */
  lemma VictimHome(s: State, c: nat, t: nat)
    requires Inv(s) && c < |s.cpus| && s.cpus[c].moving != [] && t == s.cpus[c].moving[0] && t != s.cpus[c].cur
    ensures t in s.tcpu && s.tcpu[t] == c && OnCpuLists(s.cpus[c], t) >= 1 && Placed(s, t) >= 1
    ensures forall e :: 0 <= e < |s.cpus| ==> s.cpus[e].cur != t
  {
    assert OnCpuLists(s.cpus[c], t) >= 1 by { OnFirst(s.cpus[c].moving, t); }
    PlacedCpu(s, c, s.cpus[c], t);
    hide Placed, OnCpuLists;
    forall e | 0 <= e < |s.cpus|
      ensures s.cpus[e].cur != t
    {
      assert CpuCurrentOk(s, e);
    }
  }

  lemma PushPlaced(s: State, c: nat, d: nat, u: nat)
    requires c < |s.cpus| && d < |s.cpus| && c != d && s.cpus[c].moving != []
    requires s.cpus[c].moving[0] != s.cpus[c].cur
    ensures var s' := PushVictim(s, c, d, s.cpus[c].cur);
            var one := if u == s.cpus[c].moving[0] then 1 else 0;
            && Placed(s', u) == Placed(s, u)
            && OnCpuLists(s'.cpus[c], u) == OnCpuLists(s.cpus[c], u) - one
            && OnCpuLists(s'.cpus[d], u) == OnCpuLists(s.cpus[d], u) + one
            && OnCpuLists(s.cpus[c], u) <= Placed(s, u)
  {
    hide On;
    var m := s.cpus[c].moving;
    OnFirst(m, u);
    var s1 := SetCpu(s, c, s.cpus[c].(moving := m[1..]));
    assert OnCpuLists(s1.cpus[c], u) == OnCpuLists(s.cpus[c], u) - if u == m[0] then 1 else 0;
    PlacedCpu(s, c, s1.cpus[c], u);
    var s2 := s1.(tcpu := s.tcpu[m[0] := d]);
    SameLists(s1, s2, u);
    hide Placed, OnCpuLists;
    EnqueuePlaced(s2, m[0], u);
  }

  lemma StepKeeps(s: State, step: Step)
    requires Inv(s) && Enabled(s, step)
    ensures Inv(Next(s, step))
  {
    hide *;
    match step
    case Yield(c) => YieldKeeps(s, c);
    case Sleep(c, w) => SleepKeeps(s, c, w);
    case Exit(c) => ExitKeeps(s, c);
    case PickNext(c) => PickNextKeeps(s, c);
    case Exorcise(c) => ExorciseKeeps(s, c);
    case Fork(c, t) => ForkKeeps(s, c, t);
    case TakeSleeper(w) => TakeSleeperKeeps(s, w);
    case MakeRunnable(k) => MakeRunnableKeeps(s, k);
    case MigrateStart(c, n) => MigrateStartKeeps(s, c, n);
    case MigratePush(c, d) => MigratePushKeeps(s, c, d);
    case MigrateEnd(c) => MigrateEndKeeps(s, c);
  }

  // ----- every run

  /** Boot: each CPU runs its own boot thread and all lists are empty. */
  predicate Init(s: State)
  {
    && s.hands == []
    && (forall w :: 0 <= w < |s.chans| ==> s.chans[w] == [])
    && (forall c :: 0 <= c < |s.cpus| ==>
          s.cpus[c].runq == [] && s.cpus[c].zombies == [] && s.cpus[c].moving == [] && !s.cpus[c].idle &&
          s.cpus[c].cur in s.tcpu && s.tcpu[s.cpus[c].cur] == c)
    && (forall t :: t in s.tcpu ==> s.tcpu[t] < |s.cpus| && s.cpus[s.tcpu[t]].cur == t)
  }

  lemma {:induction false} NothingOnCpus(cpus: seq<Cpu>, t: nat)
    requires forall c :: 0 <= c < |cpus| ==> cpus[c].runq == [] && cpus[c].zombies == [] && cpus[c].moving == []
    ensures OnAllCpus(cpus, t) == 0
  {
    if cpus != [] {
      NothingOnCpus(cpus[1..], t);
    }
  }

  lemma {:induction false} NothingOnChans(chans: seq<seq<nat>>, t: nat)
    requires forall w :: 0 <= w < |chans| ==> chans[w] == []
    ensures OnLists(chans, t) == 0
  {
    if chans != [] {
      NothingOnChans(chans[1..], t);
    }
  }

  lemma InitKeeps(s: State)
    requires Init(s)
    ensures Inv(s)
  {
    forall t: nat
      ensures Placed(s, t) == 0
      ensures forall c: nat :: c < |s.cpus| ==> OnCpuLists(s.cpus[c], t) == 0
    {
      NothingOnCpus(s.cpus, t);
      NothingOnChans(s.chans, t);
    }
    hide Placed, OnCpuLists;
  }

  ghost predicate IsRun(run: seq<State>, steps: seq<Step>)
  {
    && |run| == |steps| + 1 && Init(run[0])
    && (forall i :: 0 <= i < |steps| ==> Enabled(run[i], steps[i]) && run[i + 1] == Next(run[i], steps[i]))
  }

  lemma {:induction false} RunInv(run: seq<State>, steps: seq<Step>, i: nat)
    requires IsRun(run, steps) && i <= |steps|
    ensures Inv(run[i])
  {
    hide Inv, Next, Enabled, Init;
    if i == 0 {
      InitKeeps(run[0]);
    } else {
      RunInv(run, steps, i - 1);
      StepKeeps(run[i - 1], steps[i - 1]);
    }
  }

  /** In every run, no thread is current on two CPUs, a busy CPU's current
      thread is on no list, and every thread is on at most one. */
  lemma PlacementSafe(run: seq<State>, steps: seq<Step>, i: nat, c: nat, d: nat, t: nat)
    requires IsRun(run, steps) && i <= |steps| && c < |run[i].cpus| && d < |run[i].cpus|
    ensures Placed(run[i], t) <= 1
    ensures run[i].cpus[c].cur == run[i].cpus[d].cur ==> c == d
    ensures !run[i].cpus[c].idle ==> Placed(run[i], run[i].cpus[c].cur) == 0
  {
    RunInv(run, steps, i);
    assert CpuCurrentOk(run[i], c) && CpuCurrentOk(run[i], d);
  }

  // ----- no thread is lost

  /** t is current on its CPU, and that CPU is not idle. */
  predicate Busy(s: State, t: nat)
  {
    OnCpu(s, t) && !s.cpus[s.tcpu[t]].idle && s.cpus[s.tcpu[t]].cur == t
  }

  /** In how many places t is: on lists, or executing. */
  function Places(s: State, t: nat): nat
  {
    Placed(s, t) + if Busy(s, t) then 1 else 0
  }

  /** How a step changes the number of t's places: a new thread gets one, a destroyed
      thread loses its one, and no other step changes anything. */
  function Change(s: State, step: Step, t: nat): int
    requires Enabled(s, step)
  {
    match step
    case Fork(_, u) => if t == u then 1 else 0
    case Exorcise(c) => 0 - On(s.cpus[c].zombies, t)
    case _ => 0
  }

  lemma StepPlaces(s: State, step: Step, u: nat)
    requires Inv(s) && Enabled(s, step)
    ensures Places(Next(s, step), u) == Places(s, u) + Change(s, step, u)
  {
    hide *;
    if step.Yield? || step.Sleep? || step.Exit? {
      LeavePlaces(s, step, u);
    } else if step.PickNext? || step.Fork? || step.MigratePush? {
      MovePlaces(s, step, u);
    } else {
      StayPlaces(s, step, u);
    }
  }

  lemma LeavePlaces(s: State, step: Step, u: nat)
    requires Inv(s) && Enabled(s, step) && (step.Yield? || step.Sleep? || step.Exit?)
    ensures Places(Next(s, step), u) == Places(s, u) && Change(s, step, u) == 0
  {
    hide Inv, Places, Next, Enabled;
    match step
    case Yield(c) => YieldPlaces(s, c, u);
    case Sleep(c, w) => SleepPlaces(s, c, w, u);
    case Exit(c) => ExitPlaces(s, c, u);
  }

  lemma YieldPlaces(s: State, c: nat, u: nat)
    requires Inv(s) && Enabled(s, Yield(c))
    ensures Places(Next(s, Yield(c)), u) == Places(s, u)
  {
    CurrentHere(s, c);
    hide Inv, Placed, OnCpuLists, Busy;
    YieldPlaced(s, c, u);
    AwayBusy(s, Next(s, Yield(c)), c, u);
  }

  lemma SleepPlaces(s: State, c: nat, w: nat, u: nat)
    requires Inv(s) && Enabled(s, Sleep(c, w))
    ensures Places(Next(s, Sleep(c, w)), u) == Places(s, u)
  {
    hide Inv, Placed, OnCpuLists, Busy;
    SleepPlaced(s, c, w, u);
    AwayBusy(s, Next(s, Sleep(c, w)), c, u);
  }

  lemma ExitPlaces(s: State, c: nat, u: nat)
    requires Inv(s) && Enabled(s, Exit(c))
    ensures Places(Next(s, Exit(c)), u) == Places(s, u)
  {
    hide Inv, Placed, OnCpuLists, Busy;
    ExitPlaced(s, c, u);
    AwayBusy(s, Next(s, Exit(c)), c, u);
  }

  lemma MovePlaces(s: State, step: Step, u: nat)
    requires Inv(s) && Enabled(s, step) && (step.PickNext? || step.Fork? || step.MigratePush?)
    ensures Places(Next(s, step), u) == Places(s, u) + Change(s, step, u)
  {
    hide Inv, Placed, OnCpuLists;
    match step
    case PickNext(c) =>
      PickNextPlaced(s, c, u);
      PickBusy(s, c, u);
    case Fork(c, t) =>
      ForkPlaced(s, c, t, u);
      NewThread(s, t);
    case MigratePush(c, d) => PushPlaces(s, c, d, u);
  }

  /** Steps that leave every CPU's current thread and every thread's CPU alone. */
  lemma StayPlaces(s: State, step: Step, u: nat)
    requires Inv(s) && Enabled(s, step)
    requires step.Exorcise? || step.TakeSleeper? || step.MakeRunnable? || step.MigrateStart? || step.MigrateEnd?
    ensures Places(Next(s, step), u) == Places(s, u) + Change(s, step, u)
  {
    hide Inv, Placed, OnCpuLists, On;
    match step
    case Exorcise(c) => ExorcisePlaced(s, c, u);
    case TakeSleeper(w) => TakeSleeperPlaced(s, w, u);
    case MakeRunnable(k) => MakeRunnablePlaced(s, k, u);
    case MigrateStart(c, n) => MigrateStartPlaced(s, c, n, u);
    case MigrateEnd(c) => MigrateEndPlaced(s, c, u);
  }

  /** A busy CPU that goes idle stops executing its current thread, and only that. */
  lemma AwayBusy(s: State, s': State, c: nat, u: nat)
    requires Inv(s) && Running(s, c) && s'.tcpu == s.tcpu && SameElsewhere(s, s', c)
    requires s'.cpus[c].idle && s'.cpus[c].cur == s.cpus[c].cur
    ensures Busy(s', u) <==> Busy(s, u) && u != s.cpus[c].cur
    ensures Busy(s, s.cpus[c].cur)
  {
    hide Placed, OnCpuLists;
    CurrentHere(s, c);
  }

  lemma PickBusy(s: State, c: nat, u: nat)
    requires Inv(s) && Enabled(s, PickNext(c))
    ensures Busy(Next(s, PickNext(c)), u) <==> Busy(s, u) || u == s.cpus[c].runq[0]
    ensures !Busy(s, s.cpus[c].runq[0])
  {
    hide Placed, OnCpuLists;
    var t := s.cpus[c].runq[0];
    PickNextPlaced(s, c, t);
    NotBusy(s, t);
  }

  lemma NotBusy(s: State, t: nat)
    requires Inv(s) && Placed(s, t) > 0
    ensures !Busy(s, t)
  {
    hide Placed, OnCpuLists;
    if Busy(s, t) {
      CurrentHere(s, s.tcpu[t]);
      assert false;
    }
  }

  lemma PushPlaces(s: State, c: nat, d: nat, u: nat)
    requires Inv(s) && Enabled(s, MigratePush(c, d))
    ensures Places(Next(s, MigratePush(c, d)), u) == Places(s, u)
  {
    hide Placed, OnCpuLists;
    var t := s.cpus[c].moving[0];
    if t == s.cpus[c].cur {
      SkipPlaced(s, c, d, u);
    } else {
      PushPlaced(s, c, d, u);
      VictimHome(s, c, t);
    }
  }

  /** The threads that exorcise has destroyed in the first i steps. */
  ghost function Destroyed(run: seq<State>, steps: seq<Step>, i: nat): set<nat>
    requires IsRun(run, steps) && i <= |steps|
  {
    if i == 0 then {}
    else if !steps[i - 1].Exorcise? then Destroyed(run, steps, i - 1)
    else Destroyed(run, steps, i - 1) + Members(run[i - 1].cpus[steps[i - 1].c].zombies)
  }

  lemma StepKnows(s: State, step: Step)
    requires Inv(s) && Enabled(s, step)
    ensures Next(s, step).tcpu.Keys == s.tcpu.Keys + if step.Fork? then {step.t} else {}
  {
    hide Placed, OnCpuLists, On;
    if step.MigratePush? && s.cpus[step.c].moving[0] != s.cpus[step.c].cur {
      VictimHome(s, step.c, s.cpus[step.c].moving[0]);
    }
  }

  lemma ZombieKnown(s: State, c: nat, t: nat)
    requires Inv(s) && c < |s.cpus|
    ensures On(s.cpus[c].zombies, t) == if t in s.cpus[c].zombies then 1 else 0
    ensures t in s.cpus[c].zombies ==> t in s.tcpu && Placed(s, t) == 1
  {
    Once(s, t);
    PlacedCpu(s, c, s.cpus[c], t);
    hide Placed;
  }

  /** Threads that were destroyed stay known: their numbers are not used again. */
  lemma {:induction false} DestroyedKnown(run: seq<State>, steps: seq<Step>, i: nat)
    requires IsRun(run, steps) && i <= |steps|
    ensures Destroyed(run, steps, i) <= run[i].tcpu.Keys
  {
    hide Inv, Next, Enabled, Init, Placed;
    if i > 0 {
      var s, step := run[i - 1], steps[i - 1];
      DestroyedKnown(run, steps, i - 1);
      RunInv(run, steps, i - 1);
      StepKnows(s, step);
      if step.Exorcise? {
        ExorciseCpu(s, step.c);
        forall t | t in s.cpus[step.c].zombies
          ensures t in s.tcpu
        {
          ZombieKnown(s, step.c, t);
        }
      }
    }
  }

  lemma ExorciseCpu(s: State, c: nat)
    requires Enabled(s, Exorcise(c))
    ensures c < |s.cpus|
  {
  }

  /** In every state of every run a thread that exists and was not destroyed is in exactly
      one place, any other in none. */
  lemma {:induction false} RunPlaces(run: seq<State>, steps: seq<Step>, i: nat, t: nat)
    requires IsRun(run, steps) && i <= |steps|
    ensures Places(run[i], t) == if t in run[i].tcpu && t !in Destroyed(run, steps, i) then 1 else 0
  {
    hide Inv, Next, Enabled, Init, Places;
    if i == 0 {
      InitPlaces(run[0], t);
    } else {
      var s, step := run[i - 1], steps[i - 1];
      RunPlaces(run, steps, i - 1, t);
      RunInv(run, steps, i - 1);
      DestroyedKnown(run, steps, i - 1);
      StepPlaces(s, step, t);
      StepKnows(s, step);
      StepDestroys(s, step, t);
    }
  }

  lemma InitPlaces(s: State, t: nat)
    requires Init(s)
    ensures Places(s, t) == if t in s.tcpu then 1 else 0
  {
    NothingOnCpus(s.cpus, t);
    NothingOnChans(s.chans, t);
  }

  lemma StepDestroys(s: State, step: Step, t: nat)
    requires Inv(s) && Enabled(s, step)
    ensures step.Fork? ==> step.t !in s.tcpu && Change(s, step, t) == if t == step.t then 1 else 0
    ensures step.Exorcise? ==>
      && step.c < |s.cpus| && Change(s, step, t) == (if t in s.cpus[step.c].zombies then -1 else 0)
      && (t in s.cpus[step.c].zombies ==> t in s.tcpu && Places(s, t) >= 1)
    ensures !step.Fork? && !step.Exorcise? ==> Change(s, step, t) == 0
  {
    hide Inv, Placed, On;
    if step.Exorcise? {
      ZombieKnown(s, step.c, t);
    }
  }

  /** No thread is lost: in every state of every run a thread that exists and was not
      destroyed is on exactly one list and executing nowhere, or on none and executing. */
  lemma NoThreadLost(run: seq<State>, steps: seq<Step>, i: nat, t: nat)
    requires IsRun(run, steps) && i <= |steps| && t in run[i].tcpu && t !in Destroyed(run, steps, i)
    ensures var s := run[i];
            || (Placed(s, t) == 1 && forall c :: 0 <= c < |s.cpus| && s.cpus[c].cur == t ==> s.cpus[c].idle)
            || (Placed(s, t) == 0 && exists c :: 0 <= c < |s.cpus| && s.cpus[c].cur == t && !s.cpus[c].idle)
  {
    hide Placed, OnCpuLists, Next, Enabled, Init;
    var s := run[i];
    RunPlaces(run, steps, i, t);
    RunInv(run, steps, i);
    forall c | 0 <= c < |s.cpus| && s.cpus[c].cur == t && !s.cpus[c].idle
      ensures Busy(s, t)
    {
      CurrentHere(s, c);
    }
    if Busy(s, t) {
      assert s.cpus[s.tcpu[t]].cur == t;
    }
  }

  // ----- the life of a thread

  function Runqs(cpus: seq<Cpu>): (r: seq<seq<nat>>)
    ensures |r| == |cpus| && forall c :: 0 <= c < |cpus| ==> r[c] == cpus[c].runq
  {
    seq(|cpus|, c requires 0 <= c < |cpus| => cpus[c].runq)
  }

  function Movings(cpus: seq<Cpu>): (r: seq<seq<nat>>)
    ensures |r| == |cpus| && forall c :: 0 <= c < |cpus| ==> r[c] == cpus[c].moving
  {
    seq(|cpus|, c requires 0 <= c < |cpus| => cpus[c].moving)
  }

  function Zombies(cpus: seq<Cpu>): (r: seq<seq<nat>>)
    ensures |r| == |cpus| && forall c :: 0 <= c < |cpus| ==> r[c] == cpus[c].zombies
  {
    seq(|cpus|, c requires 0 <= c < |cpus| => cpus[c].zombies)
  }

  /** How often a thread is on lists of each kind. */
  datatype Lists = Lists(ready: nat, waiting: nat, woken: nat, zombie: nat)

  function ListsOf(s: State, t: nat): Lists
  {
    Lists(OnLists(Runqs(s.cpus), t) + OnLists(Movings(s.cpus), t), OnLists(s.chans, t), On(s.hands, t),
          OnLists(Zombies(s.cpus), t))
  }

  lemma {:induction false} AllCpusSplit(cpus: seq<Cpu>, t: nat)
    ensures OnAllCpus(cpus, t) == OnLists(Runqs(cpus), t) + OnLists(Movings(cpus), t) + OnLists(Zombies(cpus), t)
  {
    hide On;
    if cpus != [] {
      AllCpusSplit(cpus[1..], t);
      assert Runqs(cpus)[1..] == Runqs(cpus[1..]);
      assert Movings(cpus)[1..] == Movings(cpus[1..]);
      assert Zombies(cpus)[1..] == Zombies(cpus[1..]);
    }
  }

  lemma PlacedSplit(s: State, t: nat)
    ensures var l := ListsOf(s, t); Placed(s, t) == l.ready + l.waiting + l.woken + l.zombie
  {
    AllCpusSplit(s.cpus, t);
  }

  lemma SetCpuLists(s: State, c: nat, cpu: Cpu, t: nat)
    requires c < |s.cpus|
    ensures var l, l', was := ListsOf(s, t), ListsOf(SetCpu(s, c, cpu), t), s.cpus[c];
            && l'.ready == l.ready - On(was.runq, t) - On(was.moving, t) + On(cpu.runq, t) + On(cpu.moving, t)
            && l'.zombie == l.zombie - On(was.zombies, t) + On(cpu.zombies, t)
            && l'.waiting == l.waiting && l'.woken == l.woken
            && On(was.runq, t) + On(was.moving, t) <= l.ready && On(was.zombies, t) <= l.zombie
  {
    hide On, OnLists;
    var cpus := s.cpus[c := cpu];
    assert Runqs(cpus) == Runqs(s.cpus)[c := cpu.runq];
    assert Movings(cpus) == Movings(s.cpus)[c := cpu.moving];
    assert Zombies(cpus) == Zombies(s.cpus)[c := cpu.zombies];
    OnListsAt(Runqs(s.cpus), c, cpu.runq, t);
    OnListsAt(Movings(s.cpus), c, cpu.moving, t);
    OnListsAt(Zombies(s.cpus), c, cpu.zombies, t);
  }

  lemma EnqueueLists(s: State, t: nat, u: nat)
    requires OnCpu(s, t)
    ensures var l := ListsOf(s, u);
            ListsOf(Enqueue(s, t), u) == l.(ready := l.ready + if u == t then 1 else 0)
  {
    hide On, ListsOf;
    var c := s.tcpu[t];
    OnAppend(s.cpus[c].runq, t, u);
    SetCpuLists(s, c, s.cpus[c].(runq := s.cpus[c].runq + [t]), u);
  }

  lemma IdleLists(s: State, c: nat, u: nat)
    requires c < |s.cpus|
    ensures ListsOf(Idle(s, c), u) == ListsOf(s, u)
  {
    hide On, ListsOf;
    SetCpuLists(s, c, s.cpus[c].(idle := true), u);
  }

  /** Where a thread is in its life. */
  datatype Where = Absent | Ready | Executing | Waiting | Woken | Zombie

  function Locate(busy: bool, l: Lists): Where
  {
    if busy then Executing
    else if l.ready > 0 then Ready
    else if l.waiting > 0 then Waiting
    else if l.woken > 0 then Woken
    else if l.zombie > 0 then Zombie
    else Absent
  }

  function WhereIs(s: State, t: nat): Where
  {
    Locate(Busy(s, t), ListsOf(s, t))
  }

  /** An executing thread is on no list, any other on one at most. */
  lemma BusyUnlisted(s: State, t: nat)
    requires Inv(s)
    ensures Busy(s, t) ==> ListsOf(s, t) == Lists(0, 0, 0, 0)
    ensures var l := ListsOf(s, t); l.ready + l.waiting + l.woken + l.zombie <= 1
  {
    hide ListsOf, Placed, OnCpuLists;
    PlacedSplit(s, t);
    Once(s, t);
    if Busy(s, t) {
      CurrentHere(s, s.tcpu[t]);
    }
  }

  /** Steps that change neither a CPU's current thread nor whether it is idle. */
  lemma SameBusy(s: State, s': State, u: nat)
    requires |s'.cpus| == |s.cpus| && s'.tcpu == s.tcpu
    requires forall c :: 0 <= c < |s.cpus| ==> s'.cpus[c].cur == s.cpus[c].cur && s'.cpus[c].idle == s.cpus[c].idle
    ensures Busy(s', u) == Busy(s, u)
  {
  }

  lemma YieldLists(s: State, c: nat, u: nat)
    requires Enabled(s, Yield(c))
    ensures var l := ListsOf(s, u);
            ListsOf(Next(s, Yield(c)), u) == l.(ready := l.ready + if u == s.cpus[c].cur then 1 else 0)
  {
    hide ListsOf;
    EnqueueLists(s, s.cpus[c].cur, u);
    IdleLists(Enqueue(s, s.cpus[c].cur), c, u);
  }

  lemma YieldBusy(s: State, c: nat, u: nat)
    requires Inv(s) && Enabled(s, Yield(c))
    ensures Busy(s, s.cpus[c].cur) && (Busy(Next(s, Yield(c)), u) <==> Busy(s, u) && u != s.cpus[c].cur)
  {
    CurrentHere(s, c);
    hide Inv, Busy, Placed, OnCpuLists;
    AwayBusy(s, Next(s, Yield(c)), c, u);
  }

  lemma YieldLife(s: State, c: nat, u: nat)
    requires Inv(s) && Enabled(s, Yield(c))
    ensures WhereIs(s, s.cpus[c].cur) == Executing
    ensures WhereIs(Next(s, Yield(c)), u) == if u == s.cpus[c].cur then Ready else WhereIs(s, u)
  {
    hide Inv, ListsOf, Busy, Next;
    YieldLists(s, c, u);
    YieldBusy(s, c, u);
  }

  lemma SleepLists(s: State, c: nat, w: nat, u: nat)
    requires Enabled(s, Sleep(c, w))
    ensures var l := ListsOf(s, u);
            ListsOf(Next(s, Sleep(c, w)), u) == l.(waiting := l.waiting + if u == s.cpus[c].cur then 1 else 0)
  {
    var t := s.cpus[c].cur;
    var s1 := s.(chans := s.chans[w := s.chans[w] + [t]]);
    hide On, OnLists;
    OnListsAt(s.chans, w, s.chans[w] + [t], u);
    OnAppend(s.chans[w], t, u);
    assert ListsOf(s1, u) == ListsOf(s, u).(waiting := ListsOf(s, u).waiting + if u == t then 1 else 0);
    hide ListsOf;
    IdleLists(s1, c, u);
  }

  lemma SleepLife(s: State, c: nat, w: nat, u: nat)
    requires Inv(s) && Enabled(s, Sleep(c, w))
    ensures WhereIs(s, s.cpus[c].cur) == Executing
    ensures WhereIs(Next(s, Sleep(c, w)), u) == if u == s.cpus[c].cur then Waiting else WhereIs(s, u)
  {
    hide Inv, ListsOf, Busy;
    SleepLists(s, c, w, u);
    AwayBusy(s, Next(s, Sleep(c, w)), c, u);
    hide Next;
    BusyUnlisted(s, s.cpus[c].cur);
  }

  lemma ExitLists(s: State, c: nat, u: nat)
    requires Enabled(s, Exit(c))
    ensures var l := ListsOf(s, u);
            ListsOf(Next(s, Exit(c)), u) == l.(zombie := l.zombie + if u == s.cpus[c].cur then 1 else 0)
  {
    hide On, ListsOf;
    OnAppend(s.cpus[c].zombies, s.cpus[c].cur, u);
    SetCpuLists(s, c, Next(s, Exit(c)).cpus[c], u);
  }

  lemma ExitLife(s: State, c: nat, u: nat)
    requires Inv(s) && Enabled(s, Exit(c))
    ensures WhereIs(s, s.cpus[c].cur) == Executing
    ensures WhereIs(Next(s, Exit(c)), u) == if u == s.cpus[c].cur then Zombie else WhereIs(s, u)
  {
    hide Inv, ListsOf, Busy;
    ExitLists(s, c, u);
    AwayBusy(s, Next(s, Exit(c)), c, u);
    hide Next;
    BusyUnlisted(s, s.cpus[c].cur);
  }

  lemma PickNextLists(s: State, c: nat, u: nat)
    requires Enabled(s, PickNext(c))
    ensures var l, l', one := ListsOf(s, u), ListsOf(Next(s, PickNext(c)), u), if u == s.cpus[c].runq[0] then 1 else 0;
            l.ready >= one && l' == l.(ready := l.ready - one)
  {
    hide On, ListsOf;
    OnFirst(s.cpus[c].runq, u);
    SetCpuLists(s, c, Next(s, PickNext(c)).cpus[c], u);
  }

  lemma PickNextLife(s: State, c: nat, u: nat)
    requires Inv(s) && Enabled(s, PickNext(c))
    ensures WhereIs(s, s.cpus[c].runq[0]) == Ready
    ensures WhereIs(Next(s, PickNext(c)), u) == if u == s.cpus[c].runq[0] then Executing else WhereIs(s, u)
  {
    hide Inv, ListsOf, Busy, Next;
    PickNextLists(s, c, u);
    PickNextLists(s, c, s.cpus[c].runq[0]);
    PickBusy(s, c, u);
  }

  lemma ExorciseLists(s: State, c: nat, u: nat)
    requires Enabled(s, Exorcise(c))
    ensures var l, l', n := ListsOf(s, u), ListsOf(Next(s, Exorcise(c)), u), On(s.cpus[c].zombies, u);
            l.zombie >= n && l' == l.(zombie := l.zombie - n)
    ensures Busy(Next(s, Exorcise(c)), u) == Busy(s, u)
  {
    hide On, ListsOf;
    OnNone(u);
    SetCpuLists(s, c, Next(s, Exorcise(c)).cpus[c], u);
    hide Busy;
    SameBusy(s, Next(s, Exorcise(c)), u);
  }

  lemma ExorciseLife(s: State, c: nat, u: nat)
    requires Inv(s) && Enabled(s, Exorcise(c))
    ensures u in s.cpus[c].zombies ==> WhereIs(s, u) == Zombie
    ensures WhereIs(Next(s, Exorcise(c)), u) == if u in s.cpus[c].zombies then Absent else WhereIs(s, u)
  {
    ZombieKnown(s, c, u);
    hide On, Inv, ListsOf, OnCpuLists, Placed, Busy, Next;
    ExorciseLists(s, c, u);
    BusyUnlisted(s, u);
  }

  lemma ForkLists(s: State, c: nat, t: nat, u: nat)
    requires Inv(s) && Enabled(s, Fork(c, t))
    ensures var l := ListsOf(s, u);
            ListsOf(Next(s, Fork(c, t)), u) == l.(ready := l.ready + if u == t then 1 else 0)
  {
    var s1 := s.(tcpu := s.tcpu[t := s.tcpu[s.cpus[c].cur]]);
    hide ListsOf, Inv;
    SameListsOf(s, s1, u);
    EnqueueLists(s1, t, u);
  }

  lemma ForkBusy(s: State, c: nat, t: nat, u: nat)
    requires Inv(s) && Enabled(s, Fork(c, t))
    ensures Busy(Next(s, Fork(c, t)), u) == Busy(s, u) && !Busy(s, t)
  {
    NewThread(s, t);
    hide Inv, Placed;
  }

  lemma ForkLife(s: State, c: nat, t: nat, u: nat)
    requires Inv(s) && Enabled(s, Fork(c, t))
    ensures WhereIs(s, t) == Absent
    ensures WhereIs(Next(s, Fork(c, t)), u) == if u == t then Ready else WhereIs(s, u)
  {
    hide Inv, ListsOf, Placed, OnCpuLists, Busy;
    NewThread(s, t);
    hide Next, Enabled;
    PlacedSplit(s, t);
    ForkLists(s, c, t, u);
    ForkBusy(s, c, t, u);
  }

  lemma TakeSleeperLists(s: State, w: nat, u: nat)
    requires Enabled(s, TakeSleeper(w))
    ensures var l, l', one := ListsOf(s, u), ListsOf(Next(s, TakeSleeper(w)), u), if u == s.chans[w][0] then 1 else 0;
            l.waiting >= one && l' == l.(waiting := l.waiting - one, woken := l.woken + one)
  {
    hide On, OnLists;
    OnListsAt(s.chans, w, s.chans[w][1..], u);
    OnFirst(s.chans[w], u);
    OnAppend(s.hands, s.chans[w][0], u);
  }

  lemma TakeSleeperLife(s: State, w: nat, u: nat)
    requires Inv(s) && Enabled(s, TakeSleeper(w))
    ensures WhereIs(s, s.chans[w][0]) == Waiting
    ensures WhereIs(Next(s, TakeSleeper(w)), u) == if u == s.chans[w][0] then Woken else WhereIs(s, u)
  {
    hide Inv, ListsOf, Busy;
    SameBusy(s, Next(s, TakeSleeper(w)), u);
    hide Next;
    TakeSleeperLists(s, w, u);
    TakeSleeperLists(s, w, s.chans[w][0]);
    BusyUnlisted(s, u);
    BusyUnlisted(s, s.chans[w][0]);
  }

  lemma MakeRunnableLists(s: State, k: nat, u: nat)
    requires Enabled(s, MakeRunnable(k))
    ensures var l, l', one := ListsOf(s, u), ListsOf(Next(s, MakeRunnable(k)), u), if u == s.hands[k] then 1 else 0;
            l.woken >= one && l' == l.(ready := l.ready + one, woken := l.woken - one)
  {
    var s', s1 := Next(s, MakeRunnable(k)), Enqueue(s, s.hands[k]);
    hide On, OnLists;
    OnWithout(s.hands, k, u);
    assert ListsOf(s', u) == ListsOf(s1, u).(woken := On(s'.hands, u)) && ListsOf(s, u).woken == On(s.hands, u);
    hide ListsOf;
    EnqueueLists(s, s.hands[k], u);
  }

  lemma MakeRunnableLife(s: State, k: nat, u: nat)
    requires Inv(s) && Enabled(s, MakeRunnable(k))
    ensures WhereIs(s, s.hands[k]) == Woken
    ensures WhereIs(Next(s, MakeRunnable(k)), u) == if u == s.hands[k] then Ready else WhereIs(s, u)
  {
    hide Inv, ListsOf, Busy;
    SameBusy(s, Next(s, MakeRunnable(k)), u);
    hide Next;
    MakeRunnableLists(s, k, u);
    MakeRunnableLists(s, k, s.hands[k]);
    BusyUnlisted(s, u);
    BusyUnlisted(s, s.hands[k]);
  }

  lemma MigrateStartLife(s: State, c: nat, n: nat, u: nat)
    requires Enabled(s, MigrateStart(c, n))
    ensures WhereIs(Next(s, MigrateStart(c, n)), u) == WhereIs(s, u)
  {
    hide ListsOf, Busy, Locate;
    SameBusy(s, Next(s, MigrateStart(c, n)), u);
    MigrateStartLists(s, c, n, u);
  }

  lemma MigrateStartLists(s: State, c: nat, n: nat, u: nat)
    requires Enabled(s, MigrateStart(c, n))
    ensures ListsOf(Next(s, MigrateStart(c, n)), u) == ListsOf(s, u)
  {
    var q := s.cpus[c].runq;
    hide On, ListsOf;
    OnSplit(q, |q| - n, u);
    OnConcat(s.cpus[c].moving, q[|q| - n..], u);
    SetCpuLists(s, c, Next(s, MigrateStart(c, n)).cpus[c], u);
  }

  lemma MigrateEndLife(s: State, c: nat, u: nat)
    requires Enabled(s, MigrateEnd(c))
    ensures WhereIs(Next(s, MigrateEnd(c)), u) == WhereIs(s, u)
  {
    var s' := Next(s, MigrateEnd(c));
    hide On, ListsOf, Busy, Locate;
    OnNone(u);
    OnConcat(s.cpus[c].runq, s.cpus[c].moving, u);
    SetCpuLists(s, c, s'.cpus[c], u);
    SameBusy(s, s', u);
  }

  lemma MigratePushLife(s: State, c: nat, d: nat, u: nat)
    requires Inv(s) && Enabled(s, MigratePush(c, d))
    ensures WhereIs(Next(s, MigratePush(c, d)), u) == WhereIs(s, u)
  {
    hide Inv, WhereIs, Next;
    if s.cpus[c].moving[0] == s.cpus[c].cur {
      SkipLife(s, c, d, u);
    } else {
      PushLife(s, c, d, u);
    }
  }

  lemma SkipLife(s: State, c: nat, d: nat, u: nat)
    requires Enabled(s, MigratePush(c, d)) && s.cpus[c].moving[0] == s.cpus[c].cur
    ensures WhereIs(Next(s, MigratePush(c, d)), u) == WhereIs(s, u)
  {
    var m, s' := s.cpus[c].moving, Next(s, MigratePush(c, d));
    hide On, ListsOf, Busy, Locate;
    OnFirst(m, u);
    OnAppend(m[1..], m[0], u);
    SetCpuLists(s, c, s'.cpus[c], u);
    SameBusy(s, s', u);
  }

  lemma PushLists(s: State, c: nat, d: nat, u: nat)
    requires Enabled(s, MigratePush(c, d)) && s.cpus[c].moving[0] != s.cpus[c].cur
    ensures ListsOf(Next(s, MigratePush(c, d)), u) == ListsOf(s, u)
  {
    var m := s.cpus[c].moving;
    hide On, ListsOf;
    OnFirst(m, u);
    var s1 := SetCpu(s, c, s.cpus[c].(moving := m[1..]));
    SetCpuLists(s, c, s1.cpus[c], u);
    var s2 := s1.(tcpu := s.tcpu[m[0] := d]);
    SameListsOf(s1, s2, u);
    EnqueueLists(s2, m[0], u);
  }

  lemma PushBusy(s: State, c: nat, d: nat, u: nat)
    requires Inv(s) && Enabled(s, MigratePush(c, d)) && s.cpus[c].moving[0] != s.cpus[c].cur
    ensures Busy(Next(s, MigratePush(c, d)), u) == Busy(s, u)
  {
    hide Inv, Placed, OnCpuLists;
    VictimHome(s, c, s.cpus[c].moving[0]);
  }

  lemma PushLife(s: State, c: nat, d: nat, u: nat)
    requires Inv(s) && Enabled(s, MigratePush(c, d)) && s.cpus[c].moving[0] != s.cpus[c].cur
    ensures WhereIs(Next(s, MigratePush(c, d)), u) == WhereIs(s, u)
  {
    hide Inv, ListsOf, Busy, Locate, Next;
    PushLists(s, c, d, u);
    PushBusy(s, c, d, u);
  }

  lemma SameListsOf(s: State, s': State, u: nat)
    requires s'.cpus == s.cpus && s'.chans == s.chans && s'.hands == s.hands
    ensures ListsOf(s', u) == ListsOf(s, u)
  {
  }

  /** The life of a thread: a step moves exactly the threads it is about, and only along
      its life. A forked thread is ready; a ready one is picked; an executing one yields,
      sleeps or exits; a sleeper is taken off its channel and made runnable; a zombie is
      destroyed. Migration changes nothing. */
  lemma StepLife(s: State, step: Step, u: nat)
    requires Inv(s) && Enabled(s, step)
    ensures step.Fork? ==>
      WhereIs(s, step.t) == Absent && WhereIs(Next(s, step), u) == if u == step.t then Ready else WhereIs(s, u)
    ensures step.PickNext? ==>
      var t := s.cpus[step.c].runq[0];
      WhereIs(s, t) == Ready && WhereIs(Next(s, step), u) == if u == t then Executing else WhereIs(s, u)
    ensures step.Yield? || step.Sleep? || step.Exit? ==>
      var t := s.cpus[step.c].cur;
      && WhereIs(s, t) == Executing
      && WhereIs(Next(s, step), u) ==
         if u != t then WhereIs(s, u) else if step.Yield? then Ready else if step.Sleep? then Waiting else Zombie
    ensures step.TakeSleeper? ==>
      var t := s.chans[step.w][0];
      WhereIs(s, t) == Waiting && WhereIs(Next(s, step), u) == if u == t then Woken else WhereIs(s, u)
    ensures step.MakeRunnable? ==>
      var t := s.hands[step.k];
      WhereIs(s, t) == Woken && WhereIs(Next(s, step), u) == if u == t then Ready else WhereIs(s, u)
    ensures step.Exorcise? ==>
      && (u in s.cpus[step.c].zombies ==> WhereIs(s, u) == Zombie)
      && WhereIs(Next(s, step), u) == if u in s.cpus[step.c].zombies then Absent else WhereIs(s, u)
    ensures step.MigrateStart? || step.MigratePush? || step.MigrateEnd? ==> WhereIs(Next(s, step), u) == WhereIs(s, u)
  {
    hide Inv, Next, WhereIs;
    match step
    case Yield(c) => YieldLife(s, c, u);
    case Sleep(c, w) => SleepLife(s, c, w, u);
    case Exit(c) => ExitLife(s, c, u);
    case PickNext(c) => PickNextLife(s, c, u);
    case Exorcise(c) => ExorciseLife(s, c, u);
    case Fork(c, t) => ForkLife(s, c, t, u);
    case TakeSleeper(w) => TakeSleeperLife(s, w, u);
    case MakeRunnable(k) => MakeRunnableLife(s, k, u);
    case MigrateStart(c, n) => MigrateStartLife(s, c, n, u);
    case MigratePush(c, d) => MigratePushLife(s, c, d, u);
    case MigrateEnd(c) => MigrateEndLife(s, c, u);
  }

  /** A channel gains exactly the thread that goes to sleep on it and loses exactly the one
      taken off it. */
  lemma StepChannel(s: State, step: Step, w: nat, u: nat)
    requires Enabled(s, step) && w < |s.chans|
    ensures |Next(s, step).chans| == |s.chans|
    ensures On(Next(s, step).chans[w], u) == On(s.chans[w], u)
      + (if step.Sleep? && step.w == w && u == s.cpus[step.c].cur then 1 else 0)
      - (if step.TakeSleeper? && step.w == w && u == s.chans[w][0] then 1 else 0)
  {
    hide On;
    if step.Sleep? {
      OnAppend(s.chans[step.w], s.cpus[step.c].cur, u);
    } else if step.TakeSleeper? {
      OnFirst(s.chans[step.w], u);
    }
  }

  /** A thread stays on its CPU until it is migrated; a new one begins on its parent's. */
  lemma StepHome(s: State, step: Step, u: nat)
    requires Inv(s) && Enabled(s, step) && (u in s.tcpu || (step.Fork? && u == step.t))
    ensures u in Next(s, step).tcpu
    ensures u in s.tcpu ==>
      Next(s, step).tcpu[u] ==
      if step.MigratePush? && u == s.cpus[step.c].moving[0] != s.cpus[step.c].cur then step.d else s.tcpu[u]
    ensures u !in s.tcpu ==> Next(s, step).tcpu[u] == step.c
  {
    hide Placed, OnCpuLists;
    if step.Fork? {
      CurrentHere(s, step.c);
    }
  }

  // ----- first come, first served

  ghost predicate Ahead(list: seq<nat>, t: nat, u: nat)
  {
    exists i, j :: 0 <= i < j < |list| && list[i] == t && list[j] == u
  }

  lemma AheadGrows(list: seq<nat>, more: seq<nat>, t: nat, u: nat)
    requires Ahead(list, t, u)
    ensures Ahead(list + more, t, u)
  {
    var i, j :| 0 <= i < j < |list| && list[i] == t && list[j] == u;
    assert (list + more)[i] == t && (list + more)[j] == u;
  }

  lemma AheadWithoutFirst(list: seq<nat>, t: nat, u: nat)
    requires Ahead(list, t, u)
    ensures list != [] && (t == list[0] || Ahead(list[1..], t, u))
  {
    var i, j :| 0 <= i < j < |list| && list[i] == t && list[j] == u;
    if i > 0 {
      assert list[1..][i - 1] == t && list[1..][j - 1] == u;
    }
  }

  /** How a step that is not the start of this CPU's migration changes a run queue: it
      drops its first thread, or grows at the end. */
  lemma QueueStep(s: State, step: Step, c: nat) returns (more: seq<nat>)
    requires Enabled(s, step) && c < |s.cpus| && !(step.MigrateStart? && step.c == c)
    ensures |Next(s, step).cpus| == |s.cpus|
    ensures step == PickNext(c) ==> more == [] && Next(s, step).cpus[c].runq == s.cpus[c].runq[1..]
    ensures step != PickNext(c) ==> Next(s, step).cpus[c].runq == s.cpus[c].runq + more
  {
    var q, q' := s.cpus[c].runq, Next(s, step).cpus[c].runq;
    more := if step == PickNext(c) then [] else if |q'| >= |q| then q'[|q|..] else [];
  }

  /** No thread overtakes another on a run queue: the one ahead stays ahead until it is
      picked, unless its CPU begins a migration. */
  lemma NoOvertaking(s: State, step: Step, c: nat, t: nat, u: nat)
    requires Inv(s) && Enabled(s, step) && c < |s.cpus| && !(step.MigrateStart? && step.c == c)
    requires Ahead(s.cpus[c].runq, t, u)
    ensures |Next(s, step).cpus| == |s.cpus|
    ensures Ahead(Next(s, step).cpus[c].runq, t, u) || (step == PickNext(c) && WhereIs(Next(s, step), t) == Executing)
  {
    hide Inv, Next, Ahead, WhereIs;
    var more := QueueStep(s, step, c);
    if step == PickNext(c) {
      AheadWithoutFirst(s.cpus[c].runq, t, u);
      StepLife(s, step, t);
    } else {
      AheadGrows(s.cpus[c].runq, more, t, u);
    }
  }

  /** Nor on a wait channel: the sleeper ahead stays ahead until it is woken. */
  lemma WokenInOrder(s: State, step: Step, w: nat, t: nat, u: nat)
    requires Inv(s) && Enabled(s, step) && w < |s.chans| && Ahead(s.chans[w], t, u)
    ensures |Next(s, step).chans| == |s.chans|
    ensures Ahead(Next(s, step).chans[w], t, u) || (step == TakeSleeper(w) && WhereIs(Next(s, step), t) == Woken)
  {
    hide Inv, Ahead, WhereIs;
    if step == TakeSleeper(w) {
      AheadWithoutFirst(s.chans[w], t, u);
      StepLife(s, step, t);
    } else if step.Sleep? && step.w == w {
      AheadGrows(s.chans[w], [s.cpus[step.c].cur], t, u);
    }
  }

  // ----- threads that exit

  /** The threads that were current at an Exit among the first i steps. */
  ghost function Exited(run: seq<State>, steps: seq<Step>, i: nat): set<nat>
    requires IsRun(run, steps) && i <= |steps|
  {
    if i == 0 then {}
    else if !steps[i - 1].Exit? then Exited(run, steps, i - 1)
    else Exited(run, steps, i - 1) + {run[i - 1].cpus[steps[i - 1].c].cur}
  }

  /** In every state of every run the threads that have exited are the zombies and the
      destroyed: none of them ever runs again, and no other thread is ever destroyed. */
  lemma {:induction false} RunExited(run: seq<State>, steps: seq<Step>, i: nat, t: nat)
    requires IsRun(run, steps) && i <= |steps|
    ensures t in Exited(run, steps, i) <==> WhereIs(run[i], t) == Zombie || t in Destroyed(run, steps, i)
    ensures t in Destroyed(run, steps, i) ==> WhereIs(run[i], t) == Absent
  {
    hide Inv, Next, Enabled, Init, WhereIs;
    if i == 0 {
      NoZombies(run[0], t);
    } else {
      var s, step := run[i - 1], steps[i - 1];
      RunExited(run, steps, i - 1, t);
      RunInv(run, steps, i - 1);
      DestroyedKnown(run, steps, i - 1);
      StepLife(s, step, t);
      StepDestroys(s, step, t);
    }
  }

  lemma NoZombies(s: State, t: nat)
    requires Init(s)
    ensures WhereIs(s, t) != Zombie
  {
    NothingOnChans(Zombies(s.cpus), t);
  }

  /** A thread that has exited is on a CPU's zombies or destroyed, and executes nowhere. */
  lemma ExitedStays(run: seq<State>, steps: seq<Step>, i: nat, t: nat, c: nat)
    requires IsRun(run, steps) && i <= |steps| && t in Exited(run, steps, i) && c < |run[i].cpus|
    ensures t in Destroyed(run, steps, i) || exists d :: 0 <= d < |run[i].cpus| && t in run[i].cpus[d].zombies
    ensures run[i].cpus[c].cur == t ==> run[i].cpus[c].idle
    ensures Destroyed(run, steps, i) <= Exited(run, steps, i)
  {
    hide Next, Enabled, Init, On, OnLists;
    RunExited(run, steps, i, t);
    RunInv(run, steps, i);
    CurrentHere(run[i], c);
    forall u | u in Destroyed(run, steps, i)
      ensures u in Exited(run, steps, i)
    {
      RunExited(run, steps, i, u);
    }
    if t !in Destroyed(run, steps, i) {
      var d := OnSome(Zombies(run[i].cpus), t);
    }
  }

  lemma {:induction false} OnSome(lists: seq<seq<nat>>, t: nat) returns (d: nat)
    requires OnLists(lists, t) > 0
    ensures d < |lists| && t in lists[d]
  {
    if t in lists[0] {
      d := 0;
    } else {
      d := OnSome(lists[1..], t);
      d := d + 1;
    }
  }

  /** exorcise never destroys a thread that is current on any CPU. */
  lemma ExorciseSafe(run: seq<State>, steps: seq<Step>, i: nat, c: nat, d: nat)
    requires IsRun(run, steps) && i <= |steps| && Enabled(run[i], Exorcise(c)) && d < |run[i].cpus|
    ensures run[i].cpus[d].cur !in run[i].cpus[c].zombies
  {
    var s := run[i];
    RunInv(run, steps, i);
    assert CpuCurrentOk(s, c) && CpuCurrentOk(s, d);
    var t := s.cpus[d].cur;
    if t in s.cpus[c].zombies {
      assert OnCpuLists(s.cpus[c], t) > 0;
      PlacedCpu(s, c, s.cpus[c], t);
      assert false;
    }
  }

  /** The skip of curthread is needed: whenever it is the first victim and goes
      to an idle CPU with an empty queue, it becomes current on two CPUs. */
  lemma SkipIsNeeded(s: State, c: nat, d: nat, skip: nat)
    requires Inv(s) && c < |s.cpus| && d < |s.cpus| && c != d
    requires s.cpus[c].moving != [] && s.cpus[c].moving[0] == s.cpus[c].cur != skip
    requires s.cpus[d].idle && !s.cpus[d].migrating && s.cpus[d].runq == []
    ensures var pushed := PushVictim(s, c, d, skip);
            Enabled(pushed, PickNext(d)) &&
            Next(pushed, PickNext(d)).cpus[d].cur == Next(pushed, PickNext(d)).cpus[c].cur &&
            !Inv(Next(pushed, PickNext(d)))
  {
    var after := Next(PushVictim(s, c, d, skip), PickNext(d));
    assert !CpuCurrentOk(after, c);
  }

  /** The state of two CPUs, of which the first has the queue and the victims given. */
  function TwoCpus(cur: nat, idle0: bool, idle1: bool, runq: seq<nat>, moving: seq<nat>, migrating: bool,
                   asleep: seq<nat>, hands: seq<nat>, threads: map<nat, nat>): State
  {
    State([Cpu(cur, idle0, runq, [], moving, migrating), Cpu(1, idle1, [], [], [], false)], [asleep], hands, threads)
  }

  lemma ForkOnTwo(cur: nat, q: seq<nat>, m: map<nat, nat>, t: nat)
    requires cur in m && m[cur] == 0 && t !in m
    ensures var s := TwoCpus(cur, false, false, q, [], false, [], [], m);
            Enabled(s, Fork(0, t)) &&
            Next(s, Fork(0, t)) == TwoCpus(cur, false, false, q + [t], [], false, [], [], m[t := 0])
  {
    Cpus(TwoCpus(cur, false, false, q, [], false, [], [], m), Cpu(cur, false, q + [t], [], [], false));
  }

  lemma Cpus(s: State, c: Cpu)
    requires |s.cpus| == 2
    ensures s.cpus[0 := c] == [c, s.cpus[1]] && s.cpus[1 := c] == [s.cpus[0], c]
  {
  }

  lemma YieldOnTwo(cur: nat, q: seq<nat>, m: map<nat, nat>)
    requires cur in m && m[cur] == 0 && q != []
    ensures var s := TwoCpus(cur, false, false, q, [], false, [], [], m);
            Enabled(s, Yield(0)) && Next(s, Yield(0)) == TwoCpus(cur, true, false, q + [cur], [], false, [], [], m)
  {
    var s := TwoCpus(cur, false, false, q, [], false, [], [], m);
    var c := Cpu(cur, false, q + [cur], [], [], false);
    Cpus(s, c);
    Cpus(Enqueue(s, cur), c.(idle := true));
  }

  lemma PickOnTwo(cur: nat, q: seq<nat>, asleep: seq<nat>, m: map<nat, nat>)
    requires q != []
    ensures var s := TwoCpus(cur, true, false, q, [], false, asleep, [], m);
            Enabled(s, PickNext(0)) &&
            Next(s, PickNext(0)) == TwoCpus(q[0], false, false, q[1..], [], false, asleep, [], m)
  {
    Cpus(TwoCpus(cur, true, false, q, [], false, asleep, [], m), Cpu(q[0], false, q[1..], [], [], false));
  }

  lemma SleepOnFirst(cur: nat, q: seq<nat>, asleep: seq<nat>, m: map<nat, nat>)
    ensures var s := TwoCpus(cur, false, false, q, [], false, asleep, [], m);
            Enabled(s, Sleep(0, 0)) &&
            Next(s, Sleep(0, 0)) == TwoCpus(cur, true, false, q, [], false, asleep + [cur], [], m)
  {
    Cpus(TwoCpus(cur, false, false, q, [], false, asleep, [], m), Cpu(cur, true, q, [], [], false));
    assert [asleep][0 := asleep + [cur]] == [asleep + [cur]];
  }

  lemma SleepOnSecond(cur: nat, asleep: seq<nat>, m: map<nat, nat>)
    ensures var s := TwoCpus(cur, true, false, [], [], false, asleep, [], m);
            Enabled(s, Sleep(1, 0)) &&
            Next(s, Sleep(1, 0)) == TwoCpus(cur, true, true, [], [], false, asleep + [1], [], m)
  {
    Cpus(TwoCpus(cur, true, false, [], [], false, asleep, [], m), Cpu(1, true, [], [], [], false));
    assert [asleep][0 := asleep + [1]] == [asleep + [1]];
  }

  lemma TakeOnTwo(cur: nat, q: seq<nat>, asleep: seq<nat>, m: map<nat, nat>)
    requires asleep != []
    ensures var s := TwoCpus(cur, true, true, q, [], false, asleep, [], m);
            Enabled(s, TakeSleeper(0)) &&
            Next(s, TakeSleeper(0)) == TwoCpus(cur, true, true, q, [], false, asleep[1..], [asleep[0]], m)
  {
    assert [asleep][0 := asleep[1..]] == [asleep[1..]] && [] + [asleep[0]] == [asleep[0]];
  }

  lemma RunOnTwo(cur: nat, q: seq<nat>, asleep: seq<nat>, t: nat, m: map<nat, nat>)
    requires t in m && m[t] == 0
    ensures var s := TwoCpus(cur, true, true, q, [], false, asleep, [t], m);
            Enabled(s, MakeRunnable(0)) &&
            Next(s, MakeRunnable(0)) == TwoCpus(cur, true, true, q + [t], [], false, asleep, [], m)
  {
    Cpus(TwoCpus(cur, true, true, q, [], false, asleep, [t], m), Cpu(cur, true, q + [t], [], [], false));
    assert [t][..0] + [t][1..] == [];
  }

  lemma StartOnTwo(cur: nat, q: seq<nat>, asleep: seq<nat>, m: map<nat, nat>)
    requires |q| == 2
    ensures var s := TwoCpus(cur, true, true, q, [], false, asleep, [], m);
            Enabled(s, MigrateStart(0, 1)) &&
            Next(s, MigrateStart(0, 1)) == TwoCpus(cur, true, true, q[..1], [q[1]], true, asleep, [], m)
  {
    assert [] + q[1..] == [q[1]];
    Cpus(TwoCpus(cur, true, true, q, [], false, asleep, [], m), Cpu(cur, true, q[..1], [], [q[1]], true));
  }

  lemma RunExtended(run: seq<State>, steps: seq<Step>, step: Step, s: State)
    requires IsRun(run, steps) && Enabled(run[|steps|], step) && s == Next(run[|steps|], step)
    ensures IsRun(run + [s], steps + [step]) && (run + [s])[|steps + [step]|] == s
  {
    hide Next, Enabled, Init;
    var r, t := run + [s], steps + [step];
    forall i | 0 <= i < |t|
      ensures Enabled(r[i], t[i]) && r[i + 1] == Next(r[i], t[i])
    {
      if i < |steps| {
        assert r[i] == run[i] && r[i + 1] == run[i + 1] && t[i] == steps[i];
      }
    }
  }

  /** Thread 0 forks thread 2, and both go to sleep in turn. */
  lemma BothAsleep() returns (run: seq<State>, steps: seq<Step>)
    ensures IsRun(run, steps)
    ensures run[|steps|] == TwoCpus(0, true, false, [], [], false, [2, 0], [], map[0 := 0, 1 := 1, 2 := 0])
  {
    var a, b := map[0 := 0, 1 := 1], map[0 := 0, 1 := 1, 2 := 0];
    assert [] + [2] == [2] && [2] + [0] == [2, 0] && [2, 0][1..] == [0] && [0][1..] == [] && a[2 := 0] == b;
    run, steps := [TwoCpus(0, false, false, [], [], false, [], [], a)], [];
    assert IsRun(run, steps);
    hide TwoCpus, Next, Enabled, IsRun;
    ForkOnTwo(0, [], a, 2);
    run, steps := Extend(run, steps, Fork(0, 2));
    YieldOnTwo(0, [2], b);
    run, steps := Extend(run, steps, Yield(0));
    PickOnTwo(0, [2, 0], [], b);
    run, steps := Extend(run, steps, PickNext(0));
    SleepOnFirst(2, [0], [], b);
    run, steps := Extend(run, steps, Sleep(0, 0));
    PickOnTwo(2, [0], [2], b);
    run, steps := Extend(run, steps, PickNext(0));
    SleepOnFirst(0, [], [2], b);
    run, steps := Extend(run, steps, Sleep(0, 0));
  }

  lemma Extend(run0: seq<State>, steps0: seq<Step>, step: Step) returns (run: seq<State>, steps: seq<Step>)
    requires |run0| == |steps0| + 1 && IsRun(run0, steps0) && Enabled(run0[|steps0|], step)
    ensures |run| == |steps| + 1 && IsRun(run, steps) && run[|steps|] == Next(run0[|steps0|], step)
  {
    hide Next, Enabled, IsRun;
    var s := Next(run0[|steps0|], step);
    RunExtended(run0, steps0, step, s);
    run, steps := run0 + [s], steps0 + [step];
  }

  /** Thread 1 goes to sleep as well, and thread 2 is woken. */
  lemma OneWoken() returns (run: seq<State>, steps: seq<Step>)
    ensures |run| == |steps| + 1 && IsRun(run, steps)
    ensures run[|steps|] == TwoCpus(0, true, true, [2], [], false, [0, 1], [], map[0 := 0, 1 := 1, 2 := 0])
  {
    var b := map[0 := 0, 1 := 1, 2 := 0];
    assert [] + [2] == [2] && [2, 0] + [1] == [2, 0, 1] && [2, 0, 1][1..] == [0, 1];
    hide TwoCpus, Next, Enabled, IsRun;
    run, steps := BothAsleep();
    RunShape(run, steps);
    SleepOnSecond(0, [2, 0], b);
    run, steps := Extend(run, steps, Sleep(1, 0));
    TakeOnTwo(0, [], [2, 0, 1], b);
    run, steps := Extend(run, steps, TakeSleeper(0));
    RunOnTwo(0, [], [0, 1], 2, b);
    run, steps := Extend(run, steps, MakeRunnable(0));
  }

  /** A run from boot to a state where the skip is needed: both CPUs are idle, thread 0 is
      still the first one's current thread, and it is woken, behind thread 2, before that
      CPU goes on. With two threads queued one share is one, and the one to send is the
      current thread. */
  lemma SkipReached() returns (run: seq<State>, steps: seq<Step>)
    ensures IsRun(run, steps)
    ensures var s := run[|steps|];
            && |s.cpus| == 2 && s.cpus[0].cur == 0 && s.cpus[0].moving == [0] && |s.cpus[0].runq| == 1
            && s.cpus[1].idle && !s.cpus[1].migrating && s.cpus[1].runq == []
  {
    var b := map[0 := 0, 1 := 1, 2 := 0];
    assert [2] + [0] == [2, 0] && [0, 1][1..] == [1];
    VictimIsCurrent(b);
    hide TwoCpus, Next, Enabled, IsRun;
    run, steps := OneWoken();
    TakeOnTwo(0, [2], [0, 1], b);
    run, steps := Extend(run, steps, TakeSleeper(0));
    RunOnTwo(0, [2], [1], 0, b);
    run, steps := Extend(run, steps, MakeRunnable(0));
    StartOnTwo(0, [2, 0], [1], b);
    run, steps := Extend(run, steps, MigrateStart(0, 1));
  }

  lemma VictimIsCurrent(m: map<nat, nat>)
    ensures var s := TwoCpus(0, true, true, [2, 0][..1], [[2, 0][1]], true, [1], [], m);
            && |s.cpus| == 2 && s.cpus[0].cur == 0 && s.cpus[0].moving == [0] && |s.cpus[0].runq| == 1
            && s.cpus[1].idle && !s.cpus[1].migrating && s.cpus[1].runq == []
  {
  }

  lemma RunShape(run: seq<State>, steps: seq<Step>)
    requires IsRun(run, steps)
    ensures |run| == |steps| + 1
  {
  }

  /** So a run in which any other thread were skipped would make one thread current on two
      CPUs. */
  lemma SkipNeededInRun(skip: nat) returns (run: seq<State>, steps: seq<Step>)
    requires skip != 0
    ensures IsRun(run, steps) && |run[|steps|].cpus| == 2 && run[|steps|].cpus[0].moving == [0]
    ensures var pushed := PushVictim(run[|steps|], 0, 1, skip);
            && Enabled(pushed, PickNext(1))
            && Next(pushed, PickNext(1)).cpus[1].cur == Next(pushed, PickNext(1)).cpus[0].cur == 0
  {
    run, steps := SkipReached();
    RunInv(run, steps, |steps|);
    SkipIsNeeded(run[|steps|], 0, 1, skip);
  }
}
