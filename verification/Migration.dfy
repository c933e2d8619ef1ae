/** thread_consider_migration: evens out the run queues. Between its critical
    sections the other CPUs go on, so at every spinlock_acquire the queue it
    locks may have changed since it was last looked at. */
module Migration {
  import opened Counting

  /** What others did to a queue before we locked it. Other CPUs only add to
      the tail of our own queue; another queue may hold anything by then. */
  datatype Change = Change(queue: seq<nat>)

  /** The quotient, rounded up. */
  function DivRoundUp(a: nat, b: nat): (q: nat)
    requires b >= 1
    ensures a <= q * b && (q > 0 ==> (q - 1) * b < a)
  {
    RoundsUp(a, b);
    (a + b - 1) / b
  }

  lemma RoundsUp(a: nat, b: nat)
    requires b >= 1
    ensures var q := (a + b - 1) / b; a <= q * b && (q > 0 ==> (q - 1) * b < a)
  {
    var q, r := (a + b - 1) / b, (a + b - 1) % b;
    assert a + b - 1 == b * q + r;
    assert (q - 1) * b == b * q - b;
  }

  /** The threads on all queues together. */
  function Lengths(queues: seq<seq<nat>>): nat {
    if queues == [] then 0 else Lengths(queues[..|queues| - 1]) + |queues[|queues| - 1]|
  }

  lemma LengthsSnoc(queues: seq<seq<nat>>, q: seq<nat>)
    ensures Lengths(queues + [q]) == Lengths(queues) + |q|
  {
    assert (queues + [q])[..|queues|] == queues;
  }

  /** What the others put on the queues that were locked at lock a, a + 1, ..., b - 1. */
  function QueuesFrom(env: nat -> Change, a: nat, b: nat): seq<nat>
    requires a <= b
    decreases b - a
  {
    if a == b then [] else QueuesFrom(env, a, b - 1) + env(b - 1).queue
  }

  /** The threads on the first n queues, ours left out. */
  function Others(queues: seq<seq<nat>>, me: nat, n: nat): seq<nat>
    requires n <= |queues|
  {
    if n == 0 then [] else Others(queues, me, n - 1) + if n - 1 == me then [] else queues[n - 1]
  }

  /** Queue j when it is counted. */
  function Found(queues: seq<seq<nat>>, env: nat -> Change, me: nat, j: nat): seq<nat>
    requires j < |queues|
  {
    (if j == me then queues[j] else []) + env(j).queue
  }

  /** The queues counted are as they were found, the others as before. */
  ghost predicate CountedSoFar(counted: seq<seq<nat>>, runq: seq<seq<nat>>, before: seq<seq<nat>>, env: nat -> Change, me: nat) {
    && |counted| <= |runq| == |before| && counted == runq[..|counted|]
    && (forall j :: 0 <= j < |counted| ==> counted[j] == Found(before, env, me, j))
    && (forall j :: |counted| <= j < |runq| ==> runq[j] == before[j])
  }

  lemma NoneCounted(runq: seq<seq<nat>>, env: nat -> Change, me: nat)
    ensures CountedSoFar([], runq, runq, env, me)
  {
  }

  lemma CountNext(counted: seq<seq<nat>>, runq: seq<seq<nat>>, before: seq<seq<nat>>, env: nat -> Change, me: nat)
    requires CountedSoFar(counted, runq, before, env, me) && |counted| < |runq|
    ensures |runq| == |before| && runq[|counted|] == before[|counted|]
    ensures var q := Found(before, env, me, |counted|);
            CountedSoFar(counted + [q], runq[|counted| := q], before, env, me)
  {
  }

  lemma AllCounted(counted: seq<seq<nat>>, runq: seq<seq<nat>>, before: seq<seq<nat>>, env: nat -> Change, me: nat)
    requires CountedSoFar(counted, runq, before, env, me) && |counted| == |runq|
    ensures counted == runq && |runq| == |before|
    ensures forall j :: 0 <= j < |runq| ==> counted[j] == Found(before, env, me, j)
  {
  }

  /** The number of other CPUs among the first n. */
  function Rank(me: nat, n: nat): nat {
    if n > me then n - 1 else n
  }

  /** came is what the others were found to have put on a queue, left what they had
      taken off one. */
  class Machine {
    var runq: seq<seq<nat>>
    var tcpu: map<nat, nat>
    ghost var came: seq<nat>
    ghost var left: seq<nat>

    /** How often t is on a run queue, not counting what others moved. */
    ghost function Net(t: nat): int
      reads this
    {
      OnLists(runq, t) + On(left, t) - On(came, t)
    }

    /** spinlock_acquire of CPU i's run queue. Only CPU i takes threads off its
        own queue, so our own queue, i == me, can only have grown. */
    method Lock(i: nat, me: nat, change: Change)
      requires i < |runq|
      modifies this`runq, this`came, this`left
      ensures |runq| == |old(runq)| && (forall j :: 0 <= j < |runq| && j != i ==> runq[j] == old(runq)[j])
      ensures runq[i] == (if i == me then old(runq)[i] else []) + change.queue
      ensures came == old(came) + change.queue && left == old(left) + if i == me then [] else old(runq)[i]
      ensures forall t: nat :: Net(t) == old(Net(t))
    {
      hide OnLists, On;
      var q := runq[i];
      var now := if i == me then q + change.queue else change.queue;
      ghost var gone := if i == me then [] else q;
      forall t: nat
        ensures OnLists(runq[i := now], t) + On(left + gone, t) - On(came + change.queue, t) == Net(t)
      {
        OnListsAt(runq, i, now, t);
        OnConcat(q, change.queue, t);
        OnConcat(left, gone, t);
        OnConcat(came, change.queue, t);
        OnNone(t);
      }
      left := left + gone;
      came := came + change.queue;
      runq := runq[i := now];
    }

    /** The counts of the first loop, of the queues as they were locked. */
    method CountQueues(me: nat, env: nat -> Change) returns (total: nat, mine: nat, locks: nat, ghost counted: seq<seq<nat>>)
      requires me < |runq|
      modifies this`runq, this`came, this`left
      ensures |runq| == |old(runq)| == locks && runq == counted
      ensures forall j :: 0 <= j < |runq| ==> counted[j] == Found(old(runq), env, me, j)
      ensures total == Lengths(counted) && mine == |counted[me]|
      ensures came == old(came) + QueuesFrom(env, 0, locks)
      ensures left == old(left) + Others(old(runq), me, |old(runq)|)
      ensures forall t: nat :: Net(t) == old(Net(t))
    {
      hide OnLists, On, Net, QueuesFrom, Others, CountedSoFar;
      total, mine, locks, counted := 0, 0, 0, [];
      NoneCounted(runq, env, me);
      NoQueues(env, 0);
      NoOthers(runq, me);
      var i := 0;
      while i < |runq|
        invariant 0 <= i <= |runq| == |old(runq)| && locks == i == |counted|
        invariant CountedSoFar(counted, runq, old(runq), env, me)
        invariant total == Lengths(counted) && (i <= me || mine == |counted[me]|)
        invariant came == old(came) + QueuesFrom(env, 0, i)
        invariant left == old(left) + Others(old(runq), me, i)
        invariant forall t: nat :: Net(t) == old(Net(t))
      {
        ghost var q := runq;
        CountNext(counted, runq, old(runq), env, me);
        Lock(i, me, env(locks));
        assert runq == q[i := runq[i]];
        MoreQueues(old(came), env, 0, i);
        MoreOthers(old(left), old(runq), me, i);
        locks := locks + 1;
        total := total + |runq[i]|;
        LengthsSnoc(counted, runq[i]);
        counted := counted + [runq[i]];
        if i == me {
          mine := |runq[i]|;
        }
        i := i + 1;
      }
      AllCounted(counted, runq, old(runq), env, me);
    }

    /** Takes n threads off the tail of our own queue, keeping their order. */
    method TakeVictims(me: nat, n: nat) returns (victims: seq<nat>)
      requires me < |runq| && n <= |runq[me]|
      modifies this`runq
      ensures runq == old(runq)[me := old(runq)[me][..|old(runq)[me]| - n]]
      ensures victims == old(runq)[me][|old(runq)[me]| - n..]
      ensures forall t: nat :: Net(t) + On(victims, t) == old(Net(t))
    {
      ghost var q := runq[me];
      victims := [];
      var i := 0;
      while i < n
        invariant 0 <= i <= n
        invariant |runq| == |old(runq)| && (forall j :: 0 <= j < |runq| && j != me ==> runq[j] == old(runq)[j])
        invariant runq[me] == q[..|q| - i] && victims == q[|q| - i..]
      {
        var r := runq[me];
        var t := r[|r| - 1];
        runq := runq[me := r[..|r| - 1]];
        victims := [t] + victims;
        i := i + 1;
      }
      assert runq == old(runq)[me := q[..|q| - n]];
      hide OnLists, On;
      forall t: nat
        ensures Net(t) + On(victims, t) == old(Net(t))
      {
        OnListsAt(old(runq), me, q[..|q| - n], t);
        OnSplit(q, |q| - n, t);
      }
    }

    /** The inner loop: hands victims to CPU i while its queue is below one
        share. The current thread is passed over, and so is not handed out. */
    method HandOut(i: nat, me: nat, cur: nat, oneShare: nat, victims0: seq<nat>, toSend0: nat)
      returns (victims: seq<nat>, toSend: nat, ghost given: set<nat>)
      requires i < |runq| && i != me && OnlyCur(victims0, toSend0, cur)
      modifies this`runq, this`tcpu
      ensures |runq| == |old(runq)| && (forall j :: 0 <= j < |runq| && j != i ==> runq[j] == old(runq)[j])
      ensures Filled(old(runq)[i], runq[i], oneShare)
      ensures toSend <= toSend0 && OnlyCur(victims, toSend, cur)
      ensures toSend == 0 || |runq[i]| >= oneShare
      ensures forall t: nat :: Net(t) + On(victims, t) == old(Net(t)) + On(victims0, t)
      ensures On(victims, cur) == On(victims0, cur) && cur !in given
      ensures Assigned(old(tcpu), tcpu, given, i)
      ensures forall t :: t in given <==> t in runq[i][|old(runq)[i]|..]
    {
      hide OnLists, On;
      victims, toSend, given := victims0, toSend0, {};
      ghost var q0, c0 := runq[i], tcpu;
      while |runq[i]| < oneShare && toSend > 0
        invariant |runq| == |old(runq)| && (forall j :: 0 <= j < |runq| && j != i ==> runq[j] == old(runq)[j])
        invariant Filled(q0, runq[i], oneShare)
        invariant toSend <= toSend0 && OnlyCur(victims, toSend, cur)
        invariant forall t: nat :: Net(t) + On(victims, t) == old(Net(t)) + On(victims0, t)
        invariant On(victims, cur) == On(victims0, cur) && cur !in given
        invariant Assigned(c0, tcpu, given, i)
        invariant forall t :: t in given <==> t in runq[i][|q0|..]
        decreases toSend
      {
        ghost var was, q := victims, runq;
        var t := victims[0];
        victims := victims[1..];
        if t == cur {
          victims := victims + [t];
          toSend := toSend - 1;
          Rotated(was);
        } else {
          tcpu := tcpu[t := i];
          runq := runq[i := runq[i] + [t]];
          assert runq[i][|q0|..] == q[i][|q0|..] + [t];
          given := given + {t};
          toSend := toSend - 1;
          Handed(q, i, was);
          OnFirst(was, cur);
        }
      }
    }

    /** Puts the remaining victims back on our own queue. */
    method PutBack(me: nat, victims0: seq<nat>)
      requires me < |runq|
      modifies this`runq
      ensures runq == old(runq)[me := old(runq)[me] + victims0]
      ensures forall t: nat :: Net(t) == old(Net(t)) + On(victims0, t)
    {
      var victims := victims0;
      ghost var i := 0;
      while victims != []
        invariant i <= |victims0| && victims == victims0[i..]
        invariant |runq| == |old(runq)| && (forall j :: 0 <= j < |runq| && j != me ==> runq[j] == old(runq)[j])
        invariant runq[me] == old(runq)[me] + victims0[..i]
        decreases |victims|
      {
        var t := victims[0];
        victims := victims[1..];
        assert victims0[..i + 1] == victims0[..i] + [t];
        runq := runq[me := runq[me] + [t]];
        i := i + 1;
      }
      assert victims0[..i] == victims0;
      assert runq == old(runq)[me := old(runq)[me] + victims0];
      hide OnLists, On;
      forall t: nat
        ensures Net(t) == old(Net(t)) + On(victims0, t)
      {
        OnListsAt(old(runq), me, old(runq)[me] + victims0, t);
        OnConcat(old(runq)[me], victims0, t);
      }
    }

    /** One round of the loop over the other CPUs. */
    method Visit(i: nat, me: nat, cur: nat, oneShare: nat, victims0: seq<nat>, toSend0: nat, change: Change,
                 ghost seen: seq<seq<nat>>, ghost c0: map<nat, nat>, ghost given0: set<nat>)
      returns (victims: seq<nat>, toSend: nat, ghost given: set<nat>)
      requires i < |runq| == |seen| && i != me && seen[i] == runq[i] && OnlyCur(victims0, toSend0, cur) && cur !in given0
      requires AllFilled(seen, runq, me, oneShare, i)
      requires OnlyGiven(c0, tcpu, given0) && AllHomed(seen, runq, tcpu, me, given0)
      modifies this`runq, this`tcpu, this`came, this`left
      ensures |runq| == |old(runq)| && (forall j :: 0 <= j < |runq| && j != i ==> runq[j] == old(runq)[j])
      ensures came == old(came) + change.queue && left == old(left) + old(runq)[i]
      ensures toSend <= toSend0 && OnlyCur(victims, toSend, cur) && (toSend == 0 || |runq[i]| >= oneShare)
      ensures forall t: nat :: Net(t) + On(victims, t) == old(Net(t)) + On(victims0, t)
      ensures On(victims, cur) == On(victims0, cur) && cur !in given
      ensures AllFilled(seen[i := change.queue], runq, me, oneShare, i + 1)
      ensures OnlyGiven(c0, tcpu, given) && AllHomed(seen[i := change.queue], runq, tcpu, me, given)
    {
      hide OnLists, On, Net, Assigned, AllFilled, AllHomed, OnlyGiven, OnlyCur;
      ghost var q, c, more := runq, tcpu, {};
      Lock(i, me, change);
      assert runq[i] == change.queue;
      victims, toSend, more := HandOut(i, me, cur, oneShare, victims0, toSend0);
      StepFilled(seen, q, change.queue, runq, me, i, oneShare);
      StepHomed(seen, q, change.queue, runq, c0, c, tcpu, me, i, given0, more);
      given := given0 + more;
    }

    /** The loop over the other CPUs, which ends after the first `visited` ones. `seen` is
        each queue as it was when it was locked, or as it still is when it was not. */
    method Distribute(me: nat, cur: nat, oneShare: nat, victims0: seq<nat>, toSend0: nat, env: nat -> Change,
                      locks0: nat)
      returns (victims: seq<nat>, toSend: nat, locks: nat, visited: nat, ghost seen: seq<seq<nat>>, ghost given: set<nat>)
      requires me < |runq| && OnlyCur(victims0, toSend0, cur)
      modifies this`runq, this`tcpu, this`came, this`left
      ensures |runq| == |old(runq)| && runq[me] == old(runq)[me]
      ensures visited <= |runq| && locks == locks0 + Rank(me, visited) && (toSend0 == 0 ==> visited == 0)
      ensures came == old(came) + QueuesFrom(env, locks0, locks) && left == old(left) + Others(old(runq), me, visited)
      ensures SeenAs(seen, old(runq), env, locks0, me, visited) && AllFilled(seen, runq, me, oneShare, |runq|)
      ensures OnlyCur(victims, toSend, cur)
      ensures toSend == 0 ||
        (visited == |runq| && forall j :: 0 <= j < |runq| && j != me ==> |runq[j]| >= oneShare)
      ensures forall t: nat :: Net(t) + On(victims, t) == old(Net(t)) + On(victims0, t)
      ensures On(victims, cur) == On(victims0, cur) && cur !in given
      ensures OnlyGiven(old(tcpu), tcpu, given) && AllHomed(seen, runq, tcpu, me, given)
    {
      hide OnLists, On, Net, Assigned, QueuesFrom, Others, AllFilled, AllHomed, OnlyGiven, OnlyCur, SeenAs, AllShares;
      NoShares(runq, me, oneShare);
      victims, toSend, locks, seen, given := victims0, toSend0, locks0, runq, {};
      ghost var q0, c0 := runq, tcpu;
      NoQueues(env, locks0);
      NoOthers(q0, me);
      NothingSeen(q0, tcpu, env, locks0, me, oneShare);
      var i := 0;
      while i < |runq| && toSend > 0
        invariant 0 <= i <= |runq| == |q0| && runq[me] == q0[me] && locks == locks0 + Rank(me, i)
        invariant forall j :: i <= j < |runq| ==> runq[j] == q0[j]
        invariant OnlyCur(victims, toSend, cur) && (toSend0 == 0 ==> i == toSend == 0)
        invariant came == old(came) + QueuesFrom(env, locks0, locks) && left == old(left) + Others(q0, me, i)
        invariant SeenAs(seen, q0, env, locks0, me, i) && AllFilled(seen, runq, me, oneShare, i)
        invariant toSend == 0 || AllShares(runq, me, oneShare, i)
        invariant forall t: nat :: Net(t) + On(victims, t) == old(Net(t)) + On(victims0, t)
        invariant On(victims, cur) == On(victims0, cur) && cur !in given
        invariant OnlyGiven(c0, tcpu, given) && AllHomed(seen, runq, tcpu, me, given)
      {
        MoreOthers(old(left), q0, me, i);
        if i != me {
          ghost var q1 := runq;
          SeeNext(seen, q0, env, locks0, me, i);
          MoreQueues(old(came), env, locks0, locks);
          victims, toSend, given := Visit(i, me, cur, oneShare, victims, toSend, env(locks), seen, c0, given);
          seen := seen[i := env(locks).queue];
          locks := locks + 1;
          NextShare(q1, runq, me, oneShare, i);
        } else {
          PassOver(seen, q0, runq, env, locks0, me, oneShare);
          NextShare(runq, runq, me, oneShare, i);
        }
        i := i + 1;
      }
      visited := i;
      SharesMean(runq, me, oneShare);
      LastFilled(seen, runq, me, oneShare, i);
    }

    /** The second half of thread_consider_migration: n threads off the tail of our queue,
        handed out, and what is left of them, `back`, put back behind whatever came in the
        meantime. */
    method MoveVictims(me: nat, cur: nat, oneShare: nat, n: nat, env: nat -> Change, locks0: nat)
      returns (unsent: nat, locks: nat, visited: nat, ghost back: seq<nat>, ghost seen: seq<seq<nat>>, ghost given: set<nat>)
      requires me < |runq| && n <= |runq[me]|
      modifies this
      ensures |runq| == |old(runq)| && visited <= |runq| && (n == 0 ==> visited == 0)
      ensures locks == locks0 + 1 + Rank(me, visited) + if back == [] then 0 else 1
      ensures came == old(came) + QueuesFrom(env, locks0, locks) && left == old(left) + Others(old(runq), me, visited)
      ensures var own := old(runq)[me] + env(locks0).queue;
              runq[me] == own[..|own| - n] + (if back == [] then [] else env(locks - 1).queue) + back
      ensures OnlyCur(back, unsent, cur)
      ensures unsent == 0 ||
        (visited == |runq| && forall j :: 0 <= j < |runq| && j != me ==> |runq[j]| >= oneShare)
      ensures On(back, cur) <= On(old(runq)[me], cur) + On(env(locks0).queue, cur)
      ensures forall t: nat :: Net(t) == old(Net(t))
      ensures On(runq[me], cur) >= On(old(runq)[me], cur) && cur !in given
      ensures SeenAs(seen, old(runq), env, locks0 + 1, me, visited) && AllFilled(seen, runq, me, oneShare, |runq|)
      ensures OnlyGiven(old(tcpu), tcpu, given) && AllHomed(seen, runq, tcpu, me, given)
    {
      hide OnLists, On, Net, QueuesFrom, Others, AllFilled, AllHomed, OnlyGiven, OnlyCur, SeenAs;
      ghost var came0 := came;
      var victims := OwnVictims(me, n, env, locks0);
      AllToSend(victims, cur);
      ghost var q1 := runq;
      victims, unsent, locks, visited, seen, given := Distribute(me, cur, oneShare, victims, n, env, locks0 + 1);
      SameOthers(q1, old(runq), me, visited);
      SeenOf(seen, q1, old(runq), env, locks0 + 1, me, visited);
      JoinQueues(came0, env, locks0, locks0 + 1, locks);
      back := victims;
      ghost var q, l := runq, locks;
      locks := ReturnVictims(me, victims, env, locks);
      JoinQueues(came0, env, locks0, l, locks);
      OthersHomed(seen, q, runq, tcpu, me, given);
      OthersFilled(seen, q, runq, me, oneShare);
      CurStays(old(runq)[me], env(locks0).queue, n, if back == [] then [] else env(l).queue, back, cur);
    }

    /** The beginning: n victims off the tail of our queue, under its lock. */
    method OwnVictims(me: nat, n: nat, env: nat -> Change, locks0: nat) returns (victims: seq<nat>)
      requires me < |runq| && n <= |runq[me]|
      modifies this`runq, this`came, this`left
      ensures var own := old(runq)[me] + env(locks0).queue;
              runq == old(runq)[me := own[..|own| - n]] && victims == own[|own| - n..]
      ensures came == old(came) + QueuesFrom(env, locks0, locks0 + 1) && left == old(left)
      ensures forall t: nat :: Net(t) + On(victims, t) == old(Net(t))
    {
      hide OnLists, On, Net, QueuesFrom;
      ghost var q := runq;
      Lock(me, me, env(locks0));
      assert runq == q[me := q[me] + env(locks0).queue];
      NoQueues(env, locks0);
      MoreQueues(old(came), env, locks0, locks0);
      victims := TakeVictims(me, n);
    }

    /** The end: what is left of the victims goes back to our queue, if anything is. */
    method ReturnVictims(me: nat, victims: seq<nat>, env: nat -> Change, locks0: nat) returns (locks: nat)
      requires me < |runq|
      modifies this`runq, this`came, this`left
      ensures |runq| == |old(runq)| && (forall j :: 0 <= j < |runq| && j != me ==> runq[j] == old(runq)[j])
      ensures runq[me] == old(runq)[me] + (if victims == [] then [] else env(locks0).queue) + victims
      ensures locks == locks0 + (if victims == [] then 0 else 1)
      ensures came == old(came) + QueuesFrom(env, locks0, locks) && left == old(left)
      ensures forall t: nat :: Net(t) == old(Net(t)) + On(victims, t)
    {
      hide OnLists, On, Net, QueuesFrom;
      locks := locks0;
      NoQueues(env, locks);
      if victims != [] {
        Lock(me, me, env(locks));
        MoreQueues(old(came), env, locks, locks);
        locks := locks + 1;
        PutBack(me, victims);
      } else {
        NoneLeft();
      }
    }

    /** thread_consider_migration on CPU `me`, whose current thread is `cur`.
        With m the length of our queue when it was counted and s one share of
        the total, rounded up, nothing moves if m < s. Otherwise:
          - no thread is lost or doubled: what is on the queues in the end, and what the
            others had taken off a queue before it was locked, is what was on the queues
            at first, and what the others had put on one;
          - the current thread stays on our queue, and keeps its t_cpu;
          - our queue keeps at least one share, and no other queue was brought
            above one share by us;
          - of the threads put back only the current one was dealt with, and unless all
            m - s were, every other queue had one share;
          - t_cpu changed exactly for the threads handed out. */
    method ConsiderMigration(me: nat, cur: nat, env: nat -> Change)
      returns (total: nat, mine: nat, share: nat, unsent: nat, locks: nat, visited: nat, ghost counted: seq<seq<nat>>,
               ghost back: seq<nat>, ghost seen: seq<seq<nat>>, ghost given: set<nat>)
      requires me < |runq|
      modifies this
      ensures |runq| == |old(runq)| == |counted| && visited <= |runq|
      ensures forall j :: 0 <= j < |runq| ==> counted[j] == Found(old(runq), env, me, j)
      ensures total == Lengths(counted) && mine == |counted[me]|
      ensures total <= share * |runq| && (share > 0 ==> (share - 1) * |runq| < total)
      ensures forall t: nat ::
        OnLists(runq, t) + On(Others(old(runq), me, |old(runq)|), t) + On(Others(counted, me, visited), t) ==
        OnLists(old(runq), t) + On(QueuesFrom(env, 0, locks), t)
      ensures forall t: nat :: Net(t) == old(Net(t))
      ensures came == old(came) + QueuesFrom(env, 0, locks)
      ensures left == old(left) + Others(old(runq), me, |old(runq)|) + Others(counted, me, visited)
      ensures On(runq[me], cur) >= On(old(runq)[me], cur) && cur !in given
      ensures SeenAs(seen, counted, env, |runq| + 1, me, visited)
      ensures AllFilled(seen, runq, me, share, |runq|)
      ensures mine >= share ==> |runq[me]| >= share
      ensures OnlyCur(back, unsent, cur)
      ensures unsent == 0 ||
        (visited == |runq| && forall j :: 0 <= j < |runq| && j != me ==> |runq[j]| >= share)
      ensures On(back, cur) <= On(counted[me], cur) + On(env(|runq|).queue, cur)
      ensures OnlyGiven(old(tcpu), tcpu, given) && AllHomed(seen, runq, tcpu, me, given)
      ensures mine < share ==>
        runq == counted && tcpu == old(tcpu) && given == {} && back == [] && visited == 0 && locks == |runq|
      ensures mine >= share ==>
        var own := counted[me] + env(|runq|).queue;
        && locks == |runq| + 1 + Rank(me, visited) + (if back == [] then 0 else 1)
        && runq[me] == own[..|own| - (mine - share)]
                       + (if back == [] then [] else env(locks - 1).queue) + back
    {
      hide OnLists, On, Net, DivRoundUp, QueuesFrom, Others, AllFilled, AllHomed, OnlyGiven, OnlyCur, SeenAs;
      ghost var q0, came0, left0, c0 := runq, came, left, tcpu;
      NetMeans();
      total, mine, locks, counted := CountQueues(me, env);
      unsent, visited, back, seen, given := 0, 0, [], runq, {};
      share := DivRoundUp(total, |runq|);
      Grew(q0[me], runq[me], cur);
      NetMeans();
      if mine < share {
        NoOthers(counted, me);
        NothingSeen(counted, tcpu, env, |runq| + 1, me, share);
        LastFilled(seen, runq, me, share, 0);
        NoneToSend(cur);
        OnNone(cur);
      } else {
        unsent, locks, visited, back, seen, given := MoveVictims(me, cur, share, mine - share, env, locks);
        JoinQueues(came0, env, 0, |runq|, locks);
        NetMeans();
      }
      Conserved(q0, runq, came0, came, left0, left, Others(q0, me, |q0|), Others(counted, me, visited),
                QueuesFrom(env, 0, locks));
    }

    /** The same while the other CPUs do nothing, with the current thread not on our
        queue. Every queue ends at a share or below, or as it was; ours ends with exactly
        one share when it had that many, and all it had above went to the others. */
    method EvenOut(me: nat, cur: nat, env: nat -> Change) returns (total: nat, share: nat)
      requires me < |runq| && Quiet(env, runq, me) && cur !in runq[me]
      modifies this
      ensures |runq| == |old(runq)| && total == Lengths(old(runq))
      ensures total <= share * |runq| && (share > 0 ==> (share - 1) * |runq| < total)
      ensures forall t: nat :: OnLists(runq, t) == OnLists(old(runq), t)
      ensures |old(runq)[me]| < share ==> runq == old(runq)
      ensures |old(runq)[me]| >= share ==> runq[me] == old(runq)[me][..share]
      ensures forall j :: 0 <= j < |runq| && j != me ==>
        old(runq)[j] <= runq[j] && |runq[j]| <= if |old(runq)[j]| >= share then |old(runq)[j]| else share
    {
      hide OnLists, On, DivRoundUp, QueuesFrom, Others, AllHomed, OnlyGiven, Lengths;
      ghost var q := runq;
      var mine, unsent, locks, visited;
      ghost var counted, back, seen, given;
      total, mine, share, unsent, locks, visited, counted, back, seen, given := ConsiderMigration(me, cur, env);
      QuietCount(env, q, counted, me);
      QuietSeen(env, q, seen, me, visited);
      NotOn(q[me], cur);
      OnNone(cur);
      NotOn(back, cur);
      NoneKept(back, unsent, cur);
      QuietLedger(env, q, me, visited, locks);
      SameLengths(runq, q);
      if mine >= share && unsent > 0 {
        TooMany(runq, me, share);
        assert false;
      }
    }

    lemma NetMeans()
      ensures forall t: nat :: Net(t) == OnLists(runq, t) + On(left, t) - On(came, t)
    {
    }
  }

  /** The other CPUs leave every queue as it is: what is found at each lock is what was
      there. The locks are the ones of the counting, that of our queue, those of the other
      queues, and our own again. */
  ghost predicate Quiet(env: nat -> Change, queues: seq<seq<nat>>, me: nat) {
    && (forall j :: 0 <= j < |queues| ==> env(j).queue == if j == me then [] else queues[j])
    && env(|queues|).queue == []
    && (forall j :: 0 <= j < |queues| && j != me ==> env(|queues| + 1 + Rank(me, j)).queue == queues[j])
    && env(2 * |queues|).queue == []
  }

  lemma QuietCount(env: nat -> Change, q: seq<seq<nat>>, counted: seq<seq<nat>>, me: nat)
    requires Quiet(env, q, me) && |counted| == |q| && forall j :: 0 <= j < |q| ==> counted[j] == Found(q, env, me, j)
    ensures counted == q
  {
    forall j | 0 <= j < |q|
      ensures counted[j] == q[j]
    {
      assert counted[j] == Found(q, env, me, j);
    }
  }

  lemma QuietSeen(env: nat -> Change, q: seq<seq<nat>>, seen: seq<seq<nat>>, me: nat, visited: nat)
    requires Quiet(env, q, me) && SeenAs(seen, q, env, |q| + 1, me, visited)
    ensures |seen| == |q| && forall j :: 0 <= j < |q| && j != me ==> seen[j] == q[j]
  {
  }

  /** What came is what had left. */
  lemma QuietLedger(env: nat -> Change, q: seq<seq<nat>>, me: nat, visited: nat, locks: nat)
    requires Quiet(env, q, me) && me < |q| && visited <= |q|
    requires || (visited == 0 && locks == |q|) || locks == |q| + 1 + Rank(me, visited)
             || (visited == |q| && locks == |q| + 2 + Rank(me, visited))
    ensures forall t: nat ::
      On(QueuesFrom(env, 0, locks), t) == On(Others(q, me, |q|), t) + On(Others(q, me, visited), t)
  {
    hide QueuesFrom, Others, On, Quiet;
    QuietFirst(env, q, me, |q|);
    var later := QuietLater(env, q, me, visited, locks);
    TwoParts(env, |q|, locks, Others(q, me, |q|), later);
  }

  lemma TwoParts(env: nat -> Change, n: nat, locks: nat, first: seq<nat>, later: seq<nat>)
    requires n <= locks && QueuesFrom(env, 0, n) == first && QueuesFrom(env, n, locks) == later
    ensures forall t: nat :: On(QueuesFrom(env, 0, locks), t) == On(first, t) + On(later, t)
  {
    hide QueuesFrom, On;
    JoinQueues([], env, 0, n, locks);
    assert first + later == [] + first + later == [] + QueuesFrom(env, 0, locks) == QueuesFrom(env, 0, locks);
    forall t: nat
      ensures On(QueuesFrom(env, 0, locks), t) == On(first, t) + On(later, t)
    {
      OnConcat(first, later, t);
    }
  }

  lemma {:induction false} QuietFirst(env: nat -> Change, q: seq<seq<nat>>, me: nat, n: nat)
    requires Quiet(env, q, me) && n <= |q|
    ensures QueuesFrom(env, 0, n) == Others(q, me, n)
  {
    if n > 0 {
      QuietFirst(env, q, me, n - 1);
    }
  }

  lemma QuietLater(env: nat -> Change, q: seq<seq<nat>>, me: nat, visited: nat, locks: nat) returns (later: seq<nat>)
    requires Quiet(env, q, me) && me < |q| && visited <= |q|
    requires || (visited == 0 && locks == |q|) || locks == |q| + 1 + Rank(me, visited)
             || (visited == |q| && locks == |q| + 2 + Rank(me, visited))
    ensures later == QueuesFrom(env, |q|, locks) == Others(q, me, visited)
  {
    hide QueuesFrom, Others;
    later := QueuesFrom(env, |q|, locks);
    NoQueues(env, |q|);
    NoOthers(q, me);
    if locks > |q| {
      QuietRound(env, q, me, visited);
      if locks == |q| + 2 + Rank(me, visited) {
        NextQueue(env, |q|, locks - 1);
        assert locks - 1 == 2 * |q|;
      }
    }
  }

  lemma {:induction false} QuietRound(env: nat -> Change, q: seq<seq<nat>>, me: nat, n: nat)
    requires Quiet(env, q, me) && me < |q| && n <= |q|
    ensures QueuesFrom(env, |q|, |q| + 1 + Rank(me, n)) == Others(q, me, n)
  {
    hide QueuesFrom, Others;
    if n == 0 {
      NoQueues(env, |q|);
      NoOthers(q, me);
      NextQueue(env, |q|, |q|);
    } else {
      QuietRound(env, q, me, n - 1);
      NextOther(q, me, n - 1);
      if n - 1 != me {
        NextQueue(env, |q|, |q| + 1 + Rank(me, n - 1));
        assert env(|q| + 1 + Rank(me, n - 1)).queue == q[n - 1];
      }
    }
  }

  lemma NextQueue(env: nat -> Change, a: nat, b: nat)
    requires a <= b
    ensures QueuesFrom(env, a, b + 1) == QueuesFrom(env, a, b) + env(b).queue
  {
  }

  lemma NextOther(q: seq<seq<nat>>, me: nat, i: nat)
    requires i < |q|
    ensures Others(q, me, i + 1) == Others(q, me, i) + if i == me then [] else q[i]
  {
  }

  lemma NotOn(list: seq<nat>, t: nat)
    ensures On(list, t) == 0 <==> t !in list
  {
  }

  /** All the queues in one. */
  function Joined(queues: seq<seq<nat>>): seq<nat> {
    if queues == [] then [] else Joined(queues[..|queues| - 1]) + queues[|queues| - 1]
  }

  lemma {:induction false} JoinedIs(queues: seq<seq<nat>>, t: nat)
    ensures |Joined(queues)| == Lengths(queues) && On(Joined(queues), t) == OnLists(queues, t)
    decreases |queues|
  {
    hide On;
    if queues == [] {
      OnNone(t);
    } else {
      var n := |queues| - 1;
      JoinedIs(queues[..n], t);
      OnConcat(Joined(queues[..n]), queues[n], t);
      OnListsSnoc(queues[..n], queues[n], t);
      assert queues == queues[..n] + [queues[n]];
    }
  }

  lemma {:induction false} OnListsSnoc(queues: seq<seq<nat>>, q: seq<nat>, t: nat)
    ensures OnLists(queues + [q], t) == OnLists(queues, t) + On(q, t)
    decreases |queues|
  {
    hide On;
    var all := queues + [q];
    if queues == [] {
      assert all[1..] == [];
    } else {
      OnListsSnoc(queues[1..], q, t);
      assert all[1..] == queues[1..] + [q];
    }
  }

  /** Queues with the same threads hold as many. */
  lemma SameLengths(a: seq<seq<nat>>, b: seq<seq<nat>>)
    requires forall t: nat :: OnLists(a, t) == OnLists(b, t)
    ensures Lengths(a) == Lengths(b)
  {
    forall t: nat
      ensures multiset(Joined(a))[t] == multiset(Joined(b))[t]
    {
      JoinedIs(a, t);
      JoinedIs(b, t);
    }
    JoinedIs(a, 0);
    JoinedIs(b, 0);
    hide Joined, OnLists, Lengths;
    assert multiset(Joined(a)) == multiset(Joined(b));
    assert |multiset(Joined(a))| == |Joined(a)| && |multiset(Joined(b))| == |Joined(b)|;
  }

  /** With a share on every queue and more on ours there are more threads than shares. */
  lemma {:induction false} AtLeast(queues: seq<seq<nat>>, share: nat, n: nat)
    requires n <= |queues| && forall j :: 0 <= j < n ==> |queues[j]| >= share
    ensures Lengths(queues[..n]) >= share * n
    decreases n
  {
    if n > 0 {
      AtLeast(queues, share, n - 1);
      assert queues[..n] == queues[..n - 1] + [queues[n - 1]];
      LengthsSnoc(queues[..n - 1], queues[n - 1]);
      assert share * n == share * (n - 1) + share;
    }
  }

  lemma TooMany(queues: seq<seq<nat>>, me: nat, share: nat)
    requires me < |queues| && |queues[me]| > share
    requires forall j :: 0 <= j < |queues| && j != me ==> |queues[j]| >= share
    ensures Lengths(queues) > share * |queues|
  {
    hide Lengths;
    var less := queues[me := queues[me][1..]];
    AtLeast(less, share, |less|);
    assert less[..|less|] == less;
    OneLess(queues, me);
  }

  lemma {:induction false} OneLess(queues: seq<seq<nat>>, me: nat)
    requires me < |queues| && queues[me] != []
    ensures Lengths(queues) == Lengths(queues[me := queues[me][1..]]) + 1
    decreases |queues|
  {
    var n := |queues| - 1;
    var less := queues[me := queues[me][1..]];
    if me == n {
      assert less[..n] == queues[..n];
    } else {
      assert less[..n] == queues[..n][me := queues[me][1..]];
      OneLess(queues[..n], me);
    }
  }

  /** The ledger closed: its entries cancel out of the count. */
  lemma Conserved(q0: seq<seq<nat>>, q: seq<seq<nat>>, came0: seq<nat>, came: seq<nat>, left0: seq<nat>, left: seq<nat>,
                  a: seq<nat>, b: seq<nat>, more: seq<nat>)
    requires came == came0 + more && left == left0 + a + b
    requires forall t: nat :: OnLists(q, t) + On(left, t) - On(came, t) == OnLists(q0, t) + On(left0, t) - On(came0, t)
    ensures forall t: nat :: OnLists(q, t) + On(a, t) + On(b, t) == OnLists(q0, t) + On(more, t)
  {
    hide OnLists, On;
    forall t: nat
      ensures OnLists(q, t) + On(a, t) + On(b, t) == OnLists(q0, t) + On(more, t)
    {
      OnConcat(came0, more, t);
      OnConcat(left0, a, t);
      OnConcat(left0 + a, b, t);
    }
  }

  /** Our queue keeps the current thread when the victims did. */
  lemma CurStays(q: seq<nat>, more: seq<nat>, n: nat, later: seq<nat>, back: seq<nat>, cur: nat)
    requires n <= |q| && var own := q + more; On(back, cur) == On(own[|own| - n..], cur)
    ensures var own := q + more; On(own[..|own| - n] + later + back, cur) >= On(q, cur)
    ensures On(back, cur) <= On(q, cur) + On(more, cur)
  {
    hide On;
    var own := q + more;
    var kept := own[..|own| - n];
    OnSplit(own, |own| - n, cur);
    OnConcat(q, more, cur);
    OnConcat(kept, later, cur);
    OnConcat(kept + later, back, cur);
  }

  lemma NoQueues(env: nat -> Change, a: nat)
    ensures QueuesFrom(env, a, a) == []
  {
  }

  lemma MoreQueues(came: seq<nat>, env: nat -> Change, a: nat, b: nat)
    requires a <= b
    ensures came + QueuesFrom(env, a, b) + env(b).queue == came + QueuesFrom(env, a, b + 1)
  {
  }

  lemma {:induction false} JoinQueues(came: seq<nat>, env: nat -> Change, a: nat, b: nat, c: nat)
    requires a <= b <= c
    ensures came + QueuesFrom(env, a, b) + QueuesFrom(env, b, c) == came + QueuesFrom(env, a, c)
    decreases c - b
  {
    hide QueuesFrom;
    NoQueues(env, b);
    if b < c {
      JoinQueues(came, env, a, b, c - 1);
      MoreQueues(came, env, a, c - 1);
      MoreQueues(came + QueuesFrom(env, a, b), env, b, c - 1);
    }
  }

  lemma NoOthers(queues: seq<seq<nat>>, me: nat)
    ensures Others(queues, me, 0) == []
  {
  }

  lemma MoreOthers(left: seq<nat>, queues: seq<seq<nat>>, me: nat, i: nat)
    requires i < |queues|
    ensures left + Others(queues, me, i) + (if i == me then [] else queues[i]) == left + Others(queues, me, i + 1)
  {
  }

  lemma {:induction false} SameOthers(p: seq<seq<nat>>, q: seq<seq<nat>>, me: nat, n: nat)
    requires n <= |p| == |q| && forall j :: 0 <= j < |p| && j != me ==> p[j] == q[j]
    ensures Others(p, me, n) == Others(q, me, n)
  {
    if n > 0 {
      SameOthers(p, q, me, n - 1);
    }
  }

  /** Each of the first `visited` queues, ours left out, is the one found at its lock; the
      others are as before. */
  ghost predicate SeenAs(seen: seq<seq<nat>>, before: seq<seq<nat>>, env: nat -> Change, locks: nat, me: nat, visited: nat) {
    && |seen| == |before|
    && forall j :: 0 <= j < |seen| && j != me ==>
         seen[j] == if j < visited then env(locks + Rank(me, j)).queue else before[j]
  }

  lemma NothingSeen(q: seq<seq<nat>>, tcpu: map<nat, nat>, env: nat -> Change, locks: nat, me: nat, oneShare: nat)
    ensures SeenAs(q, q, env, locks, me, 0) && AllFilled(q, q, me, oneShare, 0)
    ensures OnlyGiven(tcpu, tcpu, {}) && AllHomed(q, q, tcpu, me, {})
  {
  }

  lemma SeeNext(seen: seq<seq<nat>>, before: seq<seq<nat>>, env: nat -> Change, locks: nat, me: nat, i: nat)
    requires i < |before| && i != me && SeenAs(seen, before, env, locks, me, i)
    ensures |seen| == |before| && seen[i] == before[i]
    ensures SeenAs(seen[i := env(locks + Rank(me, i)).queue], before, env, locks, me, i + 1)
  {
  }

  /** The first n queues, ours left out, have at least a share. */
  ghost predicate AllShares(runq: seq<seq<nat>>, me: nat, oneShare: nat, n: nat) {
    n <= |runq| && forall j :: 0 <= j < n && j != me ==> |runq[j]| >= oneShare
  }

  lemma NoShares(runq: seq<seq<nat>>, me: nat, oneShare: nat)
    ensures AllShares(runq, me, oneShare, 0)
  {
  }

  lemma NextShare(before: seq<seq<nat>>, after: seq<seq<nat>>, me: nat, oneShare: nat, i: nat)
    requires i < |before| == |after| && (forall j :: 0 <= j < |before| && j != i ==> after[j] == before[j])
    ensures AllShares(before, me, oneShare, i) && (i == me || |after[i]| >= oneShare) ==> AllShares(after, me, oneShare, i + 1)
  {
  }

  lemma SharesMean(runq: seq<seq<nat>>, me: nat, oneShare: nat)
    ensures AllShares(runq, me, oneShare, |runq|) <==> forall j :: 0 <= j < |runq| && j != me ==> |runq[j]| >= oneShare
  {
  }

  lemma PassOver(seen: seq<seq<nat>>, before: seq<seq<nat>>, runq: seq<seq<nat>>, env: nat -> Change, locks: nat, me: nat,
                 oneShare: nat)
    requires me < |before| && SeenAs(seen, before, env, locks, me, me) && AllFilled(seen, runq, me, oneShare, me)
    ensures SeenAs(seen, before, env, locks, me, me + 1)
    ensures |runq| == |before| && AllFilled(seen, runq, me, oneShare, me + 1)
  {
  }

  lemma SeenOf(seen: seq<seq<nat>>, p: seq<seq<nat>>, q: seq<seq<nat>>, env: nat -> Change, locks: nat, me: nat, visited: nat)
    requires |p| == |q| && (forall j :: 0 <= j < |p| && j != me ==> p[j] == q[j]) && SeenAs(seen, p, env, locks, me, visited)
    ensures SeenAs(seen, q, env, locks, me, visited)
  {
  }

  lemma OthersFilled(seen: seq<seq<nat>>, q: seq<seq<nat>>, runq: seq<seq<nat>>, me: nat, oneShare: nat)
    requires AllFilled(seen, q, me, oneShare, |q|)
    requires |runq| == |q| && (forall j :: 0 <= j < |runq| && j != me ==> runq[j] == q[j])
    ensures AllFilled(seen, runq, me, oneShare, |runq|)
  {
  }

  /** Behind the first n there is only the current thread. */
  ghost predicate OnlyCur(victims: seq<nat>, n: nat, cur: nat) {
    n <= |victims| && forall i :: n <= i < |victims| ==> victims[i] == cur
  }

  lemma NoneKept(victims: seq<nat>, n: nat, cur: nat)
    requires OnlyCur(victims, n, cur)
    ensures cur !in victims ==> |victims| == n
  {
    if |victims| > n {
      assert victims[n] == cur;
    }
  }

  lemma AllToSend(victims: seq<nat>, cur: nat)
    ensures OnlyCur(victims, |victims|, cur)
  {
  }

  lemma NoneToSend(cur: nat)
    ensures OnlyCur([], 0, cur)
  {
  }

  /** Queue `after` is `before` with threads added up to one share. */
  ghost predicate Filled(before: seq<nat>, after: seq<nat>, oneShare: nat) {
    before <= after && |after| <= if |before| >= oneShare then |before| else oneShare
  }

  /** Exactly the t_cpu fields of `given` were set, to i. */
  ghost predicate Assigned(before: map<nat, nat>, after: map<nat, nat>, given: set<nat>, i: nat) {
    && OnlyGiven(before, after, given)
    && forall t :: t in given ==> t in after && after[t] == i
  }

  ghost predicate OnlyGiven(before: map<nat, nat>, after: map<nat, nat>, given: set<nat>) {
    && (forall t :: t in before && t !in given ==> t in after && after[t] == before[t])
    && (forall t :: t in after && t !in given ==> t in before)
  }

  /** The first n queues were filled, the others are untouched. */
  ghost predicate AllFilled(seen: seq<seq<nat>>, runq: seq<seq<nat>>, me: nat, oneShare: nat, n: nat) {
    && |seen| == |runq| && n <= |runq|
    && (forall j :: 0 <= j < n && j != me ==> Filled(seen[j], runq[j], oneShare))
    && (forall j :: n <= j < |runq| && j != me ==> seen[j] == runq[j])
  }

  /** t is among the threads that queue j got from us. */
  ghost predicate GotBy(seen: seq<seq<nat>>, runq: seq<seq<nat>>, j: nat, t: nat) {
    j < |seen| && j < |runq| && |seen[j]| <= |runq[j]| && t in runq[j][|seen[j]|..]
  }

  /** The threads handed out are the ones the other queues got, and each one's
      t_cpu names another CPU whose queue got it. */
  ghost predicate AllHomed(seen: seq<seq<nat>>, runq: seq<seq<nat>>, tcpu: map<nat, nat>, me: nat, given: set<nat>) {
    && (forall t :: t in given ==> t in tcpu && tcpu[t] != me && GotBy(seen, runq, tcpu[t], t))
    && (forall j, t :: j != me && GotBy(seen, runq, j, t) ==> t in given)
  }

  lemma Grew(a: seq<nat>, b: seq<nat>, t: nat)
    requires a <= b
    ensures On(b, t) >= On(a, t)
  {
    hide On;
    assert b == a + b[|a|..];
    OnConcat(a, b[|a|..], t);
  }

  lemma NoneLeft()
    ensures forall t: nat :: On([], t) == 0
  {
  }

  /** AllHomed does not look at our own queue. */
  lemma OthersHomed(seen: seq<seq<nat>>, q: seq<seq<nat>>, runq: seq<seq<nat>>, tcpu: map<nat, nat>, me: nat, given: set<nat>)
    requires AllHomed(seen, q, tcpu, me, given)
    requires |runq| == |q| && (forall j :: 0 <= j < |runq| && j != me ==> runq[j] == q[j])
    ensures AllHomed(seen, runq, tcpu, me, given)
  {
    forall t | t in given
      ensures t in tcpu && tcpu[t] != me && GotBy(seen, runq, tcpu[t], t)
    {
      assert GotBy(seen, q, tcpu[t], t);
    }
    forall j: nat, t: nat | j != me && GotBy(seen, runq, j, t)
      ensures t in given
    {
      assert GotBy(seen, q, j, t);
    }
  }

  lemma LastFilled(seen: seq<seq<nat>>, runq: seq<seq<nat>>, me: nat, oneShare: nat, n: nat)
    requires AllFilled(seen, runq, me, oneShare, n)
    ensures AllFilled(seen, runq, me, oneShare, |runq|)
  {
  }

  /** Queue i, found as q, was filled after the earlier ones. */
  lemma StepFilled(seen: seq<seq<nat>>, runq0: seq<seq<nat>>, q: seq<nat>, runq: seq<seq<nat>>, me: nat, i: nat,
                   oneShare: nat)
    requires i < |runq0| && AllFilled(seen, runq0, me, oneShare, i)
    requires |runq| == |runq0| && (forall j :: 0 <= j < |runq| && j != i ==> runq[j] == runq0[j])
    requires Filled(q, runq[i], oneShare)
    ensures AllFilled(seen[i := q], runq, me, oneShare, i + 1)
  {
    hide Filled;
  }

  lemma StepHomed(seen: seq<seq<nat>>, runq0: seq<seq<nat>>, q: seq<nat>, runq: seq<seq<nat>>,
                  c0: map<nat, nat>, c1: map<nat, nat>, c2: map<nat, nat>, me: nat, i: nat, given: set<nat>, more: set<nat>)
    requires i < |runq0| == |seen| && i != me && seen[i] == runq0[i]
    requires |runq| == |runq0| && (forall j :: 0 <= j < |runq| && j != i ==> runq[j] == runq0[j])
    requires |q| <= |runq[i]| && (forall t :: t in more <==> t in runq[i][|q|..])
    requires OnlyGiven(c0, c1, given) && Assigned(c1, c2, more, i)
    requires AllHomed(seen, runq0, c1, me, given)
    ensures OnlyGiven(c0, c2, given + more)
    ensures AllHomed(seen[i := q], runq, c2, me, given + more)
  {
    forall t | t in given + more
      ensures t in c2 && c2[t] != me && GotBy(seen[i := q], runq, c2[t], t)
    {
      if t !in more {
        assert GotBy(seen, runq0, c1[t], t);
      }
    }
    ghost var now := seen[i := q];
    forall j: nat, t: nat | j != me && GotBy(now, runq, j, t)
      ensures t in given + more
    {
      if j != i {
        assert GotBy(seen, runq0, j, t);
      }
    }
  }

  /** Rotating the victims changes no count and no member. */
  lemma Rotated(v: seq<nat>)
    requires v != []
    ensures forall t: nat :: On(v[1..] + [v[0]], t) == On(v, t)
    ensures forall t :: t in v[1..] + [v[0]] ==> t in v
  {
    hide On;
    forall t: nat
      ensures On(v[1..] + [v[0]], t) == On(v, t)
    {
      OnFirst(v, t);
      OnAppend(v[1..], v[0], t);
    }
  }

  /** Moving the first victim to queue i keeps the total. */
  lemma Handed(q: seq<seq<nat>>, i: nat, v: seq<nat>)
    requires v != [] && i < |q|
    ensures forall t: nat :: OnLists(q[i := q[i] + [v[0]]], t) + On(v[1..], t) == OnLists(q, t) + On(v, t)
  {
    hide On, OnLists;
    forall t: nat
      ensures OnLists(q[i := q[i] + [v[0]]], t) + On(v[1..], t) == OnLists(q, t) + On(v, t)
    {
      OnListsAt(q, i, q[i] + [v[0]], t);
      OnAppend(q[i], v[0], t);
      OnFirst(v, t);
    }
  }
}
