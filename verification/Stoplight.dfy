/** The four-quadrant intersection: cars as threads over four sleep locks and
    one counting semaphore, interleaved in any way. */
module Stoplight {
  import opened Counting
  import opened Options

  datatype Turn = Straight | Left | Right
  datatype Op = P | V | Acquire(quadrant: nat) | Release(quadrant: nat) | Enter(quadrant: nat) | Leave
  datatype Owner = Free | Held(car: nat)

  /** What the thread of a car from direction d does: Enter is inQuadrant, Leave is
      leaveIntersection. */
  function Program(turn: Turn, d: nat): seq<Op>
  {
    match turn
    case Straight =>
      [P, Acquire(d), Enter(d), Acquire((d + 3) % 4), Enter((d + 3) % 4), Release(d), Leave, Release((d + 3) % 4), V]
    case Left =>
      [P, Acquire(d), Enter(d), Acquire((d + 3) % 4), Enter((d + 3) % 4), Release(d),
       Acquire((d + 2) % 4), Enter((d + 2) % 4), Release((d + 3) % 4), Leave, Release((d + 2) % 4), V]
    case Right =>
      [P, Acquire(d), Enter(d), Leave, Release(d), V]
  }

  datatype Car = Car(turn: Turn, direction: nat, pc: nat)
  {
    function Code(): seq<Op>
    {
      Program(turn, direction)
    }

    predicate Valid()
    {
      direction < 4 && pc <= |Code()|
    }

    predicate Done()
    {
      pc == |Code()|
    }

    /** Past P and not yet past V. */
    predicate Inside()
    {
      1 <= pc < |Code()|
    }

    function Remaining(): int
    {
      |Code()| - pc
    }
  }

  /** quadlock[] and allow3sem, with the cars' program counters. */
  datatype State = State(cars: seq<Car>, locks: seq<Owner>, sem: nat)

  predicate Init(s: State)
  {
    && |s.locks| == 4 && s.sem == 3
    && (forall q :: 0 <= q < 4 ==> s.locks[q] == Free)
    && (forall c :: 0 <= c < |s.cars| ==> s.cars[c].Valid() && s.cars[c].pc == 0)
  }

  /** P blocks while the count is zero, lock_acquire while another car owns the lock. */
  predicate Enabled(s: State, c: nat)
    requires c < |s.cars| && |s.locks| == 4 && s.cars[c].Valid()
  {
    && !s.cars[c].Done()
    && match s.cars[c].Code()[s.cars[c].pc]
       case P => s.sem > 0
       case V => true
       case Acquire(q) => q < 4 && (s.locks[q] == Free || s.locks[q] == Held(c))
       case Release(q) => q < 4
       case Enter(_) => true
       case Leave => true
  }

  function Advance(s: State, c: nat): State
    requires c < |s.cars|
  {
    s.(cars := s.cars[c := s.cars[c].(pc := s.cars[c].pc + 1)])
  }

  /** One operation of car c; lock_release by a car that does not own the lock does nothing. */
  function Step(s: State, c: nat): State
    requires c < |s.cars| && |s.locks| == 4 && s.cars[c].Valid() && Enabled(s, c)
  {
    var t := Advance(s, c);
    match s.cars[c].Code()[s.cars[c].pc]
    case P => t.(sem := s.sem - 1)
    case V => t.(sem := s.sem + 1)
    case Acquire(q) => t.(locks := s.locks[q := Held(c)])
    case Release(q) => if s.locks[q] == Held(c) then t.(locks := s.locks[q := Free]) else t
    case Enter(_) => t
    case Leave => t
  }

  // ----- what a car holds

  /** The quadrants acquired and not released by the first k operations. */
  function HeldAfter(code: seq<Op>, k: nat): set<nat>
    requires k <= |code|
  {
    if k == 0 then {}
    else
      match code[k - 1]
      case Acquire(q) => HeldAfter(code, k - 1) + {q}
      case Release(q) => HeldAfter(code, k - 1) - {q}
      case _ => HeldAfter(code, k - 1)
  }

  function Quadrants(c: Car): set<nat>
    requires c.Valid()
  {
    HeldAfter(c.Code(), c.pc)
  }

  function InsideCars(cars: seq<Car>): set<nat>
  {
    set c: nat | c < |cars| && cars[c].Inside()
  }

  ghost predicate Inv(s: State)
  {
    && |s.locks| == 4
    && (forall c :: 0 <= c < |s.cars| ==> s.cars[c].Valid())
    && (forall c, q :: 0 <= c < |s.cars| && 0 <= q < 4 ==>
          (s.locks[q] == Held(c) <==> q in Quadrants(s.cars[c])))
    && (forall q :: 0 <= q < 4 && s.locks[q].Held? ==> s.locks[q].car < |s.cars|)
    && |InsideCars(s.cars)| + s.sem == 3
  }

  // ----- safety

  /** Only the first operation is P and only the last is V. */
  lemma CodeShape(turn: Turn, d: nat, k: nat)
    requires d < 4 && k < |Program(turn, d)|
    ensures Program(turn, d)[k] == P <==> k == 0
    ensures Program(turn, d)[k] == V <==> k == |Program(turn, d)| - 1
    ensures Program(turn, d)[k].Acquire? ==> Program(turn, d)[k].quadrant < 4
    ensures Program(turn, d)[k].Release? ==> Program(turn, d)[k].quadrant < 4
  {
    var code := Program(turn, d);
    assert k < 6 || k == 6 || k == 7 || k == 8 || k == 9 || k == 10 || k == 11;
    assert k == 0 || k == 1 || k == 2 || k == 3 || k == 4 || k >= 5;
  }

  lemma InitInv(s: State)
    requires Init(s)
    ensures Inv(s)
  {
    assert InsideCars(s.cars) == {};
  }

  /** Only car c can have come in or gone out. */
  lemma InsideAt(cars: seq<Car>, c: nat, car: Car)
    requires c < |cars|
    ensures InsideCars(cars[c := car]) - {c} == InsideCars(cars) - {c}
    ensures c in InsideCars(cars) <==> cars[c].Inside()
    ensures c in InsideCars(cars[c := car]) <==> car.Inside()
  {
  }

  lemma SizeBut(before: set<nat>, after: set<nat>, c: nat)
    requires after - {c} == before - {c}
    ensures |after| == |before| + (if c in after then 1 else 0) - (if c in before then 1 else 0)
  {
    assert c in before ==> before == before - {c} + {c};
    assert c in after ==> after == after - {c} + {c};
    assert c !in before ==> before == before - {c};
    assert c !in after ==> after == after - {c};
  }

  lemma InsideStep(s: State, c: nat)
    requires c < |s.cars| && s.cars[c].Valid() && !s.cars[c].Done()
    ensures var before, after := InsideCars(s.cars), InsideCars(Advance(s, c).cars);
            var op := s.cars[c].Code()[s.cars[c].pc];
            |after| == |before| + (if op == P then 1 else if op == V then -1 else 0)
  {
    var car := s.cars[c];
    CodeShape(car.turn, car.direction, car.pc);
    hide Program;
    var before, after := InsideCars(s.cars), InsideCars(Advance(s, c).cars);
    var op := car.Code()[car.pc];
    assert (op == P <==> !car.Inside()) && (op == V <==> !car.(pc := car.pc + 1).Inside());
    InsideAt(s.cars, c, car.(pc := car.pc + 1));
    hide *;
    SizeBut(before, after, c);
  }

  lemma StepInv(s: State, c: nat)
    requires Inv(s) && c < |s.cars| && Enabled(s, c)
    ensures Inv(Step(s, c))
  {
    InsideStep(s, c);
    OperationsKnown(s.cars[c]);
    LocksStep(s, c);
  }

  lemma OperationsKnown(car: Car)
    requires car.Valid() && !car.Done()
    ensures car.(pc := car.pc + 1).Valid()
    ensures var op := car.Code()[car.pc];
            var after := Quadrants(car.(pc := car.pc + 1));
            after == if op.Acquire? then Quadrants(car) + {op.quadrant}
                     else if op.Release? then Quadrants(car) - {op.quadrant}
                     else Quadrants(car)
  {
  }

  lemma LocksStep(s: State, c: nat)
    requires Inv(s) && c < |s.cars| && Enabled(s, c)
    ensures var t := Step(s, c);
            forall c', q :: 0 <= c' < |t.cars| && 0 <= q < 4 ==>
              t.cars[c'].Valid() && (t.locks[q] == Held(c') <==> q in Quadrants(t.cars[c']))
  {
    var t, op := Step(s, c), s.cars[c].Code()[s.cars[c].pc];
    StepShape(s, c);
    OperationsKnown(s.cars[c]);
    hide Step, Enabled, Program, HeldAfter, Quadrants, InsideCars;
    forall c', q | 0 <= c' < |t.cars| && 0 <= q < 4
      ensures t.cars[c'].Valid() && (t.locks[q] == Held(c') <==> q in Quadrants(t.cars[c']))
    {
      assert s.locks[q] == Held(c') <==> q in Quadrants(s.cars[c']);
      if c' != c {
        assert t.cars[c'] == s.cars[c'];
      }
    }
  }

  lemma StepShape(s: State, c: nat)
    requires |s.locks| == 4 && c < |s.cars| && s.cars[c].Valid() && Enabled(s, c)
    ensures var t, op := Step(s, c), s.cars[c].Code()[s.cars[c].pc];
            && t.cars == s.cars[c := s.cars[c].(pc := s.cars[c].pc + 1)]
            && (op.Acquire? || op.Release? ==> op.quadrant < 4)
            && t.locks == (if op.Acquire? then s.locks[op.quadrant := Held(c)]
                           else if op.Release? && s.locks[op.quadrant] == Held(c) then s.locks[op.quadrant := Free]
                           else s.locks)
            && (op.Acquire? ==> s.locks[op.quadrant] == Free || s.locks[op.quadrant] == Held(c))
  {
    hide Program;
  }

  /** A quadrant is never held by two cars. */
  lemma Exclusion(s: State, c1: nat, c2: nat, q: nat)
    requires Inv(s) && c1 < |s.cars| && c2 < |s.cars| && q < 4
    requires q in Quadrants(s.cars[c1]) && q in Quadrants(s.cars[c2])
    ensures c1 == c2
  {
    assert s.locks[q] == Held(c1) && s.locks[q] == Held(c2);
  }

  // ----- progress

  /** A car about to acquire holds nothing, or just the quadrant after the one it wants. */
  lemma WantsNext(c: Car)
    requires c.Valid() && !c.Done() && c.Code()[c.pc].Acquire?
    ensures Quadrants(c) == {} || Quadrants(c) == {(c.Code()[c.pc].quadrant + 1) % 4}
  {
    var d := c.direction;
    HeldThroughout(c.turn, d);
    hide HeldAfter;
  }

  /** What a car holds, and where it is, at each point of its program. */
  lemma HeldThroughout(turn: Turn, d: nat)
    requires d < 4
    ensures var code, e, f := Program(turn, d), (d + 3) % 4, (d + 2) % 4;
            && HeldAfter(code, 0) == HeldAfter(code, 1) == {} && HeldAfter(code, 2) == HeldAfter(code, 3) == {d}
            && (turn == Right ==> HeldAfter(code, 4) == {d} && HeldAfter(code, 5) == HeldAfter(code, 6) == {})
            && (turn != Right ==>
                  HeldAfter(code, 4) == HeldAfter(code, 5) == {d, e} && HeldAfter(code, 6) == {e})
            && (turn == Straight ==> HeldAfter(code, 7) == {e} && HeldAfter(code, 8) == HeldAfter(code, 9) == {})
            && (turn == Left ==>
                  && HeldAfter(code, 7) == HeldAfter(code, 8) == {e, f}
                  && HeldAfter(code, 9) == HeldAfter(code, 10) == {f}
                  && HeldAfter(code, 11) == HeldAfter(code, 12) == {})
  {
    var code, e, f := Program(turn, d), (d + 3) % 4, (d + 2) % 4;
    assert HeldAfter(code, 1) == {};
    assert HeldAfter(code, 2) == {d};
    assert HeldAfter(code, 3) == {d};
    if turn != Right {
      assert HeldAfter(code, 4) == {d, e};
      assert HeldAfter(code, 5) == {d, e};
      assert HeldAfter(code, 6) == {e};
    }
    if turn == Left {
      assert HeldAfter(code, 7) == {e, f};
      assert HeldAfter(code, 8) == {e, f};
      assert HeldAfter(code, 9) == {f};
      assert HeldAfter(code, 10) == {f};
    }
  }

  lemma HoldsOnlyInside(c: Car, q: nat)
    requires c.Valid() && q in Quadrants(c)
    ensures c.Inside()
  {
    FinishedHoldsNothing(c.turn, c.direction);
  }

  lemma FinishedHoldsNothing(turn: Turn, d: nat)
    requires d < 4
    ensures HeldAfter(Program(turn, d), |Program(turn, d)|) == {}
  {
    HeldThroughout(turn, d);
    hide HeldAfter;
  }

  // ----- where a car is

  /** The quadrant a car is in after k operations of its program. */
  function PositionAfter(code: seq<Op>, k: nat): Option<nat>
    requires k <= |code|
  {
    if k == 0 then None
    else
      match code[k - 1]
      case Enter(q) => Some(q)
      case Leave => None
      case _ => PositionAfter(code, k - 1)
  }

  function Position(c: Car): Option<nat>
    requires c.Valid()
  {
    PositionAfter(c.Code(), c.pc)
  }

  /** The quadrants entered by the first k operations, in order. */
  function EnteredAfter(code: seq<Op>, k: nat): seq<nat>
    requires k <= |code|
  {
    if k == 0 then []
    else EnteredAfter(code, k - 1) + if code[k - 1].Enter? then [code[k - 1].quadrant] else []
  }

  /** A car drives from its own quadrant on to the one before it, one quadrant for a right
      turn, two straight on, three for a left turn, and then it is out. */
  lemma Drives(turn: Turn, d: nat)
    requires d < 4
    ensures var path := EnteredAfter(Program(turn, d), |Program(turn, d)|);
            && |path| == (match turn case Right => 1 case Straight => 2 case Left => 3)
            && path[0] == d && forall i :: 0 <= i < |path| - 1 ==> path[i + 1] == (path[i] + 3) % 4
    ensures PositionAfter(Program(turn, d), |Program(turn, d)|) == None
  {
    EnteredThroughout(turn, d);
    PositionsThroughout(turn, d);
    hide EnteredAfter, PositionAfter;
  }

  lemma EnteredThroughout(turn: Turn, d: nat)
    requires d < 4
    ensures var code, e, f := Program(turn, d), (d + 3) % 4, (d + 2) % 4;
            && (turn == Right ==> EnteredAfter(code, 6) == [d])
            && (turn == Straight ==> EnteredAfter(code, 9) == [d, e])
            && (turn == Left ==> EnteredAfter(code, 12) == [d, e, f])
  {
    var code, e, f := Program(turn, d), (d + 3) % 4, (d + 2) % 4;
    assert EnteredAfter(code, 1) == [];
    assert EnteredAfter(code, 2) == [];
    assert EnteredAfter(code, 3) == [d];
    if turn == Right {
      assert EnteredAfter(code, 5) == [d];
    } else {
      assert EnteredAfter(code, 4) == [d];
      assert EnteredAfter(code, 5) == [d, e];
      assert EnteredAfter(code, 7) == [d, e];
    }
    if turn == Left {
      assert EnteredAfter(code, 8) == [d, e, f];
      assert EnteredAfter(code, 10) == [d, e, f];
    }
  }

  lemma PositionsThroughout(turn: Turn, d: nat)
    requires d < 4
    ensures var code, e, f := Program(turn, d), (d + 3) % 4, (d + 2) % 4;
            && PositionAfter(code, 0) == PositionAfter(code, 1) == PositionAfter(code, 2) == None
            && PositionAfter(code, 3) == Some(d)
            && (turn == Right ==> PositionAfter(code, 4) == PositionAfter(code, 5) == PositionAfter(code, 6) == None)
            && (turn != Right ==>
                  PositionAfter(code, 4) == Some(d) && PositionAfter(code, 5) == PositionAfter(code, 6) == Some(e))
            && (turn == Straight ==> PositionAfter(code, 7) == PositionAfter(code, 8) == PositionAfter(code, 9) == None)
            && (turn == Left ==>
                  && PositionAfter(code, 7) == Some(e) && PositionAfter(code, 8) == PositionAfter(code, 9) == Some(f)
                  && PositionAfter(code, 10) == PositionAfter(code, 11) == PositionAfter(code, 12) == None)
  {
    var code, e, f := Program(turn, d), (d + 3) % 4, (d + 2) % 4;
    assert PositionAfter(code, 1) == None;
    assert PositionAfter(code, 2) == None;
    assert PositionAfter(code, 3) == Some(d);
    assert PositionAfter(code, 4) == if turn == Right then None else Some(d);
    assert PositionAfter(code, 5) == if turn == Right then None else Some(e);
    assert PositionAfter(code, 6) == if turn == Right then None else Some(e);
    if turn != Right {
      assert PositionAfter(code, 7) == if turn == Straight then None else Some(e);
      assert PositionAfter(code, 8) == if turn == Straight then None else Some(f);
      assert PositionAfter(code, 9) == if turn == Straight then None else Some(f);
    }
    if turn == Left {
      assert PositionAfter(code, 10) == None;
      assert PositionAfter(code, 11) == None;
    }
  }

  /** A car is only in a quadrant that it holds. */
  lemma InHeldQuadrant(c: Car)
    requires c.Valid()
    ensures Position(c).Some? ==> Position(c).value in Quadrants(c)
  {
    HeldThroughout(c.turn, c.direction);
    PositionsThroughout(c.turn, c.direction);
    hide HeldAfter, PositionAfter;
  }

  /** In no state of a run are two cars in one quadrant. */
  lemma NoCollision(run: seq<State>, schedule: seq<nat>, i: nat, c1: nat, c2: nat)
    requires IsRun(run, schedule) && i < |run| && c1 < |run[i].cars| && c2 < |run[i].cars|
    ensures run[i].cars[c1].Valid() && run[i].cars[c2].Valid()
    ensures c1 != c2 && Position(run[i].cars[c1]).Some? ==> Position(run[i].cars[c1]) != Position(run[i].cars[c2])
  {
    hide Program, HeldAfter, PositionAfter, IsRun, Quadrants, Position;
    RunShape(run, schedule);
    RunInv(run, schedule, i);
    var a, b := run[i].cars[c1], run[i].cars[c2];
    InHeldQuadrant(a);
    InHeldQuadrant(b);
    if Position(a).Some? && Position(a) == Position(b) {
      HeldQuadrantExists(a, Position(a).value);
      Exclusion(run[i], c1, c2, Position(a).value);
    }
  }

  lemma RunShape(run: seq<State>, schedule: seq<nat>)
    requires IsRun(run, schedule)
    ensures |run| == |schedule| + 1
  {
  }

  lemma HeldQuadrantExists(c: Car, q: nat)
    requires c.Valid() && q in Quadrants(c)
    ensures q < 4
  {
    HeldThroughout(c.turn, c.direction);
    hide HeldAfter;
  }

  /** No car can step. */
  ghost predicate Stuck(s: State)
  {
    forall c :: 0 <= c < |s.cars| && |s.locks| == 4 && s.cars[c].Valid() ==> !Enabled(s, c)
  }

  /** If no car can step, a car inside waits for an owned quadrant. */
  lemma StuckInside(s: State, c: nat)
    requires Inv(s) && Stuck(s) && c < |s.cars| && s.cars[c].Inside()
    ensures var op := s.cars[c].Code()[s.cars[c].pc];
            op.Acquire? && op.quadrant < 4 && s.locks[op.quadrant].Held?
  {
    var car := s.cars[c];
    CodeShape(car.turn, car.direction, car.pc);
    hide Program, Quadrants;
    assert car.Valid() && !Enabled(s, c);
  }

  /** If no car can step, the owner of a quadrant waits for the one before it. */
  lemma OwnerWaits(s: State, q: nat) returns (c: nat)
    requires Inv(s) && q < |s.locks| == 4 && s.locks[q].Held?
    requires Stuck(s)
    ensures c in InsideCars(s.cars) && s.cars[c].Valid() && Quadrants(s.cars[c]) == {q}
    ensures q == 0 ==> s.locks[3].Held?
    ensures q > 0 ==> s.locks[q - 1].Held?
  {
    hide Program, HeldAfter, Enabled, Stuck;
    c := s.locks[q].car;
    var car := s.cars[c];
    assert q in Quadrants(car);
    HoldsOnlyInside(car, q);
    StuckInside(s, c);
    WantsNext(car);
    PreviousQuadrant(car.Code()[car.pc].quadrant, q);
  }

  lemma PreviousQuadrant(r: nat, q: nat)
    requires r < 4 && (r + 1) % 4 == q
    ensures r == if q == 0 then 3 else q - 1
  {
  }

  /** No deadlock: while some car is unfinished, some car can step. A cycle of
      waiting needs the owners of all four quadrants inside, but only three are. */
  lemma Progress(s: State, unfinished: nat)
    requires Inv(s) && unfinished < |s.cars| && !s.cars[unfinished].Done()
    ensures !Stuck(s)
  {
    if Stuck(s) {
      assert |s.locks| == 4;
      hide *;
      var q := SomeOwned(s, unfinished);
      AllOwned(s, q);
      var c0 := OwnerWaits(s, 0);
      var c1 := OwnerWaits(s, 1);
      var c2 := OwnerWaits(s, 2);
      var c3 := OwnerWaits(s, 3);
      DifferentOwners(s.cars, c0, 0, c1, 1);
      DifferentOwners(s.cars, c0, 0, c2, 2);
      DifferentOwners(s.cars, c0, 0, c3, 3);
      DifferentOwners(s.cars, c1, 1, c2, 2);
      DifferentOwners(s.cars, c1, 1, c3, 3);
      DifferentOwners(s.cars, c2, 2, c3, 3);
      FourInside(InsideCars(s.cars), c0, c1, c2, c3);
      AtMostThree(s);
      assert false;
    }
  }

  lemma DifferentOwners(cars: seq<Car>, c: nat, p: nat, d: nat, q: nat)
    requires c < |cars| && cars[c].Valid() && Quadrants(cars[c]) == {p}
    requires d < |cars| && cars[d].Valid() && Quadrants(cars[d]) == {q} && p != q
    ensures c != d
  {
    hide Quadrants;
    assert p !in {q};
  }

  lemma AtMostThree(s: State)
    requires Inv(s)
    ensures |InsideCars(s.cars)| <= 3
  {
  }

  lemma AllOwned(s: State, q: nat)
    requires Inv(s) && q < |s.locks| == 4 && s.locks[q].Held?
    requires Stuck(s)
    ensures s.locks[0].Held? && s.locks[1].Held? && s.locks[2].Held? && s.locks[3].Held?
  {
    hide *;
    var c := OwnerWaits(s, q);
    c := OwnerWaits(s, if q == 0 then 3 else q - 1);
    c := OwnerWaits(s, if q <= 1 then q + 2 else q - 2);
  }

  lemma FourInside(inside: set<nat>, c0: nat, c1: nat, c2: nat, c3: nat)
    requires c0 in inside && c1 in inside && c2 in inside && c3 in inside
    requires c0 != c1 && c0 != c2 && c0 != c3 && c1 != c2 && c1 != c3 && c2 != c3
    ensures |inside| >= 4
  {
    var four := {c0, c1, c2, c3};
    assert |four| == 4;
    SubsetSize(four, inside);
  }

  lemma SomeOwned(s: State, unfinished: nat) returns (q: nat)
    requires Inv(s) && unfinished < |s.cars| && !s.cars[unfinished].Done()
    requires Stuck(s)
    ensures q < 4 && s.locks[q].Held?
  {
    assert !Enabled(s, unfinished);
    var c := unfinished;
    CodeShape(s.cars[c].turn, s.cars[c].direction, s.cars[c].pc);
    if s.cars[c].Code()[s.cars[c].pc] == P {
      assert s.sem == 0;
      assert InsideCars(s.cars) != {};
      c :| c in InsideCars(s.cars);
      CodeShape(s.cars[c].turn, s.cars[c].direction, s.cars[c].pc);
      assert !Enabled(s, c);
    }
    q := s.cars[c].Code()[s.cars[c].pc].quadrant;
  }

  // ----- whole runs

  ghost predicate IsRun(run: seq<State>, schedule: seq<nat>)
  {
    && |run| == |schedule| + 1 && Init(run[0])
    && (forall i :: 0 <= i < |schedule| ==> StepsTo(run[i], schedule[i], run[i + 1]))
  }

  ghost predicate StepsTo(s: State, c: nat, t: State)
  {
    && c < |s.cars| && |s.locks| == 4 && s.cars[c].Valid() && Enabled(s, c)
    && t == Step(s, c)
  }

  /** The operations left to all cars. */
  function Work(cars: seq<Car>): int
  {
    if cars == [] then 0 else cars[0].Remaining() + Work(cars[1..])
  }

  lemma {:induction false} WorkStep(cars: seq<Car>, c: nat)
    requires c < |cars|
    ensures Work(cars[c := cars[c].(pc := cars[c].pc + 1)]) == Work(cars) - 1
  {
    var cars' := cars[c := cars[c].(pc := cars[c].pc + 1)];
    if c == 0 {
      assert cars'[1..] == cars[1..];
    } else {
      assert cars'[1..] == cars[1..][c - 1 := cars[c].(pc := cars[c].pc + 1)];
      WorkStep(cars[1..], c - 1);
    }
  }

  lemma {:induction false} WorkBounds(cars: seq<Car>)
    requires forall c :: 0 <= c < |cars| ==> cars[c].Valid()
    ensures 0 <= Work(cars) <= 12 * |cars|
    ensures (forall c :: 0 <= c < |cars| ==> cars[c].Done()) <==> Work(cars) == 0
  {
    if cars != [] {
      WorkBounds(cars[1..]);
      assert 0 <= cars[0].Remaining() <= 12;
      if Work(cars) == 0 {
        assert cars[0].Done();
      }
    }
  }

  /** Every state of every run keeps the invariant and has used one operation per step. */
  lemma {:induction false} RunInv(run: seq<State>, schedule: seq<nat>, i: nat)
    requires IsRun(run, schedule) && i < |run|
    ensures Inv(run[i]) && |run[i].cars| == |run[0].cars|
    ensures Work(run[i].cars) == Work(run[0].cars) - i
  {
    hide Inv, Work, StepsTo, Init;
    if i == 0 {
      InitInv(run[0]);
    } else {
      RunInv(run, schedule, i - 1);
      RunStep(run[i - 1], schedule[i - 1], run[i]);
    }
  }

  lemma RunStep(s: State, c: nat, t: State)
    requires StepsTo(s, c, t) && Inv(s)
    ensures Inv(t) && |t.cars| == |s.cars| && Work(t.cars) == Work(s.cars) - 1
  {
    assert t.cars == s.cars[c := s.cars[c].(pc := s.cars[c].pc + 1)];
    hide Inv, Work, Step, Enabled;
    StepInv(s, c);
    WorkStep(s.cars, c);
  }

  /** Every run ends, and one that cannot go on has brought every car through,
      with all quadrants free and the semaphore back at 3. */
  lemma RunsFinish(run: seq<State>, schedule: seq<nat>)
    requires IsRun(run, schedule)
    ensures |schedule| <= 12 * |run[0].cars|
    ensures var last := run[|run| - 1];
            Stuck(last) ==>
              (forall c :: 0 <= c < |last.cars| ==> last.cars[c].Done()) &&
              last.locks == [Free, Free, Free, Free] && last.sem == 3
  {
    var last := run[|run| - 1];
    RunInv(run, schedule, |schedule|);
    RunInv(run, schedule, 0);
    WorkBounds(last.cars);
    WorkBounds(run[0].cars);
    if Stuck(last) {
      forall c | 0 <= c < |last.cars|
        ensures last.cars[c].Done()
      {
        if !last.cars[c].Done() {
          Progress(last, c);
          assert false;
        }
      }
      AllDone(last);
    }
  }

  lemma AllDone(s: State)
    requires Inv(s) && (forall c :: 0 <= c < |s.cars| ==> s.cars[c].Done())
    ensures s.locks == [Free, Free, Free, Free] && s.sem == 3
  {
    assert InsideCars(s.cars) == {};
    forall q | 0 <= q < 4
      ensures s.locks[q] == Free
    {
      if s.locks[q].Held? {
        HoldsOnlyInside(s.cars[s.locks[q].car], q);
        assert false;
      }
    }
  }
}
