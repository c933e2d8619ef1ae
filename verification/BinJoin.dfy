/** The steps of the hash-partitioned join as the engine runs them: rows go into one
    buffer per bin, and the buffers are appended to the bins' files whenever enough
    lines have gathered. */
module BinJoin {
  import opened HashJoin

  /** Each buffer appended to its file. */
  function Appended(disk: seq<seq<Row>>, more: seq<seq<Row>>): (r: seq<seq<Row>>)
    requires |disk| == |more|
    ensures |r| == |disk| && forall i :: 0 <= i < |disk| ==> r[i] == disk[i] + more[i]
  {
    seq(|disk|, i requires 0 <= i < |disk| => disk[i] + more[i])
  }

  function Empty(n: nat): (r: seq<seq<Row>>)
    ensures |r| == n && forall i :: 0 <= i < n ==> r[i] == []
  {
    seq(n, _ => [])
  }

  /** flushToDisk */
  method FlushToDisk(disk0: seq<seq<Row>>, buffers: seq<seq<Row>>) returns (disk: seq<seq<Row>>)
    requires |disk0| == |buffers|
    ensures disk == Appended(disk0, buffers)
  {
    disk := disk0;
    var i := 0;
    while i < |buffers|
      invariant 0 <= i <= |buffers| == |disk|
      invariant forall j :: 0 <= j < |disk| ==> disk[j] == if j < i then disk0[j] + buffers[j] else disk0[j]
    {
      disk := disk[i := disk[i] + buffers[i]];
      i := i + 1;
    }
  }

  /** Flushing the buffers early or late makes no difference to what is written. */
  lemma FlushEarly(disk0: seq<seq<Row>>, disk: seq<seq<Row>>, buffers: seq<seq<Row>>, all: seq<seq<Row>>)
    requires |disk0| == |disk| == |buffers| == |all| && Appended(disk, buffers) == Appended(disk0, all)
    ensures Appended(Appended(disk, buffers), Empty(|disk|)) == Appended(disk0, all)
  {
    var a := Appended(disk, buffers);
    var b := Appended(a, Empty(|disk|));
    assert forall i :: 0 <= i < |a| ==> b[i] == a[i] + [] == a[i];
    assert b == a;
  }

  /** One more row in a buffer is one more row of the whole. */
  lemma AddLine(disk0: seq<seq<Row>>, disk: seq<seq<Row>>, buffers: seq<seq<Row>>, all: seq<seq<Row>>, i: nat, r: Row)
    requires |disk0| == |disk| == |buffers| == |all| && i < |disk|
    requires Appended(disk, buffers) == Appended(disk0, all)
    ensures Appended(disk, buffers[i := buffers[i] + [r]]) == Appended(disk0, all[i := all[i] + [r]])
  {
    var a, b := Appended(disk, buffers), Appended(disk0, all);
    var a', b' := Appended(disk, buffers[i := buffers[i] + [r]]), Appended(disk0, all[i := all[i] + [r]]);
    forall j | 0 <= j < |disk|
      ensures a'[j] == b'[j]
    {
      assert a[j] == b[j];
      assert disk[i] + (buffers[i] + [r]) == (disk[i] + buffers[i]) + [r];
      assert disk0[i] + (all[i] + [r]) == (disk0[i] + all[i]) + [r];
    }
    assert a' == b';
  }

  // ------------------------------------------------------------ createBins

  /** Some row that passes has a key with a negative remainder. No bin has that number,
      so the exception ends the reading of the table. */
  predicate Stops(rows: seq<Row>, keep: Row -> bool, key: Row -> int, n: int)
    requires n > 0
  {
    rows != [] &&
    (Stops(rows[..|rows| - 1], keep, key, n) || (keep(rows[|rows| - 1]) && JavaMod(key(rows[|rows| - 1]), n) < 0))
  }

  /** The rows that pass and are read before the reading stops. */
  function Survivors(rows: seq<Row>, keep: Row -> bool, key: Row -> int, n: int): seq<Row>
    requires n > 0
  {
    if rows == [] then []
    else if Stops(rows, keep, key, n) then Survivors(rows[..|rows| - 1], keep, key, n)
    else Survivors(rows[..|rows| - 1], keep, key, n) + if keep(rows[|rows| - 1]) then [rows[|rows| - 1]] else []
  }

  lemma {:induction false} StopsForGood(rows: seq<Row>, i: nat, keep: Row -> bool, key: Row -> int, n: int)
    requires n > 0 && i <= |rows| && Stops(rows[..i], keep, key, n)
    ensures Stops(rows, keep, key, n) && Survivors(rows, keep, key, n) == Survivors(rows[..i], keep, key, n)
    decreases |rows| - i
  {
    if i == |rows| {
      assert rows[..i] == rows;
    } else {
      assert rows[..i + 1][..i] == rows[..i];
      StopsForGood(rows, i + 1, keep, key, n);
    }
  }

  lemma {:induction false} SurvivorsProper(rows: seq<Row>, keep: Row -> bool, key: Row -> int, n: int)
    requires n > 0
    ensures Proper(Survivors(rows, keep, key, n), key, n)
    ensures Kept(Survivors(rows, keep, key, n), keep) == Survivors(rows, keep, key, n)
    ensures !Stops(rows, keep, key, n) ==> Survivors(rows, keep, key, n) == Kept(rows, keep)
    decreases |rows|
  {
    hide JavaMod;
    if rows != [] {
      var m := |rows| - 1;
      SurvivorsProper(rows[..m], keep, key, n);
      var s := Survivors(rows[..m], keep, key, n);
      assert (s + [rows[m]])[..|s|] == s && s + [] == s;
    }
  }

  /** All rows that pass are binned if and only if no key among them has a negative
      remainder. */
  lemma {:induction false} AllSurvive(rows: seq<Row>, keep: Row -> bool, key: Row -> int, n: int)
    requires n > 0
    ensures |Survivors(rows, keep, key, n)| <= |Kept(rows, keep)|
    ensures Survivors(rows, keep, key, n) == Kept(rows, keep) <==> !Stops(rows, keep, key, n)
    ensures Stops(rows, keep, key, n) ==> |Survivors(rows, keep, key, n)| < |Kept(rows, keep)|
    decreases |rows|
  {
    hide JavaMod;
    if rows != [] {
      AllSurvive(rows[..|rows| - 1], keep, key, n);
    }
  }

  /** The rows binned are the rows that pass up to the first of them whose key has a
      negative remainder. */
  lemma {:induction false} SurvivorsPrefix(rows: seq<Row>, keep: Row -> bool, key: Row -> int, n: int)
    returns (j: nat)
    requires n > 0
    ensures j <= |rows| && Survivors(rows, keep, key, n) == Kept(rows[..j], keep)
    ensures forall i :: 0 <= i < j && keep(rows[i]) ==> JavaMod(key(rows[i]), n) >= 0
    ensures j < |rows| ==> keep(rows[j]) && JavaMod(key(rows[j]), n) < 0
    ensures Stops(rows, keep, key, n) <==> j < |rows|
    decreases |rows|
  {
    hide JavaMod;
    if rows == [] {
      j := 0;
    } else {
      var m := |rows| - 1;
      j := SurvivorsPrefix(rows[..m], keep, key, n);
      assert rows[..m][..j] == rows[..j];
      if j == m && !Stops(rows, keep, key, n) {
        j := |rows|;
        assert rows[..j] == rows;
      }
    }
  }

  /** One row with key -1: neither it nor the row behind it is binned. */
  lemma NegativeKeyLoses()
    ensures var rows := [["-1"], ["0"]];
            var keep := (r: Row) => true;
            var key := (r: Row) => if r == ["-1"] then -1 else 0;
            Survivors(rows, keep, key, 25) == [] && Kept(rows, keep) == rows
  {
    var rows: seq<Row> := [["-1"], ["0"]];
    var one: seq<Row> := [["-1"]];
    var keep := (r: Row) => true;
    var key := (r: Row) => if r == ["-1"] then -1 else 0;
    assert rows[..1] == one && one[..0] == [];
    assert JavaMod(-1, 25) == -1;
    assert Stops(one, keep, key, 25) && Survivors(one, keep, key, 25) == [];
    assert Kept(one, keep) == one;
  }

  /** createBins: the bins get the surviving rows by key, whatever the flush limit. */
  method CreateBins(rows: seq<Row>, keep: Row -> bool, key: Row -> int, n: int, limit: int, disk0: seq<seq<Row>>)
    returns (disk: seq<seq<Row>>)
    requires n > 0 && |disk0| == n
    ensures |disk| == n && disk == Appended(disk0, Partition(Survivors(rows, keep, key, n), key, n))
  {
    hide JavaMod, BinOf, Appended, Partition, Empty;
    var buffers := Empty(n);
    disk := disk0;
    ghost var all := Partition([], key, n);
    StartEmpty(disk0, key, n);
    var lines := 0;
    var i := 0;
    assert rows[..0] == [];
    while i < |rows|
      invariant 0 <= i <= |rows| && |disk| == |buffers| == |all| == n
      invariant !Stops(rows[..i], keep, key, n)
      invariant all == Partition(Survivors(rows[..i], keep, key, n), key, n)
      invariant Appended(disk, buffers) == Appended(disk0, all)
    {
      var s := rows[i];
      assert rows[..i + 1][..i] == rows[..i] && rows[..i + 1][i] == s;
      ghost var so := Survivors(rows[..i], keep, key, n);
      assert so + [] == so;
      if keep(s) {
        lines := lines + 1;
        var bin := JavaMod(key(s), n);
        if bin < 0 {
          StopsForGood(rows, i + 1, keep, key, n);
          break;
        }
        ModBelow(key(s), n);
        PartitionSnoc(Survivors(rows[..i], keep, key, n), s, key, n);
        AddLine(disk0, disk, buffers, all, bin, s);
        all := all[bin := all[bin] + [s]];
        buffers := buffers[bin := buffers[bin] + [s]];
        if lines > limit {
          FlushEarly(disk0, disk, buffers, all);
          disk := FlushToDisk(disk, buffers);
          buffers := Empty(n);
          lines := 0;
        }
      }
      i := i + 1;
    }
    assert i == |rows| ==> rows[..i] == rows;
    disk := FlushToDisk(disk, buffers);
  }

  lemma StartEmpty(disk0: seq<seq<Row>>, key: Row -> int, n: int)
    requires n > 0 && |disk0| == n
    ensures Appended(disk0, Empty(n)) == Appended(disk0, Partition([], key, n))
  {
  }

  // ------------------------------------------------------------ getInMemoryMap

  /** The rows with key k. */
  function Matching(c: seq<Row>, kc: Row -> int, k: int): seq<Row> {
    if c == [] then []
    else Matching(c[..|c| - 1], kc, k) + if kc(c[|c| - 1]) == k then [c[|c| - 1]] else []
  }

  function Looked(m: map<int, seq<Row>>, k: int): seq<Row> {
    if k in m then m[k] else []
  }

  /** getInMemoryMap: looking up a key gives the rows with that key, in order. */
  method InMemoryMap(rows: seq<Row>, keep: Row -> bool, key: Row -> int) returns (m: map<int, seq<Row>>)
    ensures forall k :: Looked(m, k) == Matching(Kept(rows, keep), key, k)
  {
    hide Matching, Kept, Looked;
    m := map[];
    var i := 0;
    NothingYet(rows[..0], keep, key);
    while i < |rows|
      invariant 0 <= i <= |rows|
      invariant forall k :: Looked(m, k) == Matching(Kept(rows[..i], keep), key, k)
    {
      var s := rows[i];
      KeptSnoc(rows, i, keep);
      if keep(s) {
        var k := key(s);
        LookedAdd(m, k, s);
        MatchingSnoc(Kept(rows[..i], keep), s, key);
        if k in m {
          m := m[k := m[k] + [s]];
        } else {
          m := m[k := [s]];
        }
      }
      i := i + 1;
    }
    assert rows[..i] == rows;
  }

  lemma NothingYet(none: seq<Row>, keep: Row -> bool, key: Row -> int)
    requires none == []
    ensures forall k :: Looked(map[], k) == Matching(Kept(none, keep), key, k)
  {
  }

  lemma LookedAdd(m: map<int, seq<Row>>, k: int, s: Row)
    ensures forall x :: Looked(m[k := (if k in m then m[k] + [s] else [s])], x) == Looked(m, x) + if k == x then [s] else []
  {
  }

  lemma KeptSnoc(rows: seq<Row>, i: nat, keep: Row -> bool)
    requires i < |rows|
    ensures Kept(rows[..i + 1], keep) == if keep(rows[i]) then Kept(rows[..i], keep) + [rows[i]] else Kept(rows[..i], keep)
  {
    assert rows[..i + 1][..i] == rows[..i];
  }

  lemma MatchingSnoc(c: seq<Row>, r: Row, kc: Row -> int)
    ensures forall k :: Matching(c + [r], kc, k) == Matching(c, kc, k) + if kc(r) == k then [r] else []
  {
    assert (c + [r])[..|c|] == c;
  }

  /** s joined with each of ts. */
  function JoinEach(s: Row, ts: seq<Row>): seq<Row> {
    if ts == [] then [] else JoinEach(s, ts[..|ts| - 1]) + [s + ts[|ts| - 1]]
  }

  /** Joining with the rows a lookup gives is joining with the table. */
  lemma {:induction false} LookupJoins(s: Row, k: int, c: seq<Row>, kc: Row -> int)
    ensures JoinEach(s, Matching(c, kc, k)) == JoinRow(s, k, c, kc)
    decreases |c|
  {
    if c != [] {
      var m := |c| - 1;
      LookupJoins(s, k, c[..m], kc);
      var ts := Matching(c[..m], kc, k);
      assert (ts + [c[m]])[..|ts|] == ts && ts + [] == ts;
    }
  }

  lemma {:induction false} JoinEachAt(s: Row, ts: seq<Row>)
    ensures |JoinEach(s, ts)| == |ts| && forall j :: 0 <= j < |ts| ==> JoinEach(s, ts)[j] == s + ts[j]
    decreases |ts|
  {
    if ts != [] {
      JoinEachAt(s, ts[..|ts| - 1]);
    }
  }

  // ------------------------------------------------------------ readlineNlookup, into the bins of the next key

  predicate All(r: Row) {
    true
  }

  /** The joined rows in front of the first whose next key has a negative remainder; the
      exception ends the reading there. */
  function Written(rows: seq<Row>, next: Row -> int, n: int): seq<Row>
    requires n > 0
  {
    Survivors(rows, All, next, n)
  }

  predicate Breaks(rows: seq<Row>, next: Row -> int, n: int)
    requires n > 0
  {
    Stops(rows, All, next, n)
  }

  lemma {:induction false} KeepAll(rows: seq<Row>, keep: Row -> bool)
    requires forall r: Row :: keep(r)
    ensures Kept(rows, keep) == rows
    decreases |rows|
  {
    if rows != [] {
      KeepAll(rows[..|rows| - 1], keep);
    }
  }

  lemma {:induction false} WrittenAll(rows: seq<Row>, next: Row -> int, n: int)
    requires n > 0
    ensures !Breaks(rows, next, n) <==> Proper(rows, next, n)
    ensures Written(rows, next, n) == rows <==> Proper(rows, next, n)
    decreases |rows|
  {
    hide JavaMod, Survivors, Kept;
    AllSurvive(rows, All, next, n);
    KeepAll(rows, All);
    if rows != [] {
      var m := |rows| - 1;
      WrittenAll(rows[..m], next, n);
      assert rows == rows[..m] + [rows[m]];
    }
  }

  /** A joined row whose next key, its second column, is -1 is not written. */
  lemma NegativeNextKeyLoses(key: Row -> int, keyC: Row -> int, next: Row -> int)
    requires key(["7", "-1"]) == 7 && keyC(["7"]) == 7 && next(["7", "-1", "7"]) == -1
    ensures EquiJoin([["7", "-1"]], key, [["7"]], keyC) == [["7", "-1", "7"]]
    ensures Written(EquiJoin([["7", "-1"]], key, [["7"]], keyC), next, 25) == []
  {
    var t: seq<Row>, c: seq<Row> := [["7", "-1"]], [["7"]];
    assert t[..0] == [] && c[..0] == [];
    assert ["7", "-1"] + ["7"] == ["7", "-1", "7"];
    var joined := EquiJoin(t, key, c, keyC);
    assert joined == [["7", "-1", "7"]];
    assert JavaMod(-1, 25) == -1;
    var none := joined[..|joined| - 1];
    assert none == [] && Survivors(none, All, next, 25) == [];
    assert All(joined[0]) && Stops(joined, All, next, 25);
    assert Survivors(joined, All, next, 25) == Survivors(none, All, next, 25);
  }

  lemma WrittenOn(a: seq<Row>, r: Row, rest: seq<Row>, next: Row -> int, n: int)
    requires n > 0 && !Breaks(a, next, n)
    ensures Breaks(a + [r], next, n) <==> JavaMod(next(r), n) < 0
    ensures JavaMod(next(r), n) < 0 ==>
      Breaks(a + [r] + rest, next, n) && Written(a + [r] + rest, next, n) == a
  {
    hide JavaMod;
    assert (a + [r])[..|a|] == a;
    WrittenAll(a, next, n);
    if JavaMod(next(r), n) < 0 {
      var all := a + [r] + rest;
      assert all[..|a| + 1] == a + [r];
      StopsForGood(all, |a| + 1, All, next, n);
    }
  }

  lemma BreaksOn(a: seq<Row>, rest: seq<Row>, next: Row -> int, n: int)
    requires n > 0 && Breaks(a, next, n)
    ensures Breaks(a + rest, next, n) && Written(a + rest, next, n) == Written(a, next, n)
  {
    assert (a + rest)[..|a|] == a;
    StopsForGood(a + rest, |a|, All, next, n);
  }

  /** Writes s joined with each of ts into the buffers, up to a row without a bin. */
  method EmitRows(s: Row, ts: seq<Row>, next: Row -> int, n: int, buffers0: seq<seq<Row>>, lines0: nat,
                  ghost base: seq<seq<Row>>, ghost disk: seq<seq<Row>>, ghost done: seq<Row>)
    returns (buffers: seq<seq<Row>>, lines: nat, broke: bool)
    requires n > 0 && |base| == |disk| == |buffers0| == n && !Breaks(done, next, n)
    requires Appended(disk, buffers0) == Appended(base, Partition(done, next, n))
    ensures |buffers| == n && broke == Breaks(done + JoinEach(s, ts), next, n)
    ensures Appended(disk, buffers) == Appended(base, Partition(Written(done + JoinEach(s, ts), next, n), next, n))
  {
    hide JavaMod, BinOf, Appended, Partition, Breaks, Written, JoinEach;
    buffers, lines, broke := buffers0, lines0, false;
    ghost var now := done;
    var j := 0;
    NothingEmitted(s, ts[..0], done);
    while j < |ts|
      invariant 0 <= j <= |ts| && |buffers| == n && now == done + JoinEach(s, ts[..j]) && !Breaks(now, next, n)
      invariant Appended(disk, buffers) == Appended(base, Partition(now, next, n))
    {
      var r := s + ts[j];
      var bin := JavaMod(next(r), n);
      ghost var rest := JoinEachSplit(s, ts, j);
      assert done + JoinEach(s, ts) == now + [r] + rest;
      WrittenOn(now, r, rest, next, n);
      if bin < 0 {
        return buffers, lines, true;
      }
      ModBelow(next(r), n);
      PartitionSnoc(now, r, next, n);
      AddLine(base, disk, buffers, Partition(now, next, n), bin, r);
      buffers := buffers[bin := buffers[bin] + [r]];
      JoinEachSnoc(s, ts, j);
      assert done + JoinEach(s, ts[..j + 1]) == now + [r];
      now := now + [r];
      lines := lines + 1;
      j := j + 1;
    }
    assert ts[..j] == ts;
    WrittenAll(now, next, n);
  }

  lemma NothingEmitted(s: Row, none: seq<Row>, done: seq<Row>)
    requires none == []
    ensures done + JoinEach(s, none) == done
  {
  }

  lemma JoinEachSnoc(s: Row, ts: seq<Row>, j: nat)
    requires j < |ts|
    ensures JoinEach(s, ts[..j + 1]) == JoinEach(s, ts[..j]) + [s + ts[j]]
  {
    assert ts[..j + 1][..j] == ts[..j];
  }

  lemma JoinEachSplit(s: Row, ts: seq<Row>, j: nat) returns (rest: seq<Row>)
    requires j < |ts|
    ensures JoinEach(s, ts) == JoinEach(s, ts[..j]) + [s + ts[j]] + rest
  {
    JoinEachAt(s, ts);
    JoinEachAt(s, ts[..j]);
    rest := JoinEach(s, ts)[j + 1..];
  }

  /** readlineNlookup with a next column: reads a table, joins each row that passes with
      the rows of c that the map m gives for its key, and bins the result by its next
      key, whatever the flush limit. A joined row without a bin ends it, and what is in
      the shared buffers then stays there for whoever flushes them next. */
  method LookupNext(m: map<int, seq<Row>>, rows: seq<Row>, keep: Row -> bool, key: Row -> int, next: Row -> int, n: int,
                    limit: int, disk0: seq<seq<Row>>, buffers0: seq<seq<Row>>, lines0: nat, ghost c: seq<Row>,
                    ghost kc: Row -> int)
    returns (disk: seq<seq<Row>>, buffers: seq<seq<Row>>, lines: nat)
    requires n > 0 && |disk0| == |buffers0| == n && (forall k :: Looked(m, k) == Matching(c, kc, k))
    ensures |disk| == |buffers| == n
    ensures Appended(disk, buffers) == Appended(Appended(disk0, buffers0),
      Partition(Written(EquiJoin(Kept(rows, keep), key, c, kc), next, n), next, n))
    ensures Proper(EquiJoin(Kept(rows, keep), key, c, kc), next, n) ==> buffers == Empty(n) && lines == 0
  {
    hide JavaMod, BinOf, Appended, Partition, Empty, Kept, EquiJoin, Matching, JoinEach, JoinRow, Breaks, Written, Proper;
    disk, buffers, lines := disk0, buffers0, lines0;
    ghost var base := Appended(disk0, buffers0);
    ghost var done: seq<Row> := [];
    NothingWritten(base, next, n);
    NothingJoined(rows[..0], keep, key, c, kc);
    var i := 0;
    while i < |rows|
      invariant 0 <= i <= |rows| && |disk| == |buffers| == n
      invariant done == EquiJoin(Kept(rows[..i], keep), key, c, kc) && !Breaks(done, next, n)
      invariant Appended(disk, buffers) == Appended(base, Partition(done, next, n))
    {
      var s := rows[i];
      KeptSnoc(rows, i, keep);
      if keep(s) {
        var k := key(s);
        LookupJoins(s, k, c, kc);
        EquiJoinSnoc(Kept(rows[..i], keep), s, key, c, kc);
        if k in m {
          var broke;
          buffers, lines, broke := EmitRows(s, m[k], next, n, buffers, lines, base, disk, done);
          done := done + JoinEach(s, m[k]);
          if broke {
            BrokenOff(rows, i + 1, keep, key, c, kc, next, n);
            return;
          }
          WrittenAll(done, next, n);
        } else {
          EmptyJoin(s, Matching(c, kc, k), done);
        }
      }
      if lines > limit {
        FlushEarly(base, disk, buffers, Partition(done, next, n));
        disk := FlushToDisk(disk, buffers);
        buffers := Empty(n);
        lines := 0;
      }
      i := i + 1;
    }
    assert rows[..i] == rows;
    WrittenAll(done, next, n);
    FlushEarly(base, disk, buffers, Partition(done, next, n));
    disk := FlushToDisk(disk, buffers);
    buffers := Empty(n);
    lines := 0;
  }

  lemma NothingWritten(base: seq<seq<Row>>, next: Row -> int, n: int)
    requires n > 0 && |base| == n
    ensures base == Appended(base, Partition([], next, n)) && !Breaks([], next, n)
  {
    var a := Appended(base, Partition([], next, n));
    assert forall i :: 0 <= i < n ==> a[i] == base[i] + [] == base[i];
    assert a == base;
  }

  /** A break among the rows joined so far is one of the whole. */
  lemma BrokenOff(rows: seq<Row>, i: nat, keep: Row -> bool, key: Row -> int, c: seq<Row>, kc: Row -> int,
                  next: Row -> int, n: int)
    requires n > 0 && i <= |rows| && Breaks(EquiJoin(Kept(rows[..i], keep), key, c, kc), next, n)
    ensures var out := EquiJoin(Kept(rows, keep), key, c, kc);
            && !Proper(out, next, n)
            && Written(out, next, n) == Written(EquiJoin(Kept(rows[..i], keep), key, c, kc), next, n)
  {
    hide Kept, EquiJoin, Breaks, Written, Proper;
    var a, b := Kept(rows[..i], keep), Kept(rows[i..], keep);
    assert rows == rows[..i] + rows[i..];
    KeptConcat(rows[..i], rows[i..], keep);
    EquiJoinConcat(a, b, key, c, kc);
    BreaksOn(EquiJoin(a, key, c, kc), EquiJoin(b, key, c, kc), next, n);
    WrittenAll(EquiJoin(Kept(rows, keep), key, c, kc), next, n);
  }

  lemma NothingJoined(none: seq<Row>, keep: Row -> bool, key: Row -> int, c: seq<Row>, kc: Row -> int)
    requires none == []
    ensures EquiJoin(Kept(none, keep), key, c, kc) == []
  {
  }

  lemma EmptyJoin(s: Row, none: seq<Row>, done: seq<Row>)
    requires none == []
    ensures done + JoinEach(s, none) == done
  {
  }

  lemma EquiJoinSnoc(t: seq<Row>, s: Row, kt: Row -> int, c: seq<Row>, kc: Row -> int)
    ensures EquiJoin(t + [s], kt, c, kc) == EquiJoin(t, kt, c, kc) + JoinRow(s, kt(s), c, kc)
  {
    hide JoinRow;
    assert (t + [s])[..|t|] == t;
  }

  lemma {:induction false} KeptConcat(a: seq<Row>, b: seq<Row>, keep: Row -> bool)
    ensures Kept(a + b, keep) == Kept(a, keep) + Kept(b, keep)
    decreases |b|
  {
    if b == [] {
      assert a + b == a;
    } else {
      var m := |b| - 1;
      KeptConcat(a, b[..m], keep);
      assert (a + b)[..|a + b| - 1] == a + b[..m];
    }
  }

  lemma ProperMiddle(a: seq<Row>, b: seq<Row>, c: seq<Row>, next: Row -> int, n: int)
    requires n > 0 && Proper(a + b + c, next, n)
    ensures Proper(b, next, n)
  {
    hide JavaMod;
    forall j | 0 <= j < |b|
      ensures JavaMod(next(b[j]), n) >= 0
    {
      assert (a + b + c)[|a| + j] == b[j];
    }
  }
}
