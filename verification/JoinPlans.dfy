/** Whole joins: two tables, and chains whose first join goes through memory. */
module JoinPlans {
  import opened HashJoin
  import opened BinJoin

  function Projected(rows: seq<Row>, project: Row -> Row): (r: seq<Row>)
    ensures |r| == |rows| && forall i :: 0 <= i < |rows| ==> r[i] == project(rows[i])
  {
    seq(|rows|, i requires 0 <= i < |rows| => project(rows[i]))
  }

  // ------------------------------------------------------------ the last join

  /** readlineNlookup without a next column, on one bin: the joined rows, projected, all
      go into the bin of the same number, whatever the flush limit, behind whatever the
      shared buffers still held. */
  method LookupFinal(m: map<int, seq<Row>>, rows: seq<Row>, key: Row -> int, project: Row -> Row, n: int, limit: int,
                     disk0: seq<seq<Row>>, buffers0: seq<seq<Row>>, lines0: nat, ghost i: nat, ghost c: seq<Row>,
                     ghost kc: Row -> int)
    returns (disk: seq<seq<Row>>)
    requires n > 0 && |disk0| == |buffers0| == n && i < n && (forall k :: Looked(m, k) == Matching(c, kc, k))
    requires forall j :: 0 <= j < |rows| ==> JavaMod(key(rows[j]), n) == i
    ensures |disk| == n
    ensures var base := Appended(disk0, buffers0);
            disk == base[i := base[i] + Projected(EquiJoin(rows, key, c, kc), project)]
  {
    hide JavaMod, Appended, Empty, EquiJoin, Matching, JoinEach, JoinRow, Projected, Looked;
    var buffers, lines := buffers0, lines0;
    disk := disk0;
    ghost var base := Appended(disk0, buffers0);
    ghost var all := Empty(n);
    ghost var done: seq<Row> := [];
    FinalStart(rows[..0], key, c, kc, project);
    AppendNothing(base);
    var h := 0;
    while h < |rows|
      invariant 0 <= h <= |rows| && |disk| == |buffers| == |all| == n
      invariant done == EquiJoin(rows[..h], key, c, kc)
      invariant all == Empty(n)[i := Projected(done, project)]
      invariant Appended(disk, buffers) == Appended(base, all)
    {
      var s := rows[h];
      var k := key(s);
      LookupJoins(s, k, c, kc);
      EquiJoinSnoc(rows[..h], s, key, c, kc);
      assert rows[..h + 1] == rows[..h] + [s];
      LookedIn(m, k);
      if k in m {
        buffers := EmitFinal(s, m[k], project, n, JavaMod(k, n), buffers, base, disk, done);
        done := done + JoinEach(s, m[k]);
        all := Empty(n)[i := Projected(done, project)];
        lines := lines + |m[k]|;
      } else {
        EmptyJoin(s, Looked(m, k), done);
      }
      if lines > limit {
        FlushEarly(base, disk, buffers, all);
        disk := FlushToDisk(disk, buffers);
        buffers := Empty(n);
        lines := 0;
      }
      h := h + 1;
    }
    assert rows[..h] == rows;
    disk := FlushToDisk(disk, buffers);
    OnlyBin(base, i, Projected(done, project));
  }

  lemma AppendNothing(base: seq<seq<Row>>)
    ensures Appended(base, Empty(|base|)) == base
  {
    var a := Appended(base, Empty(|base|));
    assert forall i :: 0 <= i < |base| ==> a[i] == base[i] + [] == base[i];
    assert a == base;
  }

  lemma LookedIn(m: map<int, seq<Row>>, k: int)
    ensures k in m ==> Looked(m, k) == m[k]
    ensures k !in m ==> Looked(m, k) == []
  {
  }

  lemma FinalStart(none: seq<Row>, key: Row -> int, c: seq<Row>, kc: Row -> int, project: Row -> Row)
    requires none == []
    ensures EquiJoin(none, key, c, kc) == [] && Projected([], project) == []
  {
  }

  lemma OnlyBin(disk0: seq<seq<Row>>, i: nat, more: seq<Row>)
    requires i < |disk0|
    ensures Appended(disk0, Empty(|disk0|)[i := more]) == disk0[i := disk0[i] + more]
  {
    var a := Appended(disk0, Empty(|disk0|)[i := more]);
    assert forall j :: 0 <= j < |disk0| && j != i ==> a[j] == disk0[j] + [] == disk0[j];
    assert a == disk0[i := disk0[i] + more];
  }

  method EmitFinal(s: Row, ts: seq<Row>, project: Row -> Row, n: int, bin: int, buffers0: seq<seq<Row>>,
                   ghost disk0: seq<seq<Row>>, ghost disk: seq<seq<Row>>, ghost done: seq<Row>)
    returns (buffers: seq<seq<Row>>)
    requires n > 0 && |disk0| == |disk| == |buffers0| == n && 0 <= bin < n
    requires Appended(disk, buffers0) == Appended(disk0, Empty(n)[bin := Projected(done, project)])
    ensures |buffers| == n
    ensures Appended(disk, buffers) == Appended(disk0, Empty(n)[bin := Projected(done + JoinEach(s, ts), project)])
  {
    hide Appended, Projected;
    buffers := buffers0;
    ghost var now := done;
    var j := 0;
    assert ts[..0] == [] && done + [] == done;
    while j < |ts|
      invariant 0 <= j <= |ts| && |buffers| == n && now == done + JoinEach(s, ts[..j])
      invariant Appended(disk, buffers) == Appended(disk0, Empty(n)[bin := Projected(now, project)])
    {
      var r := s + ts[j];
      ghost var all := Empty(n)[bin := Projected(now, project)];
      AddLine(disk0, disk, buffers, all, bin, project(r));
      ProjectedSnoc(now, r, project);
      assert all[bin := all[bin] + [project(r)]] == Empty(n)[bin := Projected(now + [r], project)];
      buffers := buffers[bin := buffers[bin] + [project(r)]];
      assert ts[..j + 1][..j] == ts[..j];
      assert done + JoinEach(s, ts[..j + 1]) == now + [r];
      now := now + [r];
      j := j + 1;
    }
    assert ts[..j] == ts;
  }

  lemma ProjectedSnoc(rows: seq<Row>, r: Row, project: Row -> Row)
    ensures Projected(rows + [r], project) == Projected(rows, project) + [project(r)]
  {
  }

  // ------------------------------------------------------------ joinBins

  /** joinBins for the last join: bin i of the result is what the shared buffers still held
      for it and then the join of the bins i. */
  method JoinBinsFinal(tb: seq<seq<Row>>, kt: Row -> int, cb: seq<seq<Row>>, keepC: Row -> bool, kc: Row -> int,
                       project: Row -> Row, n: int, limit: int, buffers0: seq<seq<Row>>, lines0: nat)
    returns (disk: seq<seq<Row>>)
    requires n > 0 && |tb| == |cb| == |buffers0| == n && Binned(tb, kt)
    requires forall i :: 0 <= i < n ==> Kept(cb[i], keepC) == cb[i]
    ensures |disk| == n
    ensures forall i :: 0 <= i < n ==> disk[i] == buffers0[i] + Projected(EquiJoin(tb[i], kt, cb[i], kc), project)
  {
    hide JavaMod, Matching, EquiJoin, Kept, Projected;
    disk := Empty(n);
    var buffers, lines := buffers0, lines0;
    var i := 0;
    while i < n
      invariant 0 <= i <= n && |disk| == |buffers| == n
      invariant forall j :: 0 <= j < i ==>
        disk[j] + buffers[j] == buffers0[j] + Projected(EquiJoin(tb[j], kt, cb[j], kc), project)
      invariant forall j :: i <= j < n ==> disk[j] + buffers[j] == buffers0[j]
      invariant i > 0 ==> buffers == Empty(n)
    {
      var m := InMemoryMap(cb[i], keepC, kc);
      disk := LookupFinal(m, tb[i], kt, project, n, limit, disk, buffers, lines, i, cb[i], kc);
      buffers, lines := Empty(n), 0;
      i := i + 1;
      assert forall j :: 0 <= j < n ==> disk[j] + buffers[j] == disk[j];
    }
    assert forall j :: 0 <= j < n ==> disk[j] + buffers[j] == disk[j];
  }

  /** What the joins of the first m pairs of bins write, each up to a row without a bin. */
  function BinWritten(tb: seq<seq<Row>>, kt: Row -> int, cb: seq<seq<Row>>, kc: Row -> int, next: Row -> int, n: int,
                      m: nat): seq<Row>
    requires n > 0 && m <= |tb| && m <= |cb|
  {
    if m == 0 then []
    else BinWritten(tb, kt, cb, kc, next, n, m - 1) + Written(EquiJoin(tb[m - 1], kt, cb[m - 1], kc), next, n)
  }

  lemma {:induction false} BinWrittenAll(tb: seq<seq<Row>>, kt: Row -> int, cb: seq<seq<Row>>, kc: Row -> int,
                                         next: Row -> int, n: int, m: nat)
    requires n > 0 && m <= |tb| && m <= |cb| && Proper(BinJoins(tb, kt, cb, kc, m), next, n)
    ensures BinWritten(tb, kt, cb, kc, next, n, m) == BinJoins(tb, kt, cb, kc, m)
    ensures m > 0 ==> Proper(EquiJoin(tb[m - 1], kt, cb[m - 1], kc), next, n)
    decreases m
  {
    hide JavaMod, EquiJoin, Proper, Written, Breaks;
    if m > 0 {
      var a, b := BinJoins(tb, kt, cb, kc, m - 1), EquiJoin(tb[m - 1], kt, cb[m - 1], kc);
      assert a + b + [] == [] + a + b == a + b;
      ProperMiddle(a, b, [], next, n);
      ProperMiddle([], a, b, next, n);
      BinWrittenAll(tb, kt, cb, kc, next, n, m - 1);
      WrittenAll(b, next, n);
    }
  }

  /** joinBins for a join that is not the last: the files and the shared buffers together
      hold what was in the buffers and what was written, binned by the next key. Without a
      row that has no bin this is the whole join, and the buffers are empty. */
  method JoinBinsNext(tb: seq<seq<Row>>, keepT: Row -> bool, kt: Row -> int, cb: seq<seq<Row>>, kc: Row -> int,
                      next: Row -> int, n: int, limit: int, buffers0: seq<seq<Row>>, lines0: nat)
    returns (disk: seq<seq<Row>>, buffers: seq<seq<Row>>, lines: nat)
    requires n > 0 && |tb| == |cb| == |buffers0| == n
    requires forall i :: 0 <= i < n ==> Kept(tb[i], keepT) == tb[i]
    ensures |disk| == |buffers| == n
    ensures Appended(disk, buffers) == Appended(buffers0, Partition(BinWritten(tb, kt, cb, kc, next, n, n), next, n))
    ensures Proper(BinJoins(tb, kt, cb, kc, n), next, n) ==>
      buffers == Empty(n) && lines == 0 && disk == Appended(buffers0, Partition(BinJoins(tb, kt, cb, kc, n), next, n))
  {
    hide JavaMod, Matching, EquiJoin, Kept, Partition, Appended, Proper, Empty, Written;
    disk, buffers, lines := Empty(n), buffers0, lines0;
    NothingBefore(buffers0);
    NothingBinned(next, n);
    AppendNothing(buffers0);
    var i := 0;
    while i < n
      invariant 0 <= i <= n && |disk| == |buffers| == n
      invariant Appended(disk, buffers) == Appended(buffers0, Partition(BinWritten(tb, kt, cb, kc, next, n, i), next, n))
      invariant i > 0 && Proper(EquiJoin(tb[i - 1], kt, cb[i - 1], kc), next, n) ==> buffers == Empty(n) && lines == 0
    {
      var m := InMemoryMap(cb[i], All, kc);
      KeepAll(cb[i], All);
      ghost var done := BinWritten(tb, kt, cb, kc, next, n, i);
      disk, buffers, lines := LookupNext(m, tb[i], keepT, kt, next, n, limit, disk, buffers, lines, cb[i], kc);
      AppendedMore(buffers0, done, Written(EquiJoin(tb[i], kt, cb[i], kc), next, n), next, n);
      i := i + 1;
    }
    if Proper(BinJoins(tb, kt, cb, kc, n), next, n) {
      BinWrittenAll(tb, kt, cb, kc, next, n, n);
      AppendNothing(disk);
    }
  }

  lemma AppendedMore(base: seq<seq<Row>>, a: seq<Row>, b: seq<Row>, key: Row -> int, n: int)
    requires n > 0 && |base| == n
    ensures Appended(Appended(base, Partition(a, key, n)), Partition(b, key, n)) == Appended(base, Partition(a + b, key, n))
  {
    hide Partition;
    PartitionConcat(a, b, key, n);
    var x, y := Appended(Appended(base, Partition(a, key, n)), Partition(b, key, n)), Appended(base, Partition(a + b, key, n));
    assert forall i :: 0 <= i < n ==> x[i] == y[i] by {
      forall i | 0 <= i < n
        ensures x[i] == y[i]
      {
        var p, q := Partition(a, key, n)[i], Partition(b, key, n)[i];
        assert Appended(Partition(a, key, n), Partition(b, key, n))[i] == p + q;
        assert base[i] + p + q == base[i] + (p + q);
      }
    }
    assert x == y;
  }

  lemma NothingBinned(key: Row -> int, n: int)
    requires n > 0
    ensures Empty(n) == Partition([], key, n)
  {
  }

  lemma {:induction false} BinOfConcat(a: seq<Row>, b: seq<Row>, key: Row -> int, n: int, i: int)
    requires n > 0
    ensures BinOf(a + b, key, n, i) == BinOf(a, key, n, i) + BinOf(b, key, n, i)
    decreases |b|
  {
    hide JavaMod;
    if b == [] {
      assert a + b == a;
    } else {
      var m := |b| - 1;
      BinOfConcat(a, b[..m], key, n, i);
      assert (a + b)[..|a + b| - 1] == a + b[..m];
    }
  }

  lemma PartitionConcat(a: seq<Row>, b: seq<Row>, key: Row -> int, n: int)
    requires n > 0
    ensures Appended(Partition(a, key, n), Partition(b, key, n)) == Partition(a + b, key, n)
  {
    hide BinOf;
    var x, y := Appended(Partition(a, key, n), Partition(b, key, n)), Partition(a + b, key, n);
    forall i | 0 <= i < n
      ensures x[i] == y[i]
    {
      BinOfConcat(a, b, key, n, i);
    }
    assert x == y;
  }

  // ------------------------------------------------------------ two tables

  lemma {:induction false} KeptSame(rows: seq<Row>, keep: Row -> bool)
    requires forall j :: 0 <= j < |rows| ==> keep(rows[j])
    ensures Kept(rows, keep) == rows
    decreases |rows|
  {
    if rows != [] {
      KeptSame(rows[..|rows| - 1], keep);
    }
  }

  lemma {:induction false} KeptPass(rows: seq<Row>, keep: Row -> bool)
    ensures forall j :: 0 <= j < |Kept(rows, keep)| ==> keep(Kept(rows, keep)[j])
    decreases |rows|
  {
    if rows != [] {
      KeptPass(rows[..|rows| - 1], keep);
    }
  }

  lemma {:induction false} BinOfPass(rows: seq<Row>, keep: Row -> bool, key: Row -> int, n: int, i: int)
    requires n > 0 && forall j :: 0 <= j < |rows| ==> keep(rows[j])
    ensures forall j :: 0 <= j < |BinOf(rows, key, n, i)| ==> keep(BinOf(rows, key, n, i)[j])
    decreases |rows|
  {
    hide JavaMod;
    if rows != [] {
      BinOfPass(rows[..|rows| - 1], keep, key, n, i);
    }
  }

  /** Filtering the bins of filtered rows once more changes nothing. */
  lemma BinsFiltered(rows: seq<Row>, keep: Row -> bool, key: Row -> int, n: int)
    requires n > 0 && Kept(rows, keep) == rows
    ensures forall i :: 0 <= i < n ==> Kept(Partition(rows, key, n)[i], keep) == Partition(rows, key, n)[i]
  {
    hide BinOf, Kept;
    KeptPass(rows, keep);
    forall i | 0 <= i < n
      ensures Kept(Partition(rows, key, n)[i], keep) == Partition(rows, key, n)[i]
    {
      BinOfPass(rows, keep, key, n, i);
      KeptSame(BinOf(rows, key, n, i), keep);
    }
  }

  lemma {:induction false} ConcatProjected(out: seq<seq<Row>>, tb: seq<seq<Row>>, kt: Row -> int, cb: seq<seq<Row>>,
                                           kc: Row -> int, project: Row -> Row, m: nat)
    requires m <= |out| && |out| == |tb| == |cb|
    requires forall i :: 0 <= i < |out| ==> out[i] == Projected(EquiJoin(tb[i], kt, cb[i], kc), project)
    ensures Concat(out[..m]) == Projected(BinJoins(tb, kt, cb, kc, m), project)
    decreases m
  {
    hide EquiJoin;
    if m == 0 {
      assert out[..0] == [];
    } else {
      ConcatProjected(out, tb, kt, cb, kc, project, m - 1);
      assert out[..m][..m - 1] == out[..m - 1];
    }
  }

  lemma {:induction false} ProjectedAnyOrder(a: seq<Row>, b: seq<Row>, project: Row -> Row)
    requires multiset(a) == multiset(b)
    ensures multiset(Projected(a, project)) == multiset(Projected(b, project))
    decreases |a|
  {
    hide Projected;
    if a == [] {
      assert multiset(b) == multiset{};
      assert b == [];
    } else {
      var m := |a| - 1;
      assert a[m] in multiset(b);
      var j :| 0 <= j < |b| && b[j] == a[m];
      assert a == a[..m] + [a[m]];
      ProjectedAnyOrder(a[..m], Without(b, j), project);
      ProjectedSnoc(a[..m], a[m], project);
      ProjectedWithout(b, j, project);
    }
  }

  lemma ProjectedWithout(b: seq<Row>, j: nat, project: Row -> Row)
    requires j < |b|
    ensures multiset(Projected(b, project)) == multiset(Projected(Without(b, j), project)) + multiset{project(b[j])}
  {
    var p := Projected(b, project);
    assert p == p[..j] + [p[j]] + p[j + 1..];
    assert Projected(Without(b, j), project) == p[..j] + p[j + 1..];
  }

  /** What joining two partitioned tables bin by bin writes, in all, is their join. */
  lemma JoinOfBins(t: seq<Row>, kt: Row -> int, c: seq<Row>, kc: Row -> int, n: int)
    requires n > 0 && Proper(t, kt, n) && Proper(c, kc, n)
    ensures multiset(BinJoins(Partition(t, kt, n), kt, Partition(c, kc, n), kc, n)) == multiset(EquiJoin(t, kt, c, kc))
  {
    hide JavaMod, EquiJoin, Partition, Concat, Binned, BinJoins, Proper;
    var tb, cb := Partition(t, kt, n), Partition(c, kc, n);
    PartitionBinned(t, kt, n);
    PartitionBinned(c, kc, n);
    BinwiseJoin(tb, kt, cb, kc, n);
    assert tb[..n] == tb;
    PartitionKeeps(t, kt, n);
    PartitionKeeps(c, kc, n);
    EquiJoinAnyOrder(Concat(tb), t, kt, Concat(cb), c, kc);
  }

  lemma FinalRows(out: seq<seq<Row>>, t: seq<Row>, kt: Row -> int, c: seq<Row>, kc: Row -> int, project: Row -> Row, n: int)
    requires n > 0 && |out| == n && Proper(t, kt, n) && Proper(c, kc, n)
    requires var tb, cb := Partition(t, kt, n), Partition(c, kc, n);
             forall i :: 0 <= i < n ==> out[i] == Projected(EquiJoin(tb[i], kt, cb[i], kc), project)
    ensures multiset(Concat(out)) == multiset(Projected(EquiJoin(t, kt, c, kc), project))
  {
    hide JavaMod, EquiJoin, Concat, Proper, BinOf, Projected;
    var tb, cb := Partition(t, kt, n), Partition(c, kc, n);
    ConcatProjected(out, tb, kt, cb, kc, project, n);
    assert out[..n] == out;
    JoinOfBins(t, kt, c, kc, n);
    ProjectedAnyOrder(BinJoins(tb, kt, cb, kc, n), EquiJoin(t, kt, c, kc), project);
  }

  /** outstreamCreator on two tables. Over all bins the rows written are, as a multiset,
      the projected nested-loop join of the surviving rows; without a key of negative
      remainder among the rows that pass, those are all the rows that pass. */
  method TwoTables(a: seq<Row>, keepA: Row -> bool, ka: Row -> int, b: seq<Row>, keepB: Row -> bool, kb: Row -> int,
                   project: Row -> Row, n: int, limit: int)
    returns (out: seq<seq<Row>>)
    requires n > 0
    ensures |out| == n
    ensures multiset(Concat(out)) ==
      multiset(Projected(EquiJoin(Survivors(a, keepA, ka, n), ka, Survivors(b, keepB, kb, n), kb), project))
    ensures !Stops(a, keepA, ka, n) && !Stops(b, keepB, kb, n) ==>
      multiset(Concat(out)) == multiset(Projected(EquiJoin(Kept(a, keepA), ka, Kept(b, keepB), kb), project))
  {
    hide JavaMod, EquiJoin, Concat, Proper, BinOf, Projected, Survivors, Stops, Kept, Partition, Binned;
    var ab := CreateBins(a, keepA, ka, n, limit, Empty(n));
    var bb := CreateBins(b, keepB, kb, n, limit, Empty(n));
    ghost var sa, sb := Survivors(a, keepA, ka, n), Survivors(b, keepB, kb, n);
    NothingBefore(Partition(sa, ka, n));
    NothingBefore(Partition(sb, kb, n));
    SurvivorsProper(a, keepA, ka, n);
    SurvivorsProper(b, keepB, kb, n);
    BinsFiltered(sb, keepB, kb, n);
    PartitionBinned(sa, ka, n);
    out := JoinBinsFinal(ab, ka, bb, keepB, kb, project, n, limit, Empty(n), 0);
    OnlyJoins(out, ab, ka, bb, kb, project, n);
    FinalRows(out, sa, ka, sb, kb, project, n);
  }

  lemma OnlyJoins(out: seq<seq<Row>>, tb: seq<seq<Row>>, kt: Row -> int, cb: seq<seq<Row>>, kc: Row -> int,
                  project: Row -> Row, n: int)
    requires n >= 0 && |out| == |tb| == |cb| == n
    requires forall i :: 0 <= i < n ==> out[i] == Empty(n)[i] + Projected(EquiJoin(tb[i], kt, cb[i], kc), project)
    ensures forall i :: 0 <= i < n ==> out[i] == Projected(EquiJoin(tb[i], kt, cb[i], kc), project)
  {
    hide EquiJoin, Projected;
    forall i | 0 <= i < n
      ensures out[i] == Projected(EquiJoin(tb[i], kt, cb[i], kc), project)
    {
      assert Empty(n)[i] == [];
    }
  }

  lemma NothingBefore(bins: seq<seq<Row>>)
    ensures Appended(Empty(|bins|), bins) == bins
  {
    var a := Appended(Empty(|bins|), bins);
    assert forall i :: 0 <= i < |bins| ==> a[i] == [] + bins[i] == bins[i];
    assert a == bins;
  }

  // ------------------------------------------------------------ chains

  /** A further table of a chain: its key, and the key of the result for the next one. */
  datatype Stage = Stage(rows: seq<Row>, keep: Row -> bool, key: Row -> int, next: Row -> int)

  /** The first join: a small table in memory, and one that is read against it. */
  datatype First = First(
    small: seq<Row>, keepSmall: Row -> bool, keySmall: Row -> int,
    big: seq<Row>, keepBig: Row -> bool, keyBig: Row -> int, next: Row -> int)

  function NextKey(first: First, stages: seq<Stage>, j: nat): Row -> int
    requires j <= |stages|
  {
    if j == 0 then first.next else stages[j - 1].next
  }

  /** The nested-loop join of the first j + 2 tables. */
  function Composite(first: First, stages: seq<Stage>, j: nat, n: int): seq<Row>
    requires n > 0 && j <= |stages|
  {
    if j == 0 then
      EquiJoin(Kept(first.big, first.keepBig), first.keyBig, Kept(first.small, first.keepSmall), first.keySmall)
    else
      var s := stages[j - 1];
      EquiJoin(Survivors(s.rows, s.keep, s.key, n), s.key, Composite(first, stages, j - 1, n), NextKey(first, stages, j - 1))
  }

  lemma ProperAnyOrder(a: seq<Row>, b: seq<Row>, key: Row -> int, n: int)
    requires n > 0 && multiset(a) == multiset(b) && Proper(a, key, n)
    ensures Proper(b, key, n)
  {
    hide JavaMod;
    forall j | 0 <= j < |b|
      ensures JavaMod(key(b[j]), n) >= 0
    {
      assert b[j] in multiset(a);
    }
  }

  /** One stage: the bins of the composite, joined with the stage's table, bin by bin. */
  lemma StageJoin(s: Stage, w: seq<Row>, key: Row -> int, composite: seq<Row>, n: int)
    requires n > 0 && multiset(w) == multiset(composite) && Proper(w, key, n)
    ensures var t := Survivors(s.rows, s.keep, s.key, n);
            multiset(BinJoins(Partition(t, s.key, n), s.key, Partition(w, key, n), key, n)) ==
            multiset(EquiJoin(t, s.key, composite, key))
  {
    hide JavaMod, EquiJoin, Proper, BinOf, Survivors, Partition, BinJoins;
    var t := Survivors(s.rows, s.keep, s.key, n);
    SurvivorsProper(s.rows, s.keep, s.key, n);
    JoinOfBins(t, s.key, w, key, n);
    EquiJoinAnyOrder(t, t, s.key, w, composite, key);
  }

  /** Every joined row has a bin for its next key, at every stage. */
  ghost predicate AllBinned(first: First, stages: seq<Stage>, n: int)
    requires n > 0
  {
    forall j :: 0 <= j <= |stages| ==> Proper(Composite(first, stages, j, n), NextKey(first, stages, j), n)
  }

  /** The nested-loop join of the first j + 2 tables, of all their rows that pass. */
  function KeptComposite(first: First, stages: seq<Stage>, j: nat): seq<Row>
    requires j <= |stages|
  {
    if j == 0 then
      EquiJoin(Kept(first.big, first.keepBig), first.keyBig, Kept(first.small, first.keepSmall), first.keySmall)
    else
      var s := stages[j - 1];
      EquiJoin(Kept(s.rows, s.keep), s.key, KeptComposite(first, stages, j - 1), NextKey(first, stages, j - 1))
  }

  /** The stage's table is read to its end. */
  predicate ReadsAll(s: Stage, n: int)
    requires n > 0
  {
    !Stops(s.rows, s.keep, s.key, n)
  }

  lemma {:induction false} CompositeKept(first: First, stages: seq<Stage>, j: nat, n: int)
    requires n > 0 && j <= |stages| && forall i :: 0 <= i < |stages| ==> ReadsAll(stages[i], n)
    ensures Composite(first, stages, j, n) == KeptComposite(first, stages, j)
    decreases j
  {
    hide EquiJoin, Kept, Survivors, Stops;
    if j > 0 {
      CompositeKept(first, stages, j - 1, n);
      assert ReadsAll(stages[j - 1], n);
      SurvivorsProper(stages[j - 1].rows, stages[j - 1].keep, stages[j - 1].key, n);
    }
  }

  /** A chain of joins. When every joined row has a bin for its next key, the rows written
      at the end, over all bins, are as a multiset the projected nested-loop join of the
      surviving rows of all the tables; and when every table is read to its end, that of
      all the rows that pass. */
  method Chain(first: First, stages: seq<Stage>, last: Stage, project: Row -> Row, n: int, limit: int)
    returns (out: seq<seq<Row>>)
    requires n > 0
    ensures |out| == n
    ensures AllBinned(first, stages, n) ==> multiset(Concat(out)) == multiset(Projected(
      EquiJoin(Survivors(last.rows, last.keep, last.key, n), last.key, Composite(first, stages, |stages|, n),
               NextKey(first, stages, |stages|)), project))
    ensures AllBinned(first, stages, n) && ReadsAll(last, n) && (forall i :: 0 <= i < |stages| ==> ReadsAll(stages[i], n)) ==>
      multiset(Concat(out)) == multiset(Projected(
        EquiJoin(Kept(last.rows, last.keep), last.key, KeptComposite(first, stages, |stages|),
                 NextKey(first, stages, |stages|)), project))
  {
    hide JavaMod, EquiJoin, Concat, Proper, BinOf, Projected, Survivors, Stops, Kept, Partition, Binned, BinJoins, Matching,
      Looked, Appended, Empty, Written, KeptComposite;
    var m := InMemoryMap(first.small, first.keepSmall, first.keySmall);
    ghost var w := Composite(first, stages, 0, n);
    var bins, buffers, lines := LookupNext(m, first.big, first.keepBig, first.keyBig, first.next, n, limit, Empty(n), Empty(n), 0,
                                           Kept(first.small, first.keepSmall), first.keySmall);
    FirstBins(w, first.next, n, bins, buffers);
    var j := 0;
    while j < |stages|
      invariant 0 <= j <= |stages| && |bins| == |buffers| == n
      invariant AllBinned(first, stages, n) ==>
        && bins == Partition(w, NextKey(first, stages, j), n) && buffers == Empty(n)
        && multiset(w) == multiset(Composite(first, stages, j, n))
    {
      assert AllBinned(first, stages, n) ==>
        && Proper(Composite(first, stages, j, n), NextKey(first, stages, j), n)
        && Proper(Composite(first, stages, j + 1, n), NextKey(first, stages, j + 1), n);
      bins, buffers, lines, w := RunStage(stages[j], bins, NextKey(first, stages, j), n, limit, buffers, lines, w,
                                          Composite(first, stages, j, n));
      j := j + 1;
    }
    out := RunLast(last, bins, NextKey(first, stages, j), project, n, limit, buffers, lines, w,
                   Composite(first, stages, j, n));
    if ReadsAll(last, n) && forall i :: 0 <= i < |stages| ==> ReadsAll(stages[i], n) {
      CompositeKept(first, stages, |stages|, n);
      SurvivorsProper(last.rows, last.keep, last.key, n);
    }
  }

  lemma FirstBins(w: seq<Row>, next: Row -> int, n: int, bins: seq<seq<Row>>, buffers: seq<seq<Row>>)
    requires n > 0 && |bins| == |buffers| == n
    requires Appended(bins, buffers) == Appended(Appended(Empty(n), Empty(n)), Partition(Written(w, next, n), next, n))
    ensures Proper(w, next, n) && buffers == Empty(n) ==> bins == Partition(w, next, n)
  {
    hide Appended, Partition, Written, Proper, Empty;
    AppendNothing(Empty(n));
    if Proper(w, next, n) && buffers == Empty(n) {
      WrittenAll(w, next, n);
      AppendNothing(bins);
      NothingBefore(Partition(w, next, n));
    }
  }

  /** bincreatorNjoin on a table and the join so far. Whatever the bins hold, the files and
      the shared buffers get what the buffers held and what is written of the join. */
  method RunStage(s: Stage, bins0: seq<seq<Row>>, key: Row -> int, n: int, limit: int, buffers0: seq<seq<Row>>, lines0: nat,
                  ghost w0: seq<Row>, ghost composite: seq<Row>)
    returns (bins: seq<seq<Row>>, buffers: seq<seq<Row>>, lines: nat, ghost w: seq<Row>)
    requires n > 0 && |bins0| == |buffers0| == n
    ensures |bins| == |buffers| == n
    ensures var t := Survivors(s.rows, s.keep, s.key, n);
            Appended(bins, buffers) == Appended(buffers0,
              Partition(BinWritten(Partition(t, s.key, n), s.key, bins0, key, s.next, n, n), s.next, n))
    ensures var t := Survivors(s.rows, s.keep, s.key, n);
            && bins0 == Partition(w0, key, n) && buffers0 == Empty(n) && multiset(w0) == multiset(composite)
            && Proper(composite, key, n) && Proper(EquiJoin(t, s.key, composite, key), s.next, n) ==>
            && bins == Partition(w, s.next, n) && buffers == Empty(n)
            && multiset(w) == multiset(EquiJoin(t, s.key, composite, key))
  {
    hide JavaMod, EquiJoin, Proper, BinOf, Survivors, Kept, Partition, BinJoins, BinWritten, Appended, Empty;
    var tb := CreateBins(s.rows, s.keep, s.key, n, limit, Empty(n));
    ghost var t := Survivors(s.rows, s.keep, s.key, n);
    NothingBefore(Partition(t, s.key, n));
    SurvivorsProper(s.rows, s.keep, s.key, n);
    BinsFiltered(t, s.keep, s.key, n);
    w := BinJoins(tb, s.key, bins0, key, n);
    bins, buffers, lines := JoinBinsNext(tb, s.keep, s.key, bins0, key, s.next, n, limit, buffers0, lines0);
    if bins0 == Partition(w0, key, n) && buffers0 == Empty(n) && multiset(w0) == multiset(composite)
      && Proper(composite, key, n) && Proper(EquiJoin(t, s.key, composite, key), s.next, n) {
      ProperAnyOrder(composite, w0, key, n);
      StageJoin(s, w0, key, composite, n);
      ProperAnyOrder(EquiJoin(t, s.key, composite, key), w, s.next, n);
      NothingBefore(Partition(w, s.next, n));
    }
  }

  /** outstreamCreator on a table and the join so far. */
  method RunLast(s: Stage, bins0: seq<seq<Row>>, key: Row -> int, project: Row -> Row, n: int, limit: int,
                 buffers0: seq<seq<Row>>, lines0: nat, ghost w: seq<Row>, ghost composite: seq<Row>)
    returns (out: seq<seq<Row>>)
    requires n > 0 && |bins0| == |buffers0| == n
    ensures |out| == n
    ensures && bins0 == Partition(w, key, n) && buffers0 == Empty(n) && multiset(w) == multiset(composite)
            && Proper(composite, key, n) ==>
      multiset(Concat(out)) ==
      multiset(Projected(EquiJoin(Survivors(s.rows, s.keep, s.key, n), s.key, composite, key), project))
  {
    hide JavaMod, EquiJoin, Proper, BinOf, Survivors, Kept, Partition, BinJoins, Appended, Concat, Projected, Binned, Empty;
    var tb := CreateBins(s.rows, s.keep, s.key, n, limit, Empty(n));
    ghost var t := Survivors(s.rows, s.keep, s.key, n);
    NothingBefore(Partition(t, s.key, n));
    SurvivorsProper(s.rows, s.keep, s.key, n);
    PartitionBinned(t, s.key, n);
    forall i | 0 <= i < n
      ensures Kept(bins0[i], All) == bins0[i]
    {
      KeepAll(bins0[i], All);
    }
    out := JoinBinsFinal(tb, s.key, bins0, All, key, project, n, limit, buffers0, lines0);
    if bins0 == Partition(w, key, n) && buffers0 == Empty(n) && multiset(w) == multiset(composite)
      && Proper(composite, key, n) {
      ProperAnyOrder(composite, w, key, n);
      OnlyJoins(out, tb, s.key, bins0, key, project, n);
      FinalRows(out, t, s.key, w, key, project, n);
      EquiJoinAnyOrder(t, t, s.key, w, composite, key);
      ProjectedAnyOrder(EquiJoin(t, s.key, w, key), EquiJoin(t, s.key, composite, key), project);
    }
  }
}
