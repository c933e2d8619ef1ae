/** The hash-partitioned join. A table is read row by row, its rows that pass the
    table's own conditions are spread over bins by their key, and then bin after bin
    is joined through a hash map in memory. Column lookup, conditions and projection
    are given functions; a file is the sequence of its rows. */
module HashJoin {
  type Row = seq<string>

  /** Java's remainder, which takes the sign of the dividend. */
  function JavaMod(a: int, n: int): int
    requires n > 0
  {
    if a >= 0 then a % n else -((-a) % n)
  }

  // ------------------------------------------------------------ reference

  function Kept(rows: seq<Row>, keep: Row -> bool): seq<Row> {
    if rows == [] then []
    else Kept(rows[..|rows| - 1], keep) + if keep(rows[|rows| - 1]) then [rows[|rows| - 1]] else []
  }

  /** u joined with every row of c that has key k. */
  function JoinRow(u: Row, k: int, c: seq<Row>, kc: Row -> int): seq<Row> {
    if c == [] then []
    else JoinRow(u, k, c[..|c| - 1], kc) + if kc(c[|c| - 1]) == k then [u + c[|c| - 1]] else []
  }

  /** The nested-loop equijoin. */
  function EquiJoin(t: seq<Row>, kt: Row -> int, c: seq<Row>, kc: Row -> int): seq<Row> {
    if t == [] then []
    else EquiJoin(t[..|t| - 1], kt, c, kc) + JoinRow(t[|t| - 1], kt(t[|t| - 1]), c, kc)
  }

  function Concat(bins: seq<seq<Row>>): seq<Row> {
    if bins == [] then [] else Concat(bins[..|bins| - 1]) + bins[|bins| - 1]
  }

  // ------------------------------------------------------------ partition

  /** The rows whose key falls into bin i. */
  function BinOf(rows: seq<Row>, key: Row -> int, n: int, i: int): seq<Row>
    requires n > 0
  {
    if rows == [] then []
    else BinOf(rows[..|rows| - 1], key, n, i) +
         if JavaMod(key(rows[|rows| - 1]), n) == i then [rows[|rows| - 1]] else []
  }

  function Partition(rows: seq<Row>, key: Row -> int, n: int): (r: seq<seq<Row>>)
    requires n > 0
    ensures |r| == n && forall i :: 0 <= i < n ==> r[i] == BinOf(rows, key, n, i)
  {
    seq(n, i requires 0 <= i < n => BinOf(rows, key, n, i))
  }

  /** Every row is in the bin of its key. */
  ghost predicate Binned(bins: seq<seq<Row>>, key: Row -> int) {
    forall i, j :: 0 <= i < |bins| && 0 <= j < |bins[i]| ==> JavaMod(key(bins[i][j]), |bins|) == i
  }

  ghost predicate Proper(rows: seq<Row>, key: Row -> int, n: int)
    requires n > 0
  {
    forall j :: 0 <= j < |rows| ==> JavaMod(key(rows[j]), n) >= 0
  }

  lemma {:induction false} BinOfBinned(rows: seq<Row>, key: Row -> int, n: int, i: int)
    requires n > 0
    ensures forall j :: 0 <= j < |BinOf(rows, key, n, i)| ==> JavaMod(key(BinOf(rows, key, n, i)[j]), n) == i
    decreases |rows|
  {
    hide JavaMod;
    if rows != [] {
      BinOfBinned(rows[..|rows| - 1], key, n, i);
    }
  }

  lemma PartitionBinned(rows: seq<Row>, key: Row -> int, n: int)
    requires n > 0
    ensures Binned(Partition(rows, key, n), key)
  {
    hide JavaMod, BinOf;
    forall i | 0 <= i < n
      ensures forall j :: 0 <= j < |BinOf(rows, key, n, i)| ==> JavaMod(key(BinOf(rows, key, n, i)[j]), n) == i
    {
      BinOfBinned(rows, key, n, i);
    }
  }

  /** Adding a row to one bin adds it to the whole. */
  lemma {:induction false} ConcatAdd(bins: seq<seq<Row>>, i: nat, r: Row)
    requires i < |bins|
    ensures multiset(Concat(bins[i := bins[i] + [r]])) == multiset(Concat(bins)) + multiset{r}
    decreases |bins|
  {
    var n := |bins| - 1;
    var more := bins[i := bins[i] + [r]];
    assert Concat(more) == Concat(more[..n]) + more[n] && Concat(bins) == Concat(bins[..n]) + bins[n];
    hide Concat;
    if i == n {
      assert more[..n] == bins[..n];
    } else {
      assert more[..n] == bins[..n][i := bins[i] + [r]];
      ConcatAdd(bins[..n], i, r);
    }
  }

  lemma {:induction false} ConcatEmpty(bins: seq<seq<Row>>)
    requires forall i :: 0 <= i < |bins| ==> bins[i] == []
    ensures Concat(bins) == []
    decreases |bins|
  {
    if bins != [] {
      ConcatEmpty(bins[..|bins| - 1]);
    }
  }

  lemma BinOfSnoc(rows: seq<Row>, r: Row, key: Row -> int, n: int, i: int)
    requires n > 0
    ensures BinOf(rows + [r], key, n, i) == BinOf(rows, key, n, i) + if JavaMod(key(r), n) == i then [r] else []
  {
    assert (rows + [r])[..|rows|] == rows;
  }

  /** The last row goes into the bin of its key. */
  lemma PartitionSnoc(rows: seq<Row>, r: Row, key: Row -> int, n: int)
    requires n > 0 && 0 <= JavaMod(key(r), n) < n
    ensures var b := Partition(rows, key, n);
            var i := JavaMod(key(r), n);
            Partition(rows + [r], key, n) == b[i := b[i] + [r]]
  {
    hide JavaMod, BinOf;
    var b, b' := Partition(rows, key, n), Partition(rows + [r], key, n);
    var k := JavaMod(key(r), n);
    forall i | 0 <= i < n
      ensures b'[i] == b[k := b[k] + [r]][i]
    {
      BinOfSnoc(rows, r, key, n, i);
    }
    assert b' == b[k := b[k] + [r]];
  }

  /** Partitioning keeps every row, as often as it was there, if no key has a negative
      remainder. */
  lemma {:induction false} PartitionKeeps(rows: seq<Row>, key: Row -> int, n: int)
    requires n > 0 && Proper(rows, key, n)
    ensures multiset(Concat(Partition(rows, key, n))) == multiset(rows)
    decreases |rows|
  {
    hide JavaMod, Partition, Concat;
    var p := Partition(rows, key, n);
    if rows == [] {
      ConcatEmpty(p);
    } else {
      var m := |rows| - 1;
      var r := rows[m];
      var before := Partition(rows[..m], key, n);
      PartitionKeeps(rows[..m], key, n);
      ModBelow(key(r), n);
      var i := JavaMod(key(r), n);
      PartitionSnoc(rows[..m], r, key, n);
      assert rows == rows[..m] + [r];
      ConcatAdd(before, i, r);
    }
  }

  lemma ModBelow(a: int, n: int)
    requires n > 0
    ensures JavaMod(a, n) < n
  {
  }

  /** JavaMod is the remainder of a division that truncates. */
  lemma TruncatedRemainder(a: int, n: int) returns (q: int)
    requires n > 0
    ensures a == q * n + JavaMod(a, n) && -n < JavaMod(a, n) < n
    ensures a >= 0 ==> JavaMod(a, n) >= 0
    ensures a <= 0 ==> JavaMod(a, n) <= 0
  {
    q := if a >= 0 then a / n else -((-a) / n);
  }

  // ------------------------------------------------------------ joining bin by bin

  /** Two rows join when their keys agree. With the two laws of concatenation below this
      says what the equijoin of any two tables is. */
  lemma OnePair(u: Row, r: Row, kt: Row -> int, kc: Row -> int)
    ensures EquiJoin([u], kt, [r], kc) == JoinRow(u, kt(u), [r], kc)
    ensures EquiJoin([u], kt, [r], kc) == if kt(u) == kc(r) then [u + r] else []
  {
    assert [u][..0] == [] && [r][..0] == [];
  }

  /** Filtering leaves every row that passes as often as it was there, and no other. */
  lemma {:induction false} KeptCounts(rows: seq<Row>, keep: Row -> bool, r: Row)
    ensures multiset(Kept(rows, keep))[r] == if keep(r) then multiset(rows)[r] else 0
    decreases |rows|
  {
    if rows != [] {
      var m := |rows| - 1;
      KeptCounts(rows[..m], keep, r);
      assert rows == rows[..m] + [rows[m]];
    }
  }

  lemma {:induction false} JoinRowConcat(u: Row, k: int, a: seq<Row>, b: seq<Row>, kc: Row -> int)
    ensures JoinRow(u, k, a + b, kc) == JoinRow(u, k, a, kc) + JoinRow(u, k, b, kc)
    decreases |b|
  {
    if b == [] {
      assert a + b == a;
    } else {
      var m := |b| - 1;
      JoinRowConcat(u, k, a, b[..m], kc);
      assert (a + b)[..|a + b| - 1] == a + b[..m] && (a + b)[|a + b| - 1] == b[m];
      var last := if kc(b[m]) == k then [u + b[m]] else [];
      assert JoinRow(u, k, b, kc) == JoinRow(u, k, b[..m], kc) + last;
      assert JoinRow(u, k, a + b, kc) == JoinRow(u, k, a + b[..m], kc) + last;
      hide JoinRow;
    }
  }

  lemma {:induction false} EquiJoinConcat(a: seq<Row>, b: seq<Row>, kt: Row -> int, c: seq<Row>, kc: Row -> int)
    ensures EquiJoin(a + b, kt, c, kc) == EquiJoin(a, kt, c, kc) + EquiJoin(b, kt, c, kc)
    decreases |b|
  {
    hide JoinRow;
    if b == [] {
      assert a + b == a;
    } else {
      var m := |b| - 1;
      EquiJoinConcat(a, b[..m], kt, c, kc);
      assert (a + b)[..|a + b| - 1] == a + b[..m] && (a + b)[|a + b| - 1] == b[m];
      assert EquiJoin(b, kt, c, kc) == EquiJoin(b[..m], kt, c, kc) + JoinRow(b[m], kt(b[m]), c, kc);
      assert EquiJoin(a + b, kt, c, kc) == EquiJoin(a + b[..m], kt, c, kc) + JoinRow(b[m], kt(b[m]), c, kc);
      hide EquiJoin;
    }
  }

  lemma {:induction false} NoMatch(u: Row, k: int, c: seq<Row>, kc: Row -> int)
    requires forall j :: 0 <= j < |c| ==> kc(c[j]) != k
    ensures JoinRow(u, k, c, kc) == []
    decreases |c|
  {
    if c != [] {
      NoMatch(u, k, c[..|c| - 1], kc);
    }
  }

  /** A row finds its partners in the bin of its own key. */
  lemma {:induction false} OneBin(u: Row, k: int, cb: seq<seq<Row>>, kc: Row -> int, m: nat)
    requires m <= |cb| && |cb| > 0 && Binned(cb, kc) && 0 <= JavaMod(k, |cb|)
    ensures JoinRow(u, k, Concat(cb[..m]), kc) ==
      if JavaMod(k, |cb|) < m then JoinRow(u, k, cb[JavaMod(k, |cb|)], kc) else []
    decreases m
  {
    hide JavaMod, JoinRow;
    if m == 0 {
      assert cb[..0] == [];
      NoMatch(u, k, [], kc);
    } else {
      OneBin(u, k, cb, kc, m - 1);
      assert cb[..m][..m - 1] == cb[..m - 1];
      JoinRowConcat(u, k, Concat(cb[..m - 1]), cb[m - 1], kc);
      if JavaMod(k, |cb|) != m - 1 {
        NoMatch(u, k, cb[m - 1], kc);
      }
    }
  }

  lemma {:induction false} BinAgainstAll(t: seq<Row>, kt: Row -> int, cb: seq<seq<Row>>, kc: Row -> int, i: nat)
    requires i < |cb| && Binned(cb, kc) && forall j :: 0 <= j < |t| ==> JavaMod(kt(t[j]), |cb|) == i
    ensures EquiJoin(t, kt, Concat(cb), kc) == EquiJoin(t, kt, cb[i], kc)
    decreases |t|
  {
    hide JavaMod, JoinRow, Concat, Binned;
    if t != [] {
      var m := |t| - 1;
      BinAgainstAll(t[..m], kt, cb, kc, i);
      OneBin(t[m], kt(t[m]), cb, kc, |cb|);
      assert cb[..|cb|] == cb;
    }
  }

  /** The joins of the first m pairs of bins, one after the other. */
  function BinJoins(tb: seq<seq<Row>>, kt: Row -> int, cb: seq<seq<Row>>, kc: Row -> int, m: nat): seq<Row>
    requires m <= |tb| && m <= |cb|
  {
    if m == 0 then [] else BinJoins(tb, kt, cb, kc, m - 1) + EquiJoin(tb[m - 1], kt, cb[m - 1], kc)
  }

  /** Joining bin by bin gives the join of the whole. */
  lemma {:induction false} BinwiseJoin(tb: seq<seq<Row>>, kt: Row -> int, cb: seq<seq<Row>>, kc: Row -> int, m: nat)
    requires m <= |tb| == |cb| && |cb| > 0 && Binned(tb, kt) && Binned(cb, kc)
    ensures BinJoins(tb, kt, cb, kc, m) == EquiJoin(Concat(tb[..m]), kt, Concat(cb), kc)
    decreases m
  {
    hide JavaMod, EquiJoin;
    if m == 0 {
      assert tb[..0] == [];
      JoinNothing(kt, Concat(cb), kc);
    } else {
      BinwiseJoin(tb, kt, cb, kc, m - 1);
      assert tb[..m][..m - 1] == tb[..m - 1];
      EquiJoinConcat(Concat(tb[..m - 1]), tb[m - 1], kt, Concat(cb), kc);
      BinAgainstAll(tb[m - 1], kt, cb, kc, m - 1);
    }
  }

  lemma JoinNothing(kt: Row -> int, c: seq<Row>, kc: Row -> int)
    ensures EquiJoin([], kt, c, kc) == []
  {
  }

  // ------------------------------------------------------------ the order of rows does not matter

  /** a without its j-th row. */
  function Without(a: seq<Row>, j: nat): (r: seq<Row>)
    requires j < |a|
    ensures multiset(r) == multiset(a) - multiset{a[j]}
  {
    assert a == a[..j] + [a[j]] + a[j + 1..];
    a[..j] + a[j + 1..]
  }

  lemma JoinRowWithout(u: Row, k: int, c: seq<Row>, kc: Row -> int, j: nat)
    requires j < |c|
    ensures multiset(JoinRow(u, k, c, kc)) ==
      multiset(JoinRow(u, k, Without(c, j), kc)) + multiset(if kc(c[j]) == k then [u + c[j]] else [])
  {
    var a, b := c[..j], c[j + 1..];
    assert c == a + [c[j]] + b;
    JoinRowConcat(u, k, a + [c[j]], b, kc);
    JoinRowConcat(u, k, a, b, kc);
    assert (a + [c[j]])[..|a|] == a;
  }

  lemma {:induction false} JoinRowAnyOrder(u: Row, k: int, c: seq<Row>, d: seq<Row>, kc: Row -> int)
    requires multiset(c) == multiset(d)
    ensures multiset(JoinRow(u, k, c, kc)) == multiset(JoinRow(u, k, d, kc))
    decreases |c|
  {
    if c == [] {
      assert multiset(d) == multiset{};
      assert d == [];
    } else {
      var m := |c| - 1;
      assert c[m] in multiset(d);
      var j :| 0 <= j < |d| && d[j] == c[m];
      assert c == c[..m] + [c[m]];
      JoinRowWithout(u, k, d, kc, j);
      JoinRowAnyOrder(u, k, c[..m], Without(d, j), kc);
    }
  }

  lemma {:induction false} EquiJoinAnyInner(t: seq<Row>, kt: Row -> int, c: seq<Row>, d: seq<Row>, kc: Row -> int)
    requires multiset(c) == multiset(d)
    ensures multiset(EquiJoin(t, kt, c, kc)) == multiset(EquiJoin(t, kt, d, kc))
    decreases |t|
  {
    hide JoinRow;
    if t != [] {
      var m := |t| - 1;
      EquiJoinAnyInner(t[..m], kt, c, d, kc);
      JoinRowAnyOrder(t[m], kt(t[m]), c, d, kc);
    }
  }

  lemma EquiJoinWithout(t: seq<Row>, kt: Row -> int, c: seq<Row>, kc: Row -> int, j: nat)
    requires j < |t|
    ensures multiset(EquiJoin(t, kt, c, kc)) ==
      multiset(EquiJoin(Without(t, j), kt, c, kc)) + multiset(JoinRow(t[j], kt(t[j]), c, kc))
  {
    hide JoinRow;
    var a, b := t[..j], t[j + 1..];
    assert t == a + [t[j]] + b;
    EquiJoinConcat(a + [t[j]], b, kt, c, kc);
    EquiJoinConcat(a, b, kt, c, kc);
    assert (a + [t[j]])[..|a|] == a;
  }

  lemma {:induction false} EquiJoinAnyOuter(t: seq<Row>, s: seq<Row>, kt: Row -> int, c: seq<Row>, kc: Row -> int)
    requires multiset(t) == multiset(s)
    ensures multiset(EquiJoin(t, kt, c, kc)) == multiset(EquiJoin(s, kt, c, kc))
    decreases |t|
  {
    hide JoinRow;
    if t == [] {
      assert multiset(s) == multiset{};
      assert s == [];
    } else {
      var m := |t| - 1;
      assert t[m] in multiset(s);
      var j :| 0 <= j < |s| && s[j] == t[m];
      assert t == t[..m] + [t[m]];
      EquiJoinWithout(s, kt, c, kc, j);
      EquiJoinAnyOuter(t[..m], Without(s, j), kt, c, kc);
    }
  }

  /** The join depends on its tables only as multisets of rows. */
  lemma EquiJoinAnyOrder(t: seq<Row>, s: seq<Row>, kt: Row -> int, c: seq<Row>, d: seq<Row>, kc: Row -> int)
    requires multiset(t) == multiset(s) && multiset(c) == multiset(d)
    ensures multiset(EquiJoin(t, kt, c, kc)) == multiset(EquiJoin(s, kt, d, kc))
  {
    hide EquiJoin;
    EquiJoinAnyOuter(t, s, kt, c, kc);
    EquiJoinAnyInner(s, kt, c, d, kc);
  }
}
