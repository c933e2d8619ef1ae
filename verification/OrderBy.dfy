/** ORDER BY: one pass per column inserts the rows into a TreeMap whose comparator
    never returns zero, and reads them back in order. The passes run from the last
    column to the first. */
module OrderBy {
  import opened Options

  /** A column: the value a row has in it, if it has one, and the direction. */
  datatype Column<!R, !K> = Column(key: R -> Option<K>, asc: bool)

  /** compareTo(a, b) < 0 on the values: a strict total order. */
  ghost predicate StrictTotal<K(!new)>(lt: (K, K) -> bool) {
    && (forall a :: !lt(a, a))
    && (forall a, b :: lt(a, b) || lt(b, a) || a == b)
    && (forall a, b, c :: lt(a, b) && lt(b, c) ==> lt(a, c))
  }

  /** The comparator returns a negative number for (a, b). */
  predicate Less<K>(lt: (K, K) -> bool, asc: bool, a: K, b: K) {
    if asc then lt(a, b) else lt(b, a)
  }

  // ------------------------------------------------------------ the tree

  datatype Tree<R, K> = Leaf | Node(left: Tree<R, K>, key: K, row: R, right: Tree<R, K>)

  function Inorder<R, K>(t: Tree<R, K>): seq<(K, R)> {
    if t.Leaf? then [] else Inorder(t.left) + [(t.key, t.row)] + Inorder(t.right)
  }

  /** put, up to the rebalancing: left when the comparator is negative, else right. */
  function Insert<R, K>(t: Tree<R, K>, lt: (K, K) -> bool, asc: bool, k: K, r: R): Tree<R, K> {
    if t.Leaf? then Node(Leaf, k, r, Leaf)
    else if Less(lt, asc, k, t.key) then t.(left := Insert(t.left, lt, asc, k, r))
    else t.(right := Insert(t.right, lt, asc, k, r))
  }

  /** A rotation, at the node that a path leads to (true goes left). */
  datatype Turn = Turn(path: seq<bool>, toLeft: bool)

  function Rotate<R, K>(t: Tree<R, K>, turn: Turn): Tree<R, K>
    decreases |turn.path|
  {
    if t.Leaf? then t
    else if turn.path != [] then
      var rest := Turn(turn.path[1..], turn.toLeft);
      if turn.path[0] then t.(left := Rotate(t.left, rest)) else t.(right := Rotate(t.right, rest))
    else if turn.toLeft then
      if t.right.Leaf? then t else t.right.(left := t.(right := t.right.left))
    else
      if t.left.Leaf? then t else t.left.(right := t.(left := t.left.right))
  }

  function Rebalance<R, K>(t: Tree<R, K>, turns: seq<Turn>): Tree<R, K>
    decreases |turns|
  {
    if turns == [] then t else Rebalance(Rotate(t, turns[0]), turns[1..])
  }

  lemma {:induction false} RotateKeeps<R, K>(t: Tree<R, K>, turn: Turn)
    ensures Inorder(Rotate(t, turn)) == Inorder(t)
    decreases |turn.path|
  {
    if !t.Leaf? {
      if turn.path != [] {
        var rest := Turn(turn.path[1..], turn.toLeft);
        if turn.path[0] {
          RotateKeeps(t.left, rest);
        } else {
          RotateKeeps(t.right, rest);
        }
      } else if turn.toLeft && !t.right.Leaf? {
        var a, b, c := Inorder(t.left), Inorder(t.right.left), Inorder(t.right.right);
        var x, y := [(t.key, t.row)], [(t.right.key, t.right.row)];
        assert a + x + (b + y + c) == (a + x + b) + y + c;
      } else if !turn.toLeft && !t.left.Leaf? {
        var a, b, c := Inorder(t.left.left), Inorder(t.left.right), Inorder(t.right);
        var x, y := [(t.left.key, t.left.row)], [(t.key, t.row)];
        assert (a + x + b) + y + c == a + x + (b + y + c);
      }
    }
  }

  lemma {:induction false} RebalanceKeeps<R, K>(t: Tree<R, K>, turns: seq<Turn>)
    ensures Inorder(Rebalance(t, turns)) == Inorder(t)
    decreases |turns|
  {
    hide Inorder;
    if turns != [] {
      RotateKeeps(t, turns[0]);
      RebalanceKeeps(Rotate(t, turns[0]), turns[1..]);
    }
  }

  // ------------------------------------------------------------ what an insertion does

  /** No entry comes before an earlier one. */
  ghost predicate Sorted<R, K>(es: seq<(K, R)>, lt: (K, K) -> bool, asc: bool) {
    forall i, j :: 0 <= i < j < |es| ==> !Less(lt, asc, es[j].0, es[i].0)
  }

  /** The new entry goes behind all the entries that it does not come before. */
  function Placed<R, K>(es: seq<(K, R)>, lt: (K, K) -> bool, asc: bool, k: K, r: R): seq<(K, R)> {
    if es == [] then [(k, r)]
    else if Less(lt, asc, k, es[0].0) then [(k, r)] + es
    else [es[0]] + Placed(es[1..], lt, asc, k, r)
  }

  lemma {:induction false} PlacedAfter<R, K>(a: seq<(K, R)>, b: seq<(K, R)>, lt: (K, K) -> bool, asc: bool, k: K, r: R)
    requires forall i :: 0 <= i < |a| ==> !Less(lt, asc, k, a[i].0)
    ensures Placed(a + b, lt, asc, k, r) == a + Placed(b, lt, asc, k, r)
    decreases |a|
  {
    if a == [] {
      assert a + b == b;
    } else {
      PlacedAfter(a[1..], b, lt, asc, k, r);
      assert (a + b)[1..] == a[1..] + b;
    }
  }

  lemma {:induction false} PlacedBefore<R, K>(a: seq<(K, R)>, x: (K, R), b: seq<(K, R)>, lt: (K, K) -> bool, asc: bool,
                                              k: K, r: R)
    requires Less(lt, asc, k, x.0)
    ensures Placed(a + [x] + b, lt, asc, k, r) == Placed(a, lt, asc, k, r) + [x] + b
    decreases |a|
  {
    if a == [] {
      assert a + [x] + b == [x] + b;
    } else {
      PlacedBefore(a[1..], x, b, lt, asc, k, r);
      assert (a + [x] + b)[1..] == a[1..] + [x] + b;
    }
  }

  /** In a sorted tree, of any shape, an insertion puts the entry behind its equals. */
  lemma {:induction false} InsertPlaces<R, K(!new)>(t: Tree<R, K>, lt: (K, K) -> bool, asc: bool, k: K, r: R)
    requires StrictTotal(lt) && Sorted(Inorder(t), lt, asc)
    ensures Inorder(Insert(t, lt, asc, k, r)) == Placed(Inorder(t), lt, asc, k, r)
    decreases t
  {
    if !t.Leaf? {
      var a, x, b := Inorder(t.left), (t.key, t.row), Inorder(t.right);
      SortedParts(a, x, b, lt, asc);
      if Less(lt, asc, k, t.key) {
        InsertPlaces(t.left, lt, asc, k, r);
        PlacedBefore(a, x, b, lt, asc, k, r);
      } else {
        InsertPlaces(t.right, lt, asc, k, r);
        forall i | 0 <= i < |a + [x]|
          ensures !Less(lt, asc, k, (a + [x])[i].0)
        {
          NotLess(lt, asc, k, x.0, (a + [x])[i].0);
        }
        PlacedAfter(a + [x], b, lt, asc, k, r);
        assert a + [x] + Placed(b, lt, asc, k, r) == (a + [x]) + Placed(b, lt, asc, k, r);
      }
    }
  }

  lemma SortedParts<R, K>(a: seq<(K, R)>, x: (K, R), b: seq<(K, R)>, lt: (K, K) -> bool, asc: bool)
    requires Sorted(a + [x] + b, lt, asc)
    ensures Sorted(a, lt, asc) && Sorted(b, lt, asc)
    ensures forall i :: 0 <= i < |a| ==> !Less(lt, asc, x.0, a[i].0)
  {
    hide Less;
    var all := a + [x] + b;
    assert all[|a|] == x;
    assert forall i :: 0 <= i < |a| ==> all[i] == a[i];
    forall i, j | 0 <= i < j < |b|
      ensures !Less(lt, asc, b[j].0, b[i].0)
    {
      assert all[|a| + 1 + i] == b[i] && all[|a| + 1 + j] == b[j];
    }
  }

  lemma NotLess<K(!new)>(lt: (K, K) -> bool, asc: bool, k: K, x: K, y: K)
    requires StrictTotal(lt) && !Less(lt, asc, k, x) && (y == x || !Less(lt, asc, x, y))
    ensures !Less(lt, asc, k, y)
  {
  }

  /** The entries with key k, in order. */
  function Ties<R, K(==)>(es: seq<(K, R)>, k: K): seq<(K, R)> {
    if es == [] then [] else (if es[0].0 == k then [es[0]] else []) + Ties(es[1..], k)
  }

  lemma {:induction false} PlacedMembers<R, K>(es: seq<(K, R)>, lt: (K, K) -> bool, asc: bool, k: K, r: R)
    ensures |Placed(es, lt, asc, k, r)| == |es| + 1
    ensures forall i :: 0 <= i < |es| + 1 ==> Placed(es, lt, asc, k, r)[i] == (k, r) || Placed(es, lt, asc, k, r)[i] in es
    decreases |es|
  {
    if es != [] {
      PlacedMembers(es[1..], lt, asc, k, r);
    }
  }

  lemma {:induction false} PlacedSorted<R, K(!new)>(es: seq<(K, R)>, lt: (K, K) -> bool, asc: bool, k: K, r: R)
    requires StrictTotal(lt) && Sorted(es, lt, asc)
    ensures Sorted(Placed(es, lt, asc, k, r), lt, asc)
    decreases |es|
  {
    if es != [] {
      var p := Placed(es, lt, asc, k, r);
      if Less(lt, asc, k, es[0].0) {
        forall j | 1 <= j < |p|
          ensures !Less(lt, asc, p[j].0, k)
        {
          assert p[j] == es[j - 1];
        }
      } else {
        var rest := Placed(es[1..], lt, asc, k, r);
        PlacedSorted(es[1..], lt, asc, k, r);
        PlacedMembers(es[1..], lt, asc, k, r);
        forall j | 0 <= j < |rest|
          ensures !Less(lt, asc, rest[j].0, es[0].0)
        {
          if rest[j] in es[1..] {
            var i :| 0 <= i < |es[1..]| && es[1..][i] == rest[j];
            assert es[i + 1] == rest[j];
          }
        }
        assert p == [es[0]] + rest;
      }
    }
  }

  /** The new entry becomes the last of those with its key; no other ties change. */
  lemma {:induction false} PlacedTies<R, K(!new)>(es: seq<(K, R)>, lt: (K, K) -> bool, asc: bool, k: K, r: R, q: K)
    requires StrictTotal(lt) && Sorted(es, lt, asc)
    ensures Ties(Placed(es, lt, asc, k, r), q) == Ties(es, q) + if q == k then [(k, r)] else []
    decreases |es|
  {
    hide StrictTotal, Less, Sorted, Ties, Placed;
    PlacedCases(es, lt, asc, k, r);
    if es == [] {
      TiesCons((k, r), es, q);
    } else if Less(lt, asc, k, es[0].0) {
      TiesCons((k, r), es, q);
      NoneEqual(es, lt, asc, k);
      if q == k {
        NoTies(es, q);
      }
    } else {
      var x, tail := es[0], es[1..];
      SortedTail(es, lt, asc);
      PlacedTies(tail, lt, asc, k, r, q);
      TiesCons(x, Placed(tail, lt, asc, k, r), q);
      TiesCons(x, tail, q);
      assert es == [x] + tail;
    }
  }

  lemma TiesCons<R, K>(x: (K, R), es: seq<(K, R)>, q: K)
    ensures Ties([x] + es, q) == (if x.0 == q then [x] else []) + Ties(es, q)
    ensures es == [] ==> [x] + es == [x] && Ties(es, q) == []
  {
    assert ([x] + es)[1..] == es;
  }

  lemma PlacedCases<R, K>(es: seq<(K, R)>, lt: (K, K) -> bool, asc: bool, k: K, r: R)
    ensures es == [] ==> Placed(es, lt, asc, k, r) == [(k, r)]
    ensures es != [] && Less(lt, asc, k, es[0].0) ==> Placed(es, lt, asc, k, r) == [(k, r)] + es
    ensures es != [] && !Less(lt, asc, k, es[0].0) ==>
      Placed(es, lt, asc, k, r) == [es[0]] + Placed(es[1..], lt, asc, k, r)
  {
  }

  lemma SortedTail<R, K>(es: seq<(K, R)>, lt: (K, K) -> bool, asc: bool)
    requires Sorted(es, lt, asc) && es != []
    ensures Sorted(es[1..], lt, asc)
  {
    hide Less;
  }

  lemma NoneEqual<R, K(!new)>(es: seq<(K, R)>, lt: (K, K) -> bool, asc: bool, k: K)
    requires StrictTotal(lt) && Sorted(es, lt, asc) && es != [] && Less(lt, asc, k, es[0].0)
    ensures forall i :: 0 <= i < |es| ==> es[i].0 != k
  {
    assert !Less(lt, asc, k, k);
    hide StrictTotal, Less;
    forall i | 0 <= i < |es|
      ensures es[i].0 != k
    {
      assert i > 0 ==> !Less(lt, asc, es[i].0, es[0].0);
    }
  }

  lemma {:induction false} NoTies<R, K>(es: seq<(K, R)>, k: K)
    requires forall i :: 0 <= i < |es| ==> es[i].0 != k
    ensures Ties(es, k) == []
    decreases |es|
  {
    if es != [] {
      NoTies(es[1..], k);
    }
  }

  // ------------------------------------------------------------ one pass

  /** The rows whose value in the column is k, in order. */
  function RowsWith<R, K(==)>(rows: seq<R>, col: Column<R, K>, k: K): seq<R> {
    if rows == [] then [] else (if col.key(rows[0]) == Some(k) then [rows[0]] else []) + RowsWith(rows[1..], col, k)
  }

  lemma {:induction false} RowsWithConcat<R, K>(a: seq<R>, b: seq<R>, col: Column<R, K>, k: K)
    ensures RowsWith(a + b, col, k) == RowsWith(a, col, k) + RowsWith(b, col, k)
    decreases |a|
  {
    if a == [] {
      assert a + b == b;
    } else {
      RowsWithConcat(a[1..], b, col, k);
      assert (a + b)[1..] == a[1..] + b;
    }
  }

  lemma RowsWithSnoc<R, K>(a: seq<R>, r: R, col: Column<R, K>, k: K)
    ensures RowsWith(a + [r], col, k) == RowsWith(a, col, k) + if col.key(r) == Some(k) then [r] else []
  {
    RowsWithConcat(a, [r], col, k);
    assert [r][1..] == [];
  }

  /** Every row has a value in the column, and no row comes before an earlier one. */
  ghost predicate SortedBy<R, K>(rows: seq<R>, col: Column<R, K>, lt: (K, K) -> bool) {
    && (forall i :: 0 <= i < |rows| ==> col.key(rows[i]).Some?)
    && (forall i, j :: 0 <= i < j < |rows| ==> !Less(lt, col.asc, col.key(rows[j]).value, col.key(rows[i]).value))
  }

  /** A stable sort by the column of the rows that have a value in it. */
  ghost predicate StableSort<R, K(!new)>(rows: seq<R>, out: seq<R>, col: Column<R, K>, lt: (K, K) -> bool) {
    SortedBy(out, col, lt) && forall k :: RowsWith(out, col, k) == RowsWith(rows, col, k)
  }

  function Seconds<R, K>(es: seq<(K, R)>): (r: seq<R>)
    ensures |r| == |es| && forall i :: 0 <= i < |es| ==> r[i] == es[i].1
  {
    seq(|es|, i requires 0 <= i < |es| => es[i].1)
  }

  ghost predicate Keyed<R, K>(es: seq<(K, R)>, col: Column<R, K>) {
    forall i :: 0 <= i < |es| ==> col.key(es[i].1) == Some(es[i].0)
  }

  lemma {:induction false} TiesAreRows<R, K>(es: seq<(K, R)>, col: Column<R, K>, k: K)
    requires Keyed(es, col)
    ensures Seconds(Ties(es, k)) == RowsWith(Seconds(es), col, k)
    decreases |es|
  {
    if es != [] {
      TiesAreRows(es[1..], col, k);
      assert Seconds(es)[1..] == Seconds(es[1..]);
      assert Seconds([es[0]] + Ties(es[1..], k)) == [es[0].1] + Seconds(Ties(es[1..], k));
    }
  }

  /** One row more in the tree. */
  lemma PutStep<R, K(!new)>(t: Tree<R, K>, t': Tree<R, K>, done: seq<R>, r: R, col: Column<R, K>, lt: (K, K) -> bool, k: K,
                            turns: seq<Turn>)
    requires StrictTotal(lt) && Keyed(Inorder(t), col) && col.key(r) == Some(k)
    requires Sorted(Inorder(t), lt, col.asc) && t' == Rebalance(Insert(t, lt, col.asc, k, r), turns)
    requires forall q :: Seconds(Ties(Inorder(t), q)) == RowsWith(done, col, q)
    ensures Keyed(Inorder(t'), col) && Sorted(Inorder(t'), lt, col.asc)
    ensures forall q :: Seconds(Ties(Inorder(t'), q)) == RowsWith(done + [r], col, q)
  {
    hide Inorder, StrictTotal, Less, Sorted, RowsWith, Ties, Seconds;
    var es := Inorder(t);
    RebalanceKeeps(Insert(t, lt, col.asc, k, r), turns);
    InsertPlaces(t, lt, col.asc, k, r);
    PlacedSorted(es, lt, col.asc, k, r);
    PlacedMembers(es, lt, col.asc, k, r);
    forall q
      ensures Seconds(Ties(Inorder(t'), q)) == RowsWith(done + [r], col, q)
    {
      PlacedTies(es, lt, col.asc, k, r, q);
      RowsWithSnoc(done, r, col, q);
      SecondsSnoc(Ties(es, q), k, r);
      SecondsNothing(Ties(es, q));
    }
  }

  lemma SecondsSnoc<R, K>(es: seq<(K, R)>, k: K, r: R)
    ensures Seconds(es + [(k, r)]) == Seconds(es) + [r]
  {
  }

  lemma SecondsNothing<R, K>(es: seq<(K, R)>)
    ensures Seconds(es + []) == Seconds(es) + []
  {
    assert es + [] == es;
  }

  /** calculateOrderBy: a stable sort, whatever rotations the tree makes. A row that has
      no value in the column is dropped. */
  method CalculateOrderBy<R, K(==, !new)>(rows: seq<R>, col: Column<R, K>, lt: (K, K) -> bool, turns: nat -> seq<Turn>)
    returns (out: seq<R>)
    requires StrictTotal(lt)
    ensures StableSort(rows, out, col, lt)
    ensures forall i, j :: 0 <= i < j < |out| ==>
      && col.key(out[i]).Some? && col.key(out[j]).Some?
      && var x, y := col.key(out[i]).value, col.key(out[j]).value;
         x == y || if col.asc then lt(x, y) else lt(y, x)
  {
    hide Inorder, StrictTotal, Less, RowsWith, Ties, Sorted, Insert, Rebalance;
    var t: Tree<R, K> := Leaf;
    EmptyTree(col, lt, rows[..0]);
    var i := 0;
    while i < |rows|
      invariant 0 <= i <= |rows|
      invariant Keyed(Inorder(t), col) && Sorted(Inorder(t), lt, col.asc)
      invariant forall q :: Seconds(Ties(Inorder(t), q)) == RowsWith(rows[..i], col, q)
    {
      var val := col.key(rows[i]);
      assert rows[..i + 1] == rows[..i] + [rows[i]];
      if val.Some? {
        var t' := Rebalance(Insert(t, lt, col.asc, val.value, rows[i]), turns(i));
        PutStep(t, t', rows[..i], rows[i], col, lt, val.value, turns(i));
        t := t';
      } else {
        forall q
          ensures RowsWith(rows[..i + 1], col, q) == RowsWith(rows[..i], col, q)
        {
          RowsWithSnoc(rows[..i], rows[i], col, q);
        }
      }
      i := i + 1;
    }
    assert rows[..i] == rows;
    out := Values(t);
    ReadBack(Inorder(t), rows, col, lt);
    Directed(rows, out, col, lt);
  }

  lemma Directed<R, K(!new)>(rows: seq<R>, out: seq<R>, col: Column<R, K>, lt: (K, K) -> bool)
    requires StrictTotal(lt) && StableSort(rows, out, col, lt)
    ensures forall i, j :: 0 <= i < j < |out| ==>
      && col.key(out[i]).Some? && col.key(out[j]).Some?
      && var x, y := col.key(out[i]).value, col.key(out[j]).value;
         x == y || if col.asc then lt(x, y) else lt(y, x)
  {
    hide RowsWith;
  }

  /** The values of the map, in the order of its iterator. */
  function Values<R, K>(t: Tree<R, K>): seq<R> {
    Seconds(Inorder(t))
  }

  lemma EmptyTree<R, K(!new)>(col: Column<R, K>, lt: (K, K) -> bool, none: seq<R>)
    requires none == []
    ensures Keyed(Inorder<R, K>(Leaf), col) && Sorted(Inorder<R, K>(Leaf), lt, col.asc)
    ensures forall q :: Seconds(Ties(Inorder<R, K>(Leaf), q)) == RowsWith(none, col, q)
  {
  }

  lemma ReadBack<R, K(!new)>(es: seq<(K, R)>, rows: seq<R>, col: Column<R, K>, lt: (K, K) -> bool)
    requires Keyed(es, col) && Sorted(es, lt, col.asc)
    requires forall q :: Seconds(Ties(es, q)) == RowsWith(rows, col, q)
    ensures StableSort(rows, Seconds(es), col, lt)
  {
    hide Less, RowsWith, Ties;
    forall k
      ensures RowsWith(Seconds(es), col, k) == RowsWith(rows, col, k)
    {
      TiesAreRows(es, col, k);
    }
  }

  // ------------------------------------------------------------ all passes

  predicate HasAll<R, K>(cols: seq<Column<R, K>>, r: R) {
    forall i :: 0 <= i < |cols| ==> cols[i].key(r).Some?
  }

  /** a may stand in front of b: at the first column where they differ, b does not come
      before a. */
  ghost predicate LexLe<R, K>(cols: seq<Column<R, K>>, lt: (K, K) -> bool, a: R, b: R)
    requires HasAll(cols, a) && HasAll(cols, b)
  {
    cols == [] ||
    (var c := cols[0];
     var x, y := c.key(a).value, c.key(b).value;
     !Less(lt, c.asc, y, x) && (x == y ==>
       assert HasAll(cols[1..], a) && HasAll(cols[1..], b);
       LexLe(cols[1..], lt, a, b)))
  }

  ghost predicate LexSorted<R, K>(rows: seq<R>, cols: seq<Column<R, K>>, lt: (K, K) -> bool) {
    && (forall i :: 0 <= i < |rows| ==> HasAll(cols, rows[i]))
    && (forall i, j :: 0 <= i < j < |rows| ==> LexLe(cols, lt, rows[i], rows[j]))
  }

  /** The rows that agree with x in all the columns, in order. */
  function Alike<R, K(==)>(rows: seq<R>, cols: seq<Column<R, K>>, x: R): seq<R>
    requires HasAll(cols, x)
    decreases |cols|
  {
    if cols == [] then rows
    else
      assert cols[0].key(x).Some? && HasAll(cols[1..], x);
      Alike(RowsWith(rows, cols[0], cols[0].key(x).value), cols[1..], x)
  }

  /** Rows that agree in all the columns stand in the order they had. */
  ghost predicate Stable<R(!new), K>(rows: seq<R>, out: seq<R>, cols: seq<Column<R, K>>) {
    forall x :: HasAll(cols, x) ==> Alike(out, cols, x) == Alike(rows, cols, x)
  }

  lemma {:induction false} WithCommutes<R, K>(rows: seq<R>, c: Column<R, K>, k: K, d: Column<R, K>, l: K)
    ensures RowsWith(RowsWith(rows, c, k), d, l) == RowsWith(RowsWith(rows, d, l), c, k)
    decreases |rows|
  {
    if rows != [] {
      var r, rest := rows[0], rows[1..];
      WithCommutes(rest, c, k, d, l);
      RowsWithConcat(if c.key(r) == Some(k) then [r] else [], RowsWith(rest, c, k), d, l);
      RowsWithConcat(if d.key(r) == Some(l) then [r] else [], RowsWith(rest, d, l), c, k);
      assert [r][1..] == [];
    }
  }

  lemma {:induction false} AlikeCommutes<R, K>(rows: seq<R>, c: Column<R, K>, k: K, cols: seq<Column<R, K>>, x: R)
    requires HasAll(cols, x)
    ensures Alike(RowsWith(rows, c, k), cols, x) == RowsWith(Alike(rows, cols, x), c, k)
    decreases |cols|
  {
    hide RowsWith;
    if cols != [] {
      assert HasAll(cols[1..], x);
      var d := cols[0];
      var l := d.key(x).value;
      WithCommutes(rows, c, k, d, l);
      AlikeCommutes(RowsWith(rows, d, l), c, k, cols[1..], x);
    }
  }

  /** Two rows with value k keep their places in the selection of the rows with k. */
  lemma {:induction false} PairSelected<R, K>(rows: seq<R>, c: Column<R, K>, k: K, i: nat, j: nat) returns (p: nat, q: nat)
    requires i < j < |rows| && c.key(rows[i]) == Some(k) && c.key(rows[j]) == Some(k)
    ensures p < q < |RowsWith(rows, c, k)|
    ensures RowsWith(rows, c, k)[p] == rows[i] && RowsWith(rows, c, k)[q] == rows[j]
  {
    var one, tail := rows[j], rows[j + 1..];
    assert rows == rows[..j] + [one] + tail;
    RowsWithConcat(rows[..j] + [one], tail, c, k);
    RowsWithSnoc(rows[..j], one, c, k);
    q := |RowsWith(rows[..j], c, k)|;
    p := Selected(rows[..j], c, k, i);
  }

  lemma Selected<R, K>(rows: seq<R>, c: Column<R, K>, k: K, i: nat) returns (p: nat)
    requires i < |rows| && c.key(rows[i]) == Some(k)
    ensures p < |RowsWith(rows, c, k)| && RowsWith(rows, c, k)[p] == rows[i]
  {
    var tail := rows[i + 1..];
    assert rows == rows[..i] + [rows[i]] + tail;
    RowsWithConcat(rows[..i] + [rows[i]], tail, c, k);
    RowsWithSnoc(rows[..i], rows[i], c, k);
    p := |RowsWith(rows[..i], c, k)|;
  }

  /** A selection of the rows is sorted as they are. */
  lemma {:induction false} SelectionSorted<R, K>(rows: seq<R>, c: Column<R, K>, k: K, cols: seq<Column<R, K>>,
                                                 lt: (K, K) -> bool)
    requires LexSorted(rows, cols, lt)
    ensures LexSorted(RowsWith(rows, c, k), cols, lt)
    ensures forall i :: 0 <= i < |RowsWith(rows, c, k)| ==> RowsWith(rows, c, k)[i] in rows
    decreases |rows|
  {
    hide LexLe;
    if rows != [] {
      SelectionSorted(rows[1..], c, k, cols, lt);
      var s := RowsWith(rows[1..], c, k);
      forall j | 0 <= j < |s|
        ensures HasAll(cols, s[j]) && LexLe(cols, lt, rows[0], s[j])
      {
        var i :| 0 <= i < |rows[1..]| && rows[1..][i] == s[j];
        assert rows[i + 1] == s[j];
      }
    }
  }

  /** A pass for a column in front of the ones already sorted by. */
  lemma PassInFront<R(!new), K(!new)>(rows: seq<R>, mid: seq<R>, out: seq<R>, cols: seq<Column<R, K>>, lt: (K, K) -> bool)
    requires cols != [] && LexSorted(mid, cols[1..], lt) && Stable(rows, mid, cols[1..])
    requires StableSort(mid, out, cols[0], lt)
    ensures LexSorted(out, cols, lt) && Stable(rows, out, cols)
  {
    hide Less, RowsWith, LexLe, Alike;
    var c, rest := cols[0], cols[1..];
    forall i | 0 <= i < |out|
      ensures HasAll(rest, out[i]) && HasAll(cols, out[i])
    {
      FromMid(mid, out, c, rest, lt, i);
      assert cols == [c] + rest;
    }
    forall i, j | 0 <= i < j < |out|
      ensures LexLe(cols, lt, out[i], out[j])
    {
      PairSorted(mid, out, cols, lt, i, j);
    }
    forall x | HasAll(cols, x)
      ensures Alike(out, cols, x) == Alike(rows, cols, x)
    {
      PassAlike(rows, mid, out, cols, lt, x);
    }
  }

  lemma FromMid<R, K(!new)>(mid: seq<R>, out: seq<R>, c: Column<R, K>, rest: seq<Column<R, K>>, lt: (K, K) -> bool, i: nat)
    requires StableSort(mid, out, c, lt) && LexSorted(mid, rest, lt) && i < |out|
    ensures HasAll(rest, out[i])
  {
    hide Less, RowsWith, LexLe;
    var k := c.key(out[i]).value;
    var p := Selected(out, c, k, i);
    SelectionSorted(mid, c, k, rest, lt);
  }

  lemma PairSorted<R, K(!new)>(mid: seq<R>, out: seq<R>, cols: seq<Column<R, K>>, lt: (K, K) -> bool, i: nat, j: nat)
    requires cols != [] && LexSorted(mid, cols[1..], lt) && StableSort(mid, out, cols[0], lt)
    requires i < j < |out| && HasAll(cols, out[i]) && HasAll(cols, out[j])
    ensures LexLe(cols, lt, out[i], out[j])
  {
    hide Less, RowsWith;
    var c, rest := cols[0], cols[1..];
    var x, y := c.key(out[i]).value, c.key(out[j]).value;
    if x == y {
      var p, q := PairSelected(out, c, x, i, j);
      SelectionSorted(mid, c, x, rest, lt);
      assert LexLe(rest, lt, out[i], out[j]);
    }
  }

  lemma PassAlike<R(!new), K(!new)>(rows: seq<R>, mid: seq<R>, out: seq<R>, cols: seq<Column<R, K>>, lt: (K, K) -> bool, x: R)
    requires cols != [] && Stable(rows, mid, cols[1..]) && StableSort(mid, out, cols[0], lt) && HasAll(cols, x)
    ensures Alike(out, cols, x) == Alike(rows, cols, x)
  {
    hide Less, RowsWith;
    var c, rest := cols[0], cols[1..];
    var k := c.key(x).value;
    assert HasAll(rest, x);
    AlikeCommutes(mid, c, k, rest, x);
    AlikeCommutes(rows, c, k, rest, x);
  }

  /** Collections.reverse, then one pass per element: the rows end up in the order of the
      columns, first column first, each in its direction; rows that agree in all columns
      keep the order they had, and the rows left are those that have all the columns. */
  method SortRows<R(!new), K(==, !new)>(rows: seq<R>, cols: seq<Column<R, K>>, lt: (K, K) -> bool,
                                        turns: (nat, nat) -> seq<Turn>)
    returns (out: seq<R>)
    requires StrictTotal(lt)
    ensures LexSorted(out, cols, lt) && Stable(rows, out, cols)
    ensures forall i, j, c :: 0 <= i < j < |out| && 0 <= c < |cols| && FirstDiffer(cols, out[i], out[j], c) ==>
      && cols[c].key(out[i]).Some? && cols[c].key(out[j]).Some?
      && var x, y := cols[c].key(out[i]).value, cols[c].key(out[j]).value;
         if cols[c].asc then lt(x, y) else lt(y, x)
  {
    hide StrictTotal, LexSorted, Stable, StableSort, FirstDiffer;
    out := rows;
    NoColumns(rows, cols[|cols|..], lt);
    var i := |cols|;
    while i > 0
      invariant 0 <= i <= |cols|
      invariant LexSorted(out, cols[i..], lt) && Stable(rows, out, cols[i..])
    {
      i := i - 1;
      var mid := out;
      ghost var now := cols[i..];
      assert now[1..] == cols[i + 1..] && now[0] == cols[i];
      var pass := i;
      out := CalculateOrderBy(mid, cols[i], lt, (j: nat) => turns(pass, j));
      PassInFront(rows, mid, out, now, lt);
    }
    assert cols[0..] == cols;
    forall a, b, c | 0 <= a < b < |out| && 0 <= c < |cols| && FirstDiffer(cols, out[a], out[b], c)
      ensures && cols[c].key(out[a]).Some? && cols[c].key(out[b]).Some?
              && var x, y := cols[c].key(out[a]).value, cols[c].key(out[b]).value;
                 if cols[c].asc then lt(x, y) else lt(y, x)
    {
      SortedPair(out, cols, lt, a, b);
      FirstColumnDecides(cols, lt, out[a], out[b], c);
    }
  }

  /** c is the first column in which the rows differ. */
  predicate FirstDiffer<R, K(==)>(cols: seq<Column<R, K>>, a: R, b: R, c: nat)
    requires c < |cols|
  {
    && cols[c].key(a) != cols[c].key(b)
    && forall d :: 0 <= d < c ==> cols[d].key(a) == cols[d].key(b)
  }

  lemma SortedPair<R, K>(out: seq<R>, cols: seq<Column<R, K>>, lt: (K, K) -> bool, i: nat, j: nat)
    requires LexSorted(out, cols, lt) && i < j < |out|
    ensures HasAll(cols, out[i]) && HasAll(cols, out[j]) && LexLe(cols, lt, out[i], out[j])
  {
    hide LexLe, HasAll;
  }

  lemma {:induction false} FirstColumnDecides<R, K(!new)>(cols: seq<Column<R, K>>, lt: (K, K) -> bool, a: R, b: R, c: nat)
    requires StrictTotal(lt) && HasAll(cols, a) && HasAll(cols, b) && LexLe(cols, lt, a, b)
    requires c < |cols| && FirstDiffer(cols, a, b, c)
    ensures cols[c].key(a).Some? && cols[c].key(b).Some?
    ensures var x, y := cols[c].key(a).value, cols[c].key(b).value;
            if cols[c].asc then lt(x, y) else lt(y, x)
    decreases c
  {
    if c > 0 {
      assert cols[0].key(a) == cols[0].key(b);
      var rest := cols[1..];
      assert rest[c - 1] == cols[c];
      assert forall d :: 0 <= d < c - 1 ==> rest[d] == cols[d + 1];
      FirstColumnDecides(rest, lt, a, b, c - 1);
    }
  }

  lemma NoColumns<R(!new), K(!new)>(rows: seq<R>, none: seq<Column<R, K>>, lt: (K, K) -> bool)
    requires |none| == 0
    ensures LexSorted(rows, none, lt) && Stable(rows, rows, none)
  {
  }

  // ------------------------------------------------------------ no row is lost

  lemma {:induction false} SelectCount<R, K>(rows: seq<R>, c: Column<R, K>, k: K, x: R)
    ensures multiset(RowsWith(rows, c, k))[x] == if c.key(x) == Some(k) then multiset(rows)[x] else 0
    decreases |rows|
  {
    if rows != [] {
      SelectCount(rows[1..], c, k, x);
      assert rows == [rows[0]] + rows[1..];
    }
  }

  lemma {:induction false} AlikeCount<R, K>(rows: seq<R>, cols: seq<Column<R, K>>, x: R)
    requires HasAll(cols, x)
    ensures multiset(Alike(rows, cols, x))[x] == multiset(rows)[x]
    decreases |cols|
  {
    hide RowsWith;
    if cols != [] {
      assert HasAll(cols[1..], x);
      var k := cols[0].key(x).value;
      AlikeCount(RowsWith(rows, cols[0], k), cols[1..], x);
      SelectCount(rows, cols[0], k, x);
    }
  }

  /** The sorted rows are a permutation of the rows if and only if every row has a value
      in every column. */
  lemma KeepsAllRows<R(!new), K(!new)>(rows: seq<R>, out: seq<R>, cols: seq<Column<R, K>>, lt: (K, K) -> bool)
    requires LexSorted(out, cols, lt) && Stable(rows, out, cols)
    ensures multiset(out) == multiset(rows) <==> forall i :: 0 <= i < |rows| ==> HasAll(cols, rows[i])
    ensures forall x :: HasAll(cols, x) ==> multiset(out)[x] == multiset(rows)[x]
  {
    hide Alike, LexLe, HasAll;
    forall x | HasAll(cols, x)
      ensures multiset(out)[x] == multiset(rows)[x]
    {
      AlikeCount(rows, cols, x);
      AlikeCount(out, cols, x);
    }
    if multiset(out) == multiset(rows) {
      forall i | 0 <= i < |rows|
        ensures HasAll(cols, rows[i])
      {
        assert rows[i] in multiset(out);
      }
    }
    if forall i :: 0 <= i < |rows| ==> HasAll(cols, rows[i]) {
      forall x
        ensures multiset(out)[x] == multiset(rows)[x]
      {
        if !HasAll(cols, x) {
          assert x !in rows && x !in out;
        }
      }
    }
  }

  /** A row without the column is not in the result. */
  lemma RowWithoutColumn(out: seq<int>)
    requires var col := Column((r: int) => if r == 7 then None else Some(r), true);
             LexSorted(out, [col], (a: int, b: int) => a < b) && Stable([7, 5], out, [col])
    ensures multiset(out)[7] == 0 && multiset(out)[5] == 1
  {
    var col := Column((r: int) => if r == 7 then None else Some(r), true);
    KeepsAllRows([7, 5], out, [col], (a: int, b: int) => a < b);
    assert HasAll([col], 5) && !HasAll([col], 7) by {
      assert [col][0] == col;
    }
    hide LexLe, Stable;
    assert 7 !in out;
  }
}
