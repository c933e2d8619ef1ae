/** GROUP BY with COUNT: every bin is grouped on its own, and the partial counts are
    grouped and added up. A row's group key is the concatenation of its values in the
    grouping columns. */
module GroupBy {
  import opened Options

  /** The key of a row with these values: a missing value adds nothing. */
  function GroupKey(values: seq<Option<string>>): string {
    if values == [] then ""
    else GroupKey(values[..|values| - 1]) +
         if values[|values| - 1].Some? then values[|values| - 1].value else ""
  }

  /** The loop that builds the key. */
  method BuildKey(values: seq<Option<string>>) returns (key: string)
    ensures key == GroupKey(values)
  {
    key := "";
    var i := 0;
    assert values[..0] == [];
    while i < |values|
      invariant 0 <= i <= |values| && key == GroupKey(values[..i])
    {
      assert values[..i + 1][..i] == values[..i];
      if values[i].Some? {
        key := key + values[i].value;
      }
      i := i + 1;
    }
    assert values[..i] == values;
  }

  // ------------------------------------------------------------ reference

  function Keys<R>(rows: seq<R>, key: R -> string): (r: seq<string>)
    ensures |r| == |rows| && forall i :: 0 <= i < |rows| ==> r[i] == key(rows[i])
  {
    seq(|rows|, i requires 0 <= i < |rows| => key(rows[i]))
  }

  /** The keys in the order in which they first appear. */
  function Distinct(ks: seq<string>): seq<string> {
    if ks == [] then []
    else
      var d := Distinct(ks[..|ks| - 1]);
      if ks[|ks| - 1] in d then d else d + [ks[|ks| - 1]]
  }

  /** The rows with key k, in order. */
  function WithKey<R>(rows: seq<R>, key: R -> string, k: string): seq<R> {
    if rows == [] then []
    else WithKey(rows[..|rows| - 1], key, k) + if key(rows[|rows| - 1]) == k then [rows[|rows| - 1]] else []
  }

  /** Keys of one value and of two rows of values side by side. */
  lemma {:induction false} GroupKeyConcat(a: seq<Option<string>>, b: seq<Option<string>>, s: string)
    ensures GroupKey([None]) == "" && GroupKey([Some(s)]) == s
    ensures GroupKey(a + b) == GroupKey(a) + GroupKey(b)
    decreases |b|
  {
    assert [Some(s)][..0] == [] && GroupKey([]) == "";
    if b == [] {
      assert a + b == a;
    } else {
      GroupKeyConcat(a, b[..|b| - 1], s);
      assert (a + b)[..|a + b| - 1] == a + b[..|b| - 1];
    }
  }

  /** A group holds every row of its key as often as the table does, and no other. */
  lemma {:induction false} WithKeyCounts<R>(rows: seq<R>, key: R -> string, k: string, r: R)
    ensures multiset(WithKey(rows, key, k))[r] == if key(r) == k then multiset(rows)[r] else 0
    decreases |rows|
  {
    if rows != [] {
      var m := |rows| - 1;
      WithKeyCounts(rows[..m], key, k, r);
      assert rows == rows[..m] + [rows[m]];
    }
  }

  /** Later rows only add groups behind the ones that are there. */
  lemma {:induction false} DistinctPrefix(a: seq<string>, b: seq<string>)
    ensures Distinct(a) <= Distinct(a + b)
    decreases |b|
  {
    if b == [] {
      assert a + b == a;
    } else {
      DistinctPrefix(a, b[..|b| - 1]);
      assert (a + b)[..|a + b| - 1] == a + b[..|b| - 1];
    }
  }

  lemma {:induction false} DistinctMembers(ks: seq<string>)
    ensures forall k :: k in Distinct(ks) <==> k in ks
    ensures forall i, j :: 0 <= i < j < |Distinct(ks)| ==> Distinct(ks)[i] != Distinct(ks)[j]
    decreases |ks|
  {
    if ks != [] {
      DistinctMembers(ks[..|ks| - 1]);
      assert ks == ks[..|ks| - 1] + [ks[|ks| - 1]];
    }
  }

  lemma {:induction false} WithKeyCount<R>(rows: seq<R>, key: R -> string, k: string)
    ensures |WithKey(rows, key, k)| == multiset(Keys(rows, key))[k]
    decreases |rows|
  {
    if rows != [] {
      var m := |rows| - 1;
      WithKeyCount(rows[..m], key, k);
      assert Keys(rows, key) == Keys(rows[..m], key) + [key(rows[m])];
    }
  }

  // ------------------------------------------------------------ calculateGroupBy

  /** The grouping loop. The groups are in the order in which their keys first appear,
      and hold their rows in order. */
  method CalculateGroupBy<R>(rows: seq<R>, key: R -> string) returns (order: seq<string>, grouped: map<string, seq<R>>)
    ensures order == Distinct(Keys(rows, key))
    ensures forall k :: k in grouped <==> k in order
    ensures forall k :: k in order ==> grouped[k] == WithKey(rows, key, k)
  {
    order, grouped := [], map[];
    var i := 0;
    assert Keys(rows[..0], key) == [];
    while i < |rows|
      invariant 0 <= i <= |rows|
      invariant order == Distinct(Keys(rows[..i], key))
      invariant forall k :: k in grouped <==> k in order
      invariant forall k :: k in order ==> grouped[k] == WithKey(rows[..i], key, k)
    {
      var k := key(rows[i]);
      GroupStep(rows, key, i);
      if k in grouped {
        grouped := grouped[k := grouped[k] + [rows[i]]];
      } else {
        order := order + [k];
        grouped := grouped[k := [rows[i]]];
      }
      i := i + 1;
    }
    assert rows[..i] == rows;
  }

  lemma GroupStep<R>(rows: seq<R>, key: R -> string, i: nat)
    requires i < |rows|
    ensures Distinct(Keys(rows[..i + 1], key)) ==
      var d := Distinct(Keys(rows[..i], key));
      if key(rows[i]) in d then d else d + [key(rows[i])]
    ensures forall k ::
      WithKey(rows[..i + 1], key, k) == WithKey(rows[..i], key, k) + if key(rows[i]) == k then [rows[i]] else []
    ensures key(rows[i]) !in Distinct(Keys(rows[..i], key)) ==> WithKey(rows[..i], key, key(rows[i])) == []
  {
    assert rows[..i + 1][..i] == rows[..i];
    var ks := Keys(rows[..i + 1], key);
    assert ks[..i] == Keys(rows[..i], key) && ks[i] == key(rows[i]);
    DistinctMembers(Keys(rows[..i], key));
    WithKeyCount(rows[..i], key, key(rows[i]));
  }

  // ------------------------------------------------------------ counting, and combining the counts

  /** A row of the output: a group and its count. */
  datatype Counted = Counted(key: string, count: nat)

  function KeyOf(c: Counted): string {
    c.key
  }

  /** Every group with the number of its rows: GROUP BY and COUNT over all rows at once. */
  function Counts<R>(rows: seq<R>, key: R -> string): (r: seq<Counted>)
    ensures |r| == |Distinct(Keys(rows, key))|
    ensures forall i :: 0 <= i < |r| ==>
      r[i] == Counted(Distinct(Keys(rows, key))[i], |WithKey(rows, key, Distinct(Keys(rows, key))[i])|)
  {
    var d := Distinct(Keys(rows, key));
    seq(|d|, i requires 0 <= i < |d| => Counted(d[i], |WithKey(rows, key, d[i])|))
  }

  function Flatten<T>(xs: seq<seq<T>>): seq<T> {
    if xs == [] then [] else Flatten(xs[..|xs| - 1]) + xs[|xs| - 1]
  }

  /** The counts of all bins, one bin after the other. */
  function BinCounts<R>(bins: seq<seq<R>>, key: R -> string): seq<Counted> {
    if bins == [] then [] else BinCounts(bins[..|bins| - 1], key) + Counts(bins[|bins| - 1], key)
  }

  /** The counts with key k added up. */
  function Total(cs: seq<Counted>, k: string): nat {
    if cs == [] then 0 else Total(cs[..|cs| - 1], k) + if cs[|cs| - 1].key == k then cs[|cs| - 1].count else 0
  }

  lemma {:induction false} TotalConcat(a: seq<Counted>, b: seq<Counted>, k: string)
    ensures Total(a + b, k) == Total(a, k) + Total(b, k)
    decreases |b|
  {
    if b == [] {
      assert a + b == a;
    } else {
      TotalConcat(a, b[..|b| - 1], k);
      assert (a + b)[..|a + b| - 1] == a + b[..|b| - 1];
    }
  }

  lemma {:induction false} TotalOnce(cs: seq<Counted>, k: string, n: nat)
    requires forall i, j :: 0 <= i < j < |cs| ==> cs[i].key != cs[j].key
    requires forall i :: 0 <= i < |cs| && cs[i].key == k ==> cs[i].count == n
    requires n > 0 ==> exists i :: 0 <= i < |cs| && cs[i].key == k
    ensures Total(cs, k) == n
    decreases |cs|
  {
    if cs != [] {
      var m := |cs| - 1;
      if cs[m].key == k {
        TotalOnce(cs[..m], k, 0);
      } else {
        TotalOnce(cs[..m], k, n);
      }
    }
  }

  lemma {:induction false} WithKeyConcat<R>(a: seq<R>, b: seq<R>, key: R -> string, k: string)
    ensures WithKey(a + b, key, k) == WithKey(a, key, k) + WithKey(b, key, k)
    decreases |b|
  {
    if b == [] {
      assert a + b == a;
    } else {
      WithKeyConcat(a, b[..|b| - 1], key, k);
      assert (a + b)[..|a + b| - 1] == a + b[..|b| - 1];
    }
  }

  /** The total of a bin's counts for k is the number of its rows with k. */
  lemma TotalOfBin<R>(rows: seq<R>, key: R -> string, k: string)
    ensures Total(Counts(rows, key), k) == |WithKey(rows, key, k)|
  {
    hide Total, WithKey, Distinct;
    var cs, ks, n := Counts(rows, key), Keys(rows, key), |WithKey(rows, key, k)|;
    DistinctMembers(ks);
    WithKeyCount(rows, key, k);
    if n > 0 {
      assert k in Distinct(ks);
      var i :| 0 <= i < |cs| && Distinct(ks)[i] == k;
      assert cs[i].key == k;
    }
    TotalOnce(cs, k, n);
  }

  lemma {:induction false} TotalOfBins<R>(bins: seq<seq<R>>, key: R -> string, k: string)
    ensures Total(BinCounts(bins, key), k) == |WithKey(Flatten(bins), key, k)|
    decreases |bins|
  {
    hide Counts;
    if bins != [] {
      var m := |bins| - 1;
      TotalOfBins(bins[..m], key, k);
      TotalOfBin(bins[m], key, k);
      TotalConcat(BinCounts(bins[..m], key), Counts(bins[m], key), k);
      WithKeyConcat(Flatten(bins[..m]), bins[m], key, k);
    }
  }

  // ------------------------------------------------------------ the order of the groups

  /** d, and the keys of ks that it does not have, in the order in which they appear. */
  function Extended(d: seq<string>, ks: seq<string>): seq<string> {
    if ks == [] then d
    else
      var e := Extended(d, ks[..|ks| - 1]);
      if ks[|ks| - 1] in e then e else e + [ks[|ks| - 1]]
  }

  lemma {:induction false} DistinctConcat(a: seq<string>, b: seq<string>)
    ensures Distinct(a + b) == Extended(Distinct(a), b)
    decreases |b|
  {
    if b == [] {
      assert a + b == a;
    } else {
      DistinctConcat(a, b[..|b| - 1]);
      assert (a + b)[..|a + b| - 1] == a + b[..|b| - 1];
    }
  }

  lemma {:induction false} ExtendedMembers(d: seq<string>, ks: seq<string>)
    ensures forall k :: k in ks ==> k in Extended(d, ks)
    decreases |ks|
  {
    if ks != [] {
      ExtendedMembers(d, ks[..|ks| - 1]);
      assert ks == ks[..|ks| - 1] + [ks[|ks| - 1]];
    }
  }

  lemma {:induction false} ExtendedDistinct(d: seq<string>, ks: seq<string>)
    ensures Extended(d, Distinct(ks)) == Extended(d, ks)
    decreases |ks|
  {
    if ks != [] {
      var m := |ks| - 1;
      ExtendedDistinct(d, ks[..m]);
      DistinctMembers(ks[..m]);
      ExtendedMembers(d, ks[..m]);
      var e := Distinct(ks[..m]);
      assert (e + [ks[m]])[..|e|] == e;
    }
  }

  lemma KeysConcat<R>(a: seq<R>, b: seq<R>, key: R -> string)
    ensures Keys(a + b, key) == Keys(a, key) + Keys(b, key)
  {
  }

  lemma {:induction false} OrderOfBins<R>(bins: seq<seq<R>>, key: R -> string)
    ensures Distinct(Keys(BinCounts(bins, key), KeyOf)) == Distinct(Keys(Flatten(bins), key))
    decreases |bins|
  {
    hide Counts, Distinct, Extended, Keys;
    if bins == [] {
      NoKeys(key);
    } else {
      var m := |bins| - 1;
      var a, b := BinCounts(bins[..m], key), Counts(bins[m], key);
      OrderOfBins(bins[..m], key);
      CountsKeys(bins[m], key);
      KeysConcat(a, b, KeyOf);
      KeysConcat(Flatten(bins[..m]), bins[m], key);
      DistinctConcat(Keys(a, KeyOf), Keys(b, KeyOf));
      DistinctConcat(Keys(Flatten(bins[..m]), key), Keys(bins[m], key));
      ExtendedDistinct(Distinct(Keys(a, KeyOf)), Keys(bins[m], key));
    }
  }

  lemma NoKeys<R>(key: R -> string)
    ensures Keys([], KeyOf) == Keys([], key)
  {
  }

  lemma CountsKeys<R>(rows: seq<R>, key: R -> string)
    ensures Keys(Counts(rows, key), KeyOf) == Distinct(Keys(rows, key))
  {
  }

  // ------------------------------------------------------------ the loops

  /** Groups one bin and counts every group. */
  method CountBin<R>(rows: seq<R>, key: R -> string) returns (cs: seq<Counted>)
    ensures cs == Counts(rows, key)
  {
    hide Distinct, WithKey;
    var order, grouped := CalculateGroupBy(rows, key);
    cs := [];
    var i := 0;
    while i < |order|
      invariant 0 <= i <= |order| && |cs| == i
      invariant forall j :: 0 <= j < i ==> cs[j] == Counted(order[j], |WithKey(rows, key, order[j])|)
    {
      cs := cs + [Counted(order[i], |grouped[order[i]]|)];
      i := i + 1;
    }
  }

  /** combineCount: adds up the counts of a group. */
  method CombineCount(cs: seq<Counted>) returns (sum: nat)
    ensures sum == Sum(cs)
  {
    sum := 0;
    var i := 0;
    assert cs[..0] == [];
    while i < |cs|
      invariant 0 <= i <= |cs| && sum == Sum(cs[..i])
    {
      assert cs[..i + 1][..i] == cs[..i];
      sum := sum + cs[i].count;
      i := i + 1;
    }
    assert cs[..i] == cs;
  }

  function Sum(cs: seq<Counted>): nat {
    if cs == [] then 0 else Sum(cs[..|cs| - 1]) + cs[|cs| - 1].count
  }

  lemma {:induction false} SumOfGroup(cs: seq<Counted>, k: string)
    ensures Sum(WithKey(cs, KeyOf, k)) == Total(cs, k)
    decreases |cs|
  {
    if cs != [] {
      var m := |cs| - 1;
      SumOfGroup(cs[..m], k);
      var g := WithKey(cs[..m], KeyOf, k);
      assert (g + [cs[m]])[..|g|] == g && g + [] == g;
    }
  }

  /** The bins are grouped and counted one by one, then the counts are grouped and added:
      the result is that of grouping and counting all rows at once, in the same order. */
  method CountGroups<R>(bins: seq<seq<R>>, key: R -> string) returns (result: seq<Counted>)
    ensures result == Counts(Flatten(bins), key)
  {
    hide Distinct, WithKey, Counts, Keys, Sum, Total;
    var outstream: seq<Counted> := [];
    var j := 0;
    assert bins[..0] == [];
    while j < |bins|
      invariant 0 <= j <= |bins| && outstream == BinCounts(bins[..j], key)
    {
      var cs := CountBin(bins[j], key);
      assert bins[..j + 1][..j] == bins[..j];
      outstream := outstream + cs;
      j := j + 1;
    }
    assert bins[..j] == bins;
    result := CombineGroups(outstream);
    SameCounts(bins, key, result);
  }

  method CombineGroups(cs: seq<Counted>) returns (result: seq<Counted>)
    ensures |result| == |Distinct(Keys(cs, KeyOf))|
    ensures forall i :: 0 <= i < |result| ==>
      result[i] == Counted(Distinct(Keys(cs, KeyOf))[i], Total(cs, Distinct(Keys(cs, KeyOf))[i]))
  {
    hide Distinct, WithKey, Total, Sum;
    var order, grouped := CalculateGroupBy(cs, KeyOf);
    result := [];
    var i := 0;
    while i < |order|
      invariant 0 <= i <= |order| && |result| == i
      invariant forall j :: 0 <= j < i ==> result[j] == Counted(order[j], Total(cs, order[j]))
    {
      var sum := CombineCount(grouped[order[i]]);
      SumOfGroup(cs, order[i]);
      result := result + [Counted(order[i], sum)];
      i := i + 1;
    }
  }

  lemma SameCounts<R>(bins: seq<seq<R>>, key: R -> string, result: seq<Counted>)
    requires |result| == |Distinct(Keys(BinCounts(bins, key), KeyOf))|
    requires forall i :: 0 <= i < |result| ==>
      result[i] == Counted(Distinct(Keys(BinCounts(bins, key), KeyOf))[i],
                           Total(BinCounts(bins, key), Distinct(Keys(BinCounts(bins, key), KeyOf))[i]))
    ensures result == Counts(Flatten(bins), key)
  {
    hide Distinct, WithKey, Total;
    OrderOfBins(bins, key);
    forall i | 0 <= i < |result|
      ensures result[i] == Counts(Flatten(bins), key)[i]
    {
      TotalOfBins(bins, key, result[i].key);
    }
  }

  /** However the rows are split over bins and ordered in them, every key gets the same
      count. */
  lemma AnySplit<R>(rows: seq<R>, bins: seq<seq<R>>, key: R -> string, k: string)
    requires multiset(Flatten(bins)) == multiset(rows)
    ensures |WithKey(Flatten(bins), key, k)| == |WithKey(rows, key, k)|
  {
    SameKeys(Flatten(bins), rows, key);
    WithKeyCount(Flatten(bins), key, k);
    WithKeyCount(rows, key, k);
  }

  lemma {:induction false} SameKeys<R>(a: seq<R>, b: seq<R>, key: R -> string)
    requires multiset(a) == multiset(b)
    ensures multiset(Keys(a, key)) == multiset(Keys(b, key))
    decreases |a|
  {
    if a == [] {
      assert multiset(b) == multiset{};
      assert b == [];
    } else {
      var m := |a| - 1;
      assert a[m] in multiset(b);
      var j :| 0 <= j < |b| && b[j] == a[m];
      KeysWithout(a, m, key);
      KeysWithout(b, j, key);
      SameKeys(a[..m] + a[m + 1..], b[..j] + b[j + 1..], key);
    }
  }

  lemma KeysWithout<R>(b: seq<R>, j: nat, key: R -> string)
    requires j < |b|
    ensures multiset(b[..j] + b[j + 1..]) == multiset(b) - multiset{b[j]}
    ensures multiset(Keys(b, key)) == multiset(Keys(b[..j] + b[j + 1..], key)) + multiset{key(b[j])}
  {
    assert b == b[..j] + [b[j]] + b[j + 1..];
    var ks := Keys(b, key);
    assert Keys(b[..j] + b[j + 1..], key) == ks[..j] + ks[j + 1..];
    assert ks == ks[..j] + [ks[j]] + ks[j + 1..];
  }

  // ------------------------------------------------------------ when the groups are the right ones

  /** Two rows with different values in the grouping columns have the same key. */
  ghost predicate Collides<R>(rows: seq<R>, values: R -> seq<Option<string>>) {
    exists i, j :: 0 <= i < j < |rows| && values(rows[i]) != values(rows[j]) &&
      GroupKey(values(rows[i])) == GroupKey(values(rows[j]))
  }

  ghost predicate AllAlike<R>(rows: seq<R>, values: R -> seq<Option<string>>) {
    forall i, j :: 0 <= i < |rows| && 0 <= j < |rows| ==> values(rows[i]) == values(rows[j])
  }

  lemma {:induction false} WithKeyMember<R>(rows: seq<R>, key: R -> string, k: string, r: R)
    ensures r in WithKey(rows, key, k) <==> r in rows && key(r) == k
    decreases |rows|
  {
    if rows != [] {
      WithKeyMember(rows[..|rows| - 1], key, k, r);
      assert rows == rows[..|rows| - 1] + [rows[|rows| - 1]];
    }
  }

  /** Every group holds rows with the same values in the grouping columns if and only if
      no two rows with different values have the same concatenation. */
  lemma GroupsRight<R>(rows: seq<R>, key: R -> string, values: R -> seq<Option<string>>)
    requires forall i :: 0 <= i < |rows| ==> key(rows[i]) == GroupKey(values(rows[i]))
    ensures (forall k: string :: AllAlike(WithKey(rows, key, k), values)) <==> !Collides(rows, values)
  {
    hide WithKey, GroupKey;
    if Collides(rows, values) {
      var i, j :| 0 <= i < j < |rows| && values(rows[i]) != values(rows[j]) &&
        GroupKey(values(rows[i])) == GroupKey(values(rows[j]));
      var k := key(rows[i]);
      WithKeyMember(rows, key, k, rows[i]);
      WithKeyMember(rows, key, k, rows[j]);
      assert !AllAlike(WithKey(rows, key, k), values);
    } else {
      forall k: string
        ensures AllAlike(WithKey(rows, key, k), values)
      {
        OneKeyAlike(rows, key, values, k);
      }
    }
  }

  lemma OneKeyAlike<R>(rows: seq<R>, key: R -> string, values: R -> seq<Option<string>>, k: string)
    requires forall i :: 0 <= i < |rows| ==> key(rows[i]) == GroupKey(values(rows[i]))
    requires !Collides(rows, values)
    ensures AllAlike(WithKey(rows, key, k), values)
  {
    hide WithKey, GroupKey;
    var g := WithKey(rows, key, k);
    forall p, q | 0 <= p < |g| && 0 <= q < |g|
      ensures values(g[p]) == values(g[q])
    {
      WithKeyMember(rows, key, k, g[p]);
      WithKeyMember(rows, key, k, g[q]);
      var i :| 0 <= i < |rows| && rows[i] == g[p];
      var j :| 0 <= j < |rows| && rows[j] == g[q];
    }
  }

  /** Two columns whose values run together. */
  lemma ColumnsRunTogether()
    ensures GroupKey([Some("ab"), Some("c")]) == GroupKey([Some("a"), Some("bc")])
    ensures Collides([[Some("ab"), Some("c")], [Some("a"), Some("bc")]], (r: seq<Option<string>>) => r)
  {
    assert [Some("ab"), Some("c")][..1] == [Some("ab")] && [Some("ab")][..0] == [];
    assert [Some("a"), Some("bc")][..1] == [Some("a")] && [Some("a")][..0] == [];
    assert "ab" + "c" == "a" + "bc";
    assert [Some("ab"), Some("c")][1] != [Some("a"), Some("bc")][1];
    var rows, same := [[Some("ab"), Some("c")], [Some("a"), Some("bc")]], (r: seq<Option<string>>) => r;
    assert same(rows[0]) != same(rows[1]) && GroupKey(same(rows[0])) == GroupKey(same(rows[1]));
  }

  lemma {:induction false} FixedLengthsApart(a: seq<Option<string>>, b: seq<Option<string>>)
    requires |a| == |b| && GroupKey(a) == GroupKey(b)
    requires forall i :: 0 <= i < |a| ==> a[i].Some? && b[i].Some? && |a[i].value| == |b[i].value|
    ensures a == b
    decreases |a|
  {
    if a != [] {
      var m := |a| - 1;
      var x, y := a[m].value, b[m].value;
      var p, q := GroupKey(a[..m]), GroupKey(b[..m]);
      assert (p + x)[|p|..] == x && (q + y)[|q|..] == y && (p + x)[..|p|] == p && (q + y)[..|q|] == q;
      FixedLengthsApart(a[..m], b[..m]);
      assert a == a[..m] + [a[m]] && b == b[..m] + [b[m]];
    }
  }

  predicate HasLengths(vs: seq<Option<string>>, lengths: seq<nat>) {
    |vs| == |lengths| && forall c :: 0 <= c < |vs| ==> vs[c].Some? && |vs[c].value| == lengths[c]
  }

  /** Groups are right whenever no value is missing and every column's values have one
      length. */
  lemma FixedLengthColumns<R>(rows: seq<R>, values: R -> seq<Option<string>>, lengths: seq<nat>)
    requires forall i :: 0 <= i < |rows| ==> HasLengths(values(rows[i]), lengths)
    ensures !Collides(rows, values)
  {
    hide GroupKey;
    forall i, j | 0 <= i < j < |rows| && GroupKey(values(rows[i])) == GroupKey(values(rows[j]))
      ensures values(rows[i]) == values(rows[j])
    {
      var a, b := values(rows[i]), values(rows[j]);
      assert HasLengths(a, lengths) && HasLengths(b, lengths);
      FixedLengthsApart(a, b);
    }
  }

  /** And whenever there is one grouping column and no value of it is missing. */
  lemma SingleColumn<R>(rows: seq<R>, values: R -> seq<Option<string>>)
    requires forall i :: 0 <= i < |rows| ==> |values(rows[i])| == 1 && values(rows[i])[0].Some?
    ensures !Collides(rows, values)
  {
    forall i | 0 <= i < |rows|
      ensures GroupKey(values(rows[i])) == values(rows[i])[0].value
    {
      OneValue(values(rows[i]));
    }
    hide GroupKey;
    forall i, j | 0 <= i < j < |rows| && GroupKey(values(rows[i])) == GroupKey(values(rows[j]))
      ensures values(rows[i]) == values(rows[j])
    {
      assert values(rows[i])[0] == values(rows[j])[0];
    }
  }

  lemma OneValue(vs: seq<Option<string>>)
    requires |vs| == 1 && vs[0].Some?
    ensures GroupKey(vs) == vs[0].value
  {
    assert vs[..0] == [] && "" + vs[0].value == vs[0].value;
  }
}
