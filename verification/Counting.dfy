/** How often a number is on a list, or on any of several lists; sizes of sets. */
module Counting {
  /** How often t is on a list. */
  function On(list: seq<nat>, t: nat): nat
  {
    multiset(list)[t]
  }

  function OnLists(chans: seq<seq<nat>>, t: nat): nat
  {
    if chans == [] then 0 else On(chans[0], t) + OnLists(chans[1..], t)
  }

  lemma OnConcat(a: seq<nat>, b: seq<nat>, t: nat)
    ensures On(a + b, t) == On(a, t) + On(b, t)
  {
  }

  lemma OnOne(x: nat, t: nat)
    ensures On([x], t) == if x == t then 1 else 0
  {
  }

  lemma OnSplit(list: seq<nat>, k: nat, t: nat)
    requires k <= |list|
    ensures On(list, t) == On(list[..k], t) + On(list[k..], t)
  {
    assert list == list[..k] + list[k..];
    OnConcat(list[..k], list[k..], t);
  }

  lemma OnFirst(list: seq<nat>, t: nat)
    requires list != []
    ensures On(list, t) == (if list[0] == t then 1 else 0) + On(list[1..], t)
  {
    assert list == [list[0]] + list[1..];
    hide On;
    OnConcat([list[0]], list[1..], t);
    OnOne(list[0], t);
  }

  lemma OnAppend(list: seq<nat>, x: nat, t: nat)
    ensures On(list + [x], t) == On(list, t) + if x == t then 1 else 0
  {
    hide On;
    OnConcat(list, [x], t);
    OnOne(x, t);
  }

  lemma OnWithout(list: seq<nat>, k: nat, t: nat)
    requires k < |list|
    ensures On(list[..k] + list[k + 1..], t) == On(list, t) - if list[k] == t then 1 else 0
  {
    hide On;
    OnSplit(list, k, t);
    OnFirst(list[k..], t);
    assert list[k..][1..] == list[k + 1..];
    OnConcat(list[..k], list[k + 1..], t);
  }

  lemma {:induction false} OnListsAt(chans: seq<seq<nat>>, w: nat, list: seq<nat>, t: nat)
    requires w < |chans|
    ensures OnLists(chans[w := list], t) == OnLists(chans, t) - On(chans[w], t) + On(list, t)
    ensures On(chans[w], t) <= OnLists(chans, t)
  {
    hide On;
    if w == 0 {
      assert chans[w := list][1..] == chans[1..];
    } else {
      assert chans[w := list][1..] == chans[1..][w - 1 := list];
      OnListsAt(chans[1..], w - 1, list, t);
    }
  }

  lemma OnNone(t: nat)
    ensures On([], t) == 0
  {
  }

  lemma {:induction false} SubsetSize(a: set<nat>, b: set<nat>)
    requires a <= b
    ensures |a| <= |b|
  {
    if a != {} {
      var x :| x in a;
      SubsetSize(a - {x}, b - {x});
    }
  }

  function Members(list: seq<nat>): set<nat>
  {
    set x | x in list
  }

  lemma {:induction false} DistinctSize(list: seq<nat>)
    requires forall i, j :: 0 <= i < j < |list| ==> list[i] != list[j]
    ensures |Members(list)| == |list|
  {
    if list != [] {
      var init, last := list[..|list| - 1], list[|list| - 1];
      DistinctSize(init);
      assert list == init + [last];
      assert Members(list) == Members(init) + {last};
    }
  }
}
