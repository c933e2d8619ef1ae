/** Page tables as values: what a scan of the tables sees, in order. An entry whose
    frame address is zero ends its table. */
module PageTables {
  const TABLE_SIZE := 338

  datatype PageEntry = PageEntry(vaddr: nat, paddr: nat, read: bool, write: bool, exe: bool)

  datatype Match = NoMatch | Found(entry: PageEntry)

  /** The entries of one table in front of the first free one. */
  function Used(t: seq<PageEntry>): seq<PageEntry> {
    if t == [] || t[0].paddr == 0 then [] else [t[0]] + Used(t[1..])
  }

  /** The entries of all tables, as a scan meets them. */
  function Flat(ts: seq<seq<PageEntry>>): seq<PageEntry> {
    if ts == [] then [] else Used(ts[0]) + Flat(ts[1..])
  }

  function FirstMatch(es: seq<PageEntry>, v: nat): Match {
    if es == [] then NoMatch else if es[0].vaddr == v then Found(es[0]) else FirstMatch(es[1..], v)
  }

  /** The first c entries are in use and the others are free. */
  ghost predicate Packed(t: seq<PageEntry>, c: nat) {
    && |t| == TABLE_SIZE && c <= TABLE_SIZE
    && (forall i :: 0 <= i < c ==> t[i].paddr != 0)
    && (forall i :: c <= i < TABLE_SIZE ==> t[i].paddr == 0)
  }

  lemma {:induction false} UsedPrefix(t: seq<PageEntry>, c: nat)
    requires c <= |t| && (forall i :: 0 <= i < c ==> t[i].paddr != 0)
    ensures Used(t) == t[..c] + Used(t[c..])
    decreases c
  {
    if c == 0 {
      assert t[c..] == t;
    } else {
      UsedPrefix(t[1..], c - 1);
      assert t[1..][c - 1..] == t[c..];
      assert t[..c] == [t[0]] + t[1..][..c - 1];
    }
  }

  lemma UsedPacked(t: seq<PageEntry>, c: nat)
    requires Packed(t, c)
    ensures Used(t) == t[..c]
  {
    UsedPrefix(t, c);
  }

  lemma UsedAdd(t: seq<PageEntry>, c: nat, e: PageEntry)
    requires Packed(t, c) && c < TABLE_SIZE && e.paddr != 0
    ensures Packed(t[c := e], c + 1) && Used(t[c := e]) == Used(t) + [e]
  {
    hide Used;
    UsedPacked(t, c);
    UsedPacked(t[c := e], c + 1);
  }

  lemma {:induction false} FlatConcat(a: seq<seq<PageEntry>>, b: seq<seq<PageEntry>>)
    ensures Flat(a + b) == Flat(a) + Flat(b)
    decreases |a|
  {
    hide Used;
    if a == [] {
      assert a + b == b;
    } else {
      FlatConcat(a[1..], b);
      assert (a + b)[1..] == a[1..] + b;
    }
  }

  lemma FlatOne(t: seq<PageEntry>)
    ensures Flat([t]) == Used(t)
  {
    assert [t][1..] == [];
  }

  lemma FlatSnoc(ts: seq<seq<PageEntry>>, t: seq<PageEntry>)
    ensures Flat(ts + [t]) == Flat(ts) + Used(t)
  {
    FlatConcat(ts, [t]);
    FlatOne(t);
  }

  lemma FlatSplit(ts: seq<seq<PageEntry>>, j: nat)
    requires j < |ts|
    ensures Flat(ts) == Flat(ts[..j]) + Used(ts[j]) + Flat(ts[j + 1..])
  {
    hide Used;
    var rest := ts[j..];
    assert Flat(rest) == Used(rest[0]) + Flat(rest[1..]);
    hide Flat;
    assert rest[0] == ts[j] && rest[1..] == ts[j + 1..] && ts == ts[..j] + rest;
    FlatConcat(ts[..j], rest);
    assert Flat(ts[..j]) + (Used(ts[j]) + Flat(ts[j + 1..])) == Flat(ts[..j]) + Used(ts[j]) + Flat(ts[j + 1..]);
  }

  lemma {:induction false} MatchConcat(a: seq<PageEntry>, b: seq<PageEntry>, v: nat)
    ensures FirstMatch(a + b, v) == if FirstMatch(a, v).Found? then FirstMatch(a, v) else FirstMatch(b, v)
    decreases |a|
  {
    if a == [] {
      assert a + b == b;
    } else {
      MatchConcat(a[1..], b, v);
      assert (a + b)[1..] == a[1..] + b;
    }
  }

  // ------------------------------------------------------------ as a finite map

  ghost predicate Distinct(es: seq<PageEntry>) {
    forall i, j :: 0 <= i < j < |es| ==> es[i].vaddr != es[j].vaddr
  }

  function Mapping(es: seq<PageEntry>): map<nat, PageEntry> {
    if es == [] then map[] else Mapping(es[..|es| - 1])[es[|es| - 1].vaddr := es[|es| - 1]]
  }

  /** A scan of distinct addresses looks up the map that the added entries make. */
  lemma {:induction false} ScanIsLookup(es: seq<PageEntry>, v: nat)
    requires Distinct(es)
    ensures FirstMatch(es, v) == if v in Mapping(es) then Found(Mapping(es)[v]) else NoMatch
    decreases |es|
  {
    if es != [] {
      var n := |es| - 1;
      ScanIsLookup(es[..n], v);
      assert es == es[..n] + [es[n]];
      MatchConcat(es[..n], [es[n]], v);
      assert [es[n]][1..] == [];
      if v == es[n].vaddr {
        NoEarlier(es[..n], v);
      }
    }
  }

  lemma {:induction false} NoEarlier(es: seq<PageEntry>, v: nat)
    requires forall i :: 0 <= i < |es| ==> es[i].vaddr != v
    ensures FirstMatch(es, v) == NoMatch
    decreases |es|
  {
    if es != [] {
      NoEarlier(es[1..], v);
    }
  }

  /** Adding an entry for a fresh address adds exactly that mapping. */
  lemma AddIsInsert(es: seq<PageEntry>, e: PageEntry)
    requires Distinct(es) && (forall i :: 0 <= i < |es| ==> es[i].vaddr != e.vaddr)
    ensures Distinct(es + [e]) && Mapping(es + [e]) == Mapping(es)[e.vaddr := e]
  {
    assert (es + [e])[..|es|] == es;
    DistinctSnoc(es, e);
    hide Distinct;
  }

  lemma DistinctSnoc(es: seq<PageEntry>, e: PageEntry)
    requires Distinct(es) && (forall i :: 0 <= i < |es| ==> es[i].vaddr != e.vaddr)
    ensures Distinct(es + [e])
  {
  }

  // ------------------------------------------------------------ relocation

  /** The entries moved to other frames. */
  function Relocate(es: seq<PageEntry>, frames: seq<nat>): (r: seq<PageEntry>)
    requires |es| == |frames|
    ensures |r| == |es| && forall i :: 0 <= i < |es| ==> r[i] == es[i].(paddr := frames[i])
  {
    seq(|es|, i requires 0 <= i < |es| => es[i].(paddr := frames[i]))
  }

  /** A relocated table set answers every lookup alike: same flags, and the frame
      that took the place of the original one. */
  lemma {:induction false} RelocatedMatch(es: seq<PageEntry>, frames: seq<nat>, v: nat) returns (i: nat)
    requires |es| == |frames|
    ensures FirstMatch(es, v).NoMatch? <==> FirstMatch(Relocate(es, frames), v).NoMatch?
    ensures FirstMatch(es, v).Found? ==>
      && i < |es| && FirstMatch(es, v) == Found(es[i])
      && FirstMatch(Relocate(es, frames), v) == Found(es[i].(paddr := frames[i]))
    decreases |es|
  {
    i := 0;
    if es != [] && es[0].vaddr != v {
      assert Relocate(es, frames)[1..] == Relocate(es[1..], frames[1..]);
      i := RelocatedMatch(es[1..], frames[1..], v);
      i := i + 1;
    }
  }
}
