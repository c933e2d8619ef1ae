/** Address spaces: a chain of page tables of fixed size, filled from the front.
    Memory from kmalloc holds anything until it is written, so it is a parameter. */
module AddressSpace {
  import opened PageTables
  import opened Coremap

  class PageTable {
    var table: seq<PageEntry>
    var count: nat
    var next: PageTable?

    constructor (memory: seq<PageEntry>)
      ensures table == memory && next == null
    {
      table, count, next := memory, 0, null;
    }

    /** Marks the entries from n on as free, leaving what else they hold. */
    method FreeFrom(n: nat)
      requires n <= |table| == TABLE_SIZE
      modifies this`table
      ensures |table| == TABLE_SIZE
      ensures forall i :: 0 <= i < TABLE_SIZE ==>
        table[i] == if i < n then old(table)[i] else old(table)[i].(paddr := 0)
    {
      var i := n;
      while i < TABLE_SIZE
        invariant n <= i <= TABLE_SIZE == |table|
        invariant forall k :: 0 <= k < TABLE_SIZE ==>
          table[k] == if n <= k < i then old(table)[k].(paddr := 0) else old(table)[k]
      {
        table := table[i := table[i].(paddr := 0)];
        i := i + 1;
      }
    }
  }

  ghost predicate Linked(ts: seq<PageTable>)
    reads ts`next
  {
    && |ts| >= 1
    && (forall i, j :: 0 <= i < j < |ts| ==> ts[i] != ts[j])
    && (forall i :: 0 <= i < |ts| - 1 ==> ts[i].next == ts[i + 1])
    && ts[|ts| - 1].next == null
  }

  /** Every table is packed, and every table but the last is full. */
  ghost predicate Sound(ts: seq<PageTable>)
    reads ts`table, ts`count
  {
    && (forall i :: 0 <= i < |ts| ==> Packed(ts[i].table, ts[i].count))
    && (forall i :: 0 <= i < |ts| - 1 ==> ts[i].count == TABLE_SIZE)
  }

  ghost function View(ts: seq<PageTable>): (r: seq<seq<PageEntry>>)
    reads ts`table
    ensures |r| == |ts| && forall i :: 0 <= i < |ts| ==> r[i] == ts[i].table
  {
    if ts == [] then [] else View(ts[..|ts| - 1]) + [ts[|ts| - 1].table]
  }

  /** The part of the scan in one table. */
  method ScanTable(t: seq<PageEntry>, v: nat) returns (m: Match)
    ensures m == FirstMatch(Used(t), v)
  {
    var i := 0;
    while i < |t|
      invariant 0 <= i <= |t|
      invariant FirstMatch(Used(t), v) == FirstMatch(Used(t[i..]), v)
    {
      assert t[i..][1..] == t[i + 1..];
      if t[i].paddr != 0 && t[i].vaddr == v {
        return Found(t[i]);
      } else if t[i].paddr == 0 {
        return NoMatch;
      }
      assert Used(t[i..]) == [t[i]] + Used(t[i + 1..]);
      i := i + 1;
    }
    m := NoMatch;
  }

  /** A table that holds one entry. */
  method NewTable(e: PageEntry, memory: seq<PageEntry>) returns (t: PageTable)
    requires e.paddr != 0 && |memory| == TABLE_SIZE
    ensures fresh(t) && t.next == null && t.count == 1 && Packed(t.table, 1) && Used(t.table) == [e]
  {
    t := new PageTable(memory);
    t.table := t.table[0 := e];
    t.count := 1;
    t.FreeFrom(1);
    UsedPacked(t.table, 1);
  }

  lemma PackedSize(t: seq<PageEntry>, c: nat)
    requires Packed(t, c)
    ensures |t| == TABLE_SIZE && c <= TABLE_SIZE
  {
  }

  lemma AllFreed(t: seq<PageEntry>)
    requires |t| == TABLE_SIZE && forall i :: 0 <= i < TABLE_SIZE ==> t[i].paddr == 0
    ensures Packed(t, 0)
  {
  }

  class AddrSpace {
    var start: PageTable
    var end: PageTable
    ghost var tables: seq<PageTable>
    ghost var endAt: nat

    ghost predicate Valid()
      reads this, tables
    {
      && Linked(tables) && tables[0] == start && Sound(tables)
      && endAt < |tables| && tables[endAt] == end
    }

    ghost function Nodes(): set<PageTable>
      reads this
    {
      set t | t in tables
    }

    /** The mappings, in the order a scan meets them. */
    ghost function Entries(): seq<PageEntry>
      reads this, tables
    {
      Flat(View(tables))
    }

    /** as_create */
    constructor (memory: seq<PageEntry>)
      requires |memory| == TABLE_SIZE
      ensures Valid() && fresh(Nodes()) && fresh(start) && Entries() == []
      ensures tables == [start] && endAt == 0 && start.count == 0
    {
      var t := new PageTable(memory);
      t.count := 0;
      t.FreeFrom(0);
      start, end, tables, endAt := t, t, [t], 0;
      new;
      AllFreed(t.table);
      hide Packed, Used, Flat;
      UsedPacked(t.table, 0);
      assert View(tables) == [t.table];
      FlatOne(t.table);
    }

    /** The lookup of vm_fault. */
    method Lookup(v: nat) returns (m: Match)
      requires Valid()
      ensures m == FirstMatch(Entries(), v)
    {
      ghost var view := View(tables);
      var temp: PageTable? := start;
      ghost var j := 0;
      m := NoMatch;
      while temp != null
        invariant 0 <= j <= |tables| && temp == (if j < |tables| then tables[j] else null)
        invariant m == NoMatch && FirstMatch(Flat(view), v) == FirstMatch(Flat(view[j..]), v)
        decreases |tables| - j
      {
        m := ScanTable(temp.table, v);
        assert view[j..][1..] == view[j + 1..];
        MatchConcat(Used(view[j]), Flat(view[j + 1..]), v);
        if m != NoMatch {
          return;
        }
        temp := temp.next;
        j := j + 1;
      }
    }

    /** The number of tables that are still in the chain after an entry was added:
        with all of them full, a table goes behind `end`. */
    ghost function Kept(): nat
      requires Valid()
      reads this, tables
    {
      if tables[|tables| - 1].count < TABLE_SIZE then |tables| else endAt + 1
    }

    method FindRoom() returns (t: PageTable?, i: nat)
      requires Valid()
      ensures t == null ==> tables[|tables| - 1].count == TABLE_SIZE
      ensures t != null ==> t == tables[|tables| - 1] && i == t.count < TABLE_SIZE
    {
      i := 0;
      t := start;
      ghost var j := 0;
      while t != null
        invariant 0 <= j <= |tables| && t == (if j < |tables| then tables[j] else null)
        invariant j == |tables| ==> tables[|tables| - 1].count == TABLE_SIZE
        decreases |tables| - j
      {
        if t.count != TABLE_SIZE {
          i := 0;
          while i < TABLE_SIZE && t.table[i].paddr != 0
            invariant 0 <= i <= t.count
          {
            i := i + 1;
          }
          if i < TABLE_SIZE {
            return;
          }
        }
        t := t.next;
        j := j + 1;
      }
    }

    /** addPageEntry: the entry is added behind the ones of the tables kept. No mapping is
        lost if and only if the last table has room or `end` is the last table. */
    method AddPageEntry(e: PageEntry, memory: seq<PageEntry>)
      requires Valid() && e.paddr != 0 && |memory| == TABLE_SIZE
      modifies this, Nodes()
      ensures Valid() && fresh(Nodes() - old(Nodes()))
      ensures Entries() == Flat(old(View(tables))[..old(Kept())]) + [e]
      ensures old(tables[|tables| - 1].count) < TABLE_SIZE ==> tables == old(tables) && endAt == old(endAt)
      ensures old(tables[|tables| - 1].count) == TABLE_SIZE ==> endAt == |tables| - 1
      ensures tables[|tables| - 1].count >= 1
      ensures Entries() == old(Entries()) + [e] <==>
        old(tables[|tables| - 1].count) < TABLE_SIZE || old(endAt) == |old(tables)| - 1
    {
      hide Packed, Used, Flat, Linked, Sound, View;
      SoundView(tables);
      AddKeepsAll(View(tables), Kept(), e);
      var temp, i := FindRoom();
      assert View(tables)[..|tables|] == View(tables);
      if temp != null {
        AddTo(temp, i, e);
        return;
      }
      AddTable(e, memory);
    }

    /** With all tables full: a new table, behind `end`. */
    method AddTable(e: PageEntry, memory: seq<PageEntry>)
      requires Valid() && tables[|tables| - 1].count == TABLE_SIZE && e.paddr != 0 && |memory| == TABLE_SIZE
      modifies this, end
      ensures Valid() && fresh(Nodes() - old(Nodes())) && endAt == |tables| - 1 && tables[endAt].count >= 1
      ensures Entries() == Flat(old(View(tables))[..old(endAt) + 1]) + [e]
    {
      hide Packed, Used, Flat, Linked, Sound, View;
      var t := NewTable(e, memory);
      Append(t);
    }

    /** Writes the entry into the first free slot of the last table. */
    method AddTo(t: PageTable, i: nat, e: PageEntry)
      requires Valid() && t == tables[|tables| - 1] && i == t.count < TABLE_SIZE && e.paddr != 0
      modifies t
      ensures Valid() && Entries() == old(Entries()) + [e] && t.count >= 1
    {
      hide Packed, Used, Flat, View;
      ghost var last, view := |tables| - 1, View(tables);
      PackedSize(t.table, i);
      UsedAdd(t.table, i, e);
      assert forall j :: 0 <= j < last ==> tables[j] != t;
      t.table := t.table[i := e];
      t.count := t.count + 1;
      assert view == view[..last] + [view[last]];
      ghost var now := View(tables);
      assert now == view[..last] + [t.table] by {
        assert forall j :: 0 <= j < last ==> now[j] == view[j];
      }
      FlatSnoc(view[..last], view[last]);
      FlatSnoc(view[..last], t.table);
    }

    /** Puts a table behind `end`, which becomes the new end. */
    method Append(t: PageTable)
      requires Valid() && tables[|tables| - 1].count == TABLE_SIZE
      requires t !in tables && t.next == null && Packed(t.table, t.count)
      modifies this, end
      ensures Valid() && tables == old(tables[..endAt + 1]) + [t] && endAt == |tables| - 1 && t.count == old(t.count)
      ensures Entries() == Flat(old(View(tables))[..old(endAt) + 1]) + Used(t.table)
    {
      hide Packed, Used, Flat, View;
      ghost var view := View(tables);
      end.next := t;
      end := t;
      tables := tables[..endAt + 1] + [t];
      endAt := |tables| - 1;
      assert View(tables) == view[..endAt] + [t.table];
      FlatSnoc(view[..endAt], t.table);
    }
  }

  /** The tables as values: all but the last are full. */
  lemma SoundView(ts: seq<PageTable>)
    requires ts != [] && Sound(ts)
    ensures forall i :: 0 <= i < |ts| - 1 ==> Packed(View(ts)[i], TABLE_SIZE)
    ensures Packed(View(ts)[|ts| - 1], ts[|ts| - 1].count) && ts[|ts| - 1].count <= TABLE_SIZE
  {
    hide Packed;
    PackedSize(ts[|ts| - 1].table, ts[|ts| - 1].count);
  }

  /** Keeping the first `kept` tables keeps their entries only if those are all. */
  lemma AddKeepsAll(ts: seq<seq<PageEntry>>, kept: nat, e: PageEntry)
    requires kept <= |ts| && forall i :: 0 <= i < |ts| - 1 ==> Packed(ts[i], TABLE_SIZE)
    requires kept < |ts| ==> Packed(ts[|ts| - 1], TABLE_SIZE)
    ensures Flat(ts[..kept]) + [e] == Flat(ts) + [e] <==> kept == |ts|
  {
    assert ts == ts[..kept] + ts[kept..];
    FlatConcat(ts[..kept], ts[kept..]);
    if kept < |ts| {
      UsedPacked(ts[kept], TABLE_SIZE);
      assert |Flat(ts[..kept]) + [e]| < |Flat(ts) + [e]|;
    }
  }

  /** as_create and then addPageEntry for one entry after the other: the chain holds the
      entries in order, and over distinct addresses it is the finite map they make. */
  method BuildSpace(es: seq<PageEntry>, memory: nat -> seq<PageEntry>) returns (space: AddrSpace)
    requires forall i :: 0 <= i < |es| ==> es[i].paddr != 0
    requires forall j :: |memory(j)| == TABLE_SIZE
    ensures fresh(space) && fresh(space.Nodes()) && space.Valid()
    ensures space.Entries() == es && space.endAt == |space.tables| - 1
    ensures |es| == TABLE_SIZE * (|space.tables| - 1) + space.tables[|space.tables| - 1].count
    ensures |space.tables| > 1 ==> space.tables[|space.tables| - 1].count >= 1
    ensures Distinct(es) ==> forall v: nat ::
      FirstMatch(space.Entries(), v) == if v in Mapping(es) then Found(Mapping(es)[v]) else NoMatch
  {
    hide Flat, View, Linked, Sound, Packed, Mapping, FirstMatch, Distinct;
    space := new AddrSpace(memory(0));
    var i := 0;
    while i < |es|
      invariant 0 <= i <= |es|
      invariant fresh(space) && fresh(space.Nodes()) && space.Valid()
      invariant space.Entries() == es[..i] && space.endAt == |space.tables| - 1
      invariant |space.tables| > 1 ==> space.tables[|space.tables| - 1].count >= 1
    {
      SoundView(space.tables);
      space.AddPageEntry(es[i], memory(i + 1));
      i := i + 1;
    }
    assert es[..i] == es;
    SpaceLength(space);
    LookupIsMapping(es);
  }

  lemma SpaceLength(space: AddrSpace)
    requires space.Valid()
    ensures |space.Entries()| == TABLE_SIZE * (|space.tables| - 1) + space.tables[|space.tables| - 1].count
  {
    hide Flat, View, Linked, Sound, Packed;
    SoundView(space.tables);
    FlatLength(View(space.tables), space.tables[|space.tables| - 1].count);
  }

  lemma LookupIsMapping(es: seq<PageEntry>)
    ensures Distinct(es) ==> forall v: nat ::
      FirstMatch(es, v) == if v in Mapping(es) then Found(Mapping(es)[v]) else NoMatch
  {
    hide Mapping, FirstMatch, Distinct;
    if Distinct(es) {
      forall v: nat
        ensures FirstMatch(es, v) == if v in Mapping(es) then Found(Mapping(es)[v]) else NoMatch
      {
        ScanIsLookup(es, v);
      }
    }
  }

  /** Full tables and a last one with c entries. */
  lemma {:induction false} FlatLength(ts: seq<seq<PageEntry>>, c: nat)
    requires ts != [] && (forall i :: 0 <= i < |ts| - 1 ==> Packed(ts[i], TABLE_SIZE)) && Packed(ts[|ts| - 1], c)
    ensures |Flat(ts)| == TABLE_SIZE * (|ts| - 1) + c
    decreases |ts|
  {
    hide Packed, Used;
    if |ts| == 1 {
      UsedPacked(ts[0], c);
      PackedSize(ts[0], c);
      assert ts == [ts[0]];
      FlatOne(ts[0]);
    } else {
      UsedPacked(ts[0], TABLE_SIZE);
      PackedSize(ts[0], TABLE_SIZE);
      FlatLength(ts[1..], c);
    }
  }
}
