/** Copying an address space on fork, and tearing one down: the tables together
    with the coremap that their frames come from and the contents of the frames. */
module AddressCopy {
  import Counting
  import Digits
  import opened Extents
  import opened PageTables
  import opened Coremap
  import opened AddressSpace

  type Page = seq<bv8>

  function PageAt(pages: map<nat, Page>, p: nat): Page {
    if p in pages then pages[p] else []
  }

  /** The coremap indices of the entries' frames. */
  function Indices(m: PageMap, es: seq<PageEntry>): (r: seq<nat>)
    ensures |r| == |es| && forall i :: 0 <= i < |es| ==> r[i] == m.IndexOf(es[i].paddr)
  {
    seq(|es|, i requires 0 <= i < |es| => m.IndexOf(es[i].paddr))
  }

  function Addresses(m: PageMap, ks: seq<nat>): (r: seq<nat>)
    ensures |r| == |ks| && forall i :: 0 <= i < |ks| ==> r[i] == m.AddressOf(ks[i])
  {
    seq(|ks|, i requires 0 <= i < |ks| => m.AddressOf(ks[i]))
  }

  // ------------------------------------------------------------ as_destroy

  lemma RemoveAllSnoc(e: seq<Entry>, a: seq<nat>, k: nat)
    ensures RemoveAll(e, a + [k]) == Removed(RemoveAll(e, a), k, 0)
  {
    hide Removed;
    RemoveAllConcat(e, a, [k]);
    var e1 := RemoveAll(e, a);
    assert [k][1..] == [];
    assert RemoveAll(e1, [k]) == RemoveAll(Removed(e1, k, 0), []);
  }

  /** Frees the frames of one table, up to its first free entry. */
  method DestroyTable(t: seq<PageEntry>, m: PageMap)
    modifies m.entries
    ensures m.entries[..] == RemoveAll(old(m.entries[..]), Indices(m, Used(t)))
  {
    hide RemoveAll, Removed;
    ghost var e := m.entries[..];
    var i := 0;
    RemoveNone(e, Indices(m, []));
    while i < |t| && t[i].paddr != 0
      invariant 0 <= i <= |t| && (forall j :: 0 <= j < i ==> t[j].paddr != 0)
      invariant m.entries[..] == RemoveAll(e, Indices(m, t[..i]))
    {
      m.RemoveFromCoremap(t[i].paddr);
      RemoveAllSnoc(e, Indices(m, t[..i]), m.IndexOf(t[i].paddr));
      assert Indices(m, t[..i + 1]) == Indices(m, t[..i]) + [m.IndexOf(t[i].paddr)];
      i := i + 1;
    }
    UsedPrefix(t, i);
    assert Used(t[i..]) == [] && Used(t) == t[..i];
  }

  lemma RemoveNone(e: seq<Entry>, none: seq<nat>)
    requires none == []
    ensures RemoveAll(e, none) == e
  {
  }

  /** as_destroy: removefromcoremap is called once for each mapping, in scan order, and
      every table but the embedded first one is freed. When the frames are distinct single
      pages, exactly the other chunks are left if and only if freeing them was exact. */
  method AsDestroy(start: PageTable, m: PageMap, ghost tables: seq<PageTable>) returns (freed: seq<PageTable>)
    requires Linked(tables) && tables[0] == start
    modifies m.entries
    ensures m.entries[..] == RemoveAll(old(m.entries[..]), Indices(m, Flat(View(tables))))
    ensures freed == tables[1..]
    ensures Tiled(old(m.entries[..]), m.chunks) && Pages(m.chunks, Indices(m, Flat(View(tables)))) ==>
      (Tiled(m.entries[..], m.chunks - (set k | k in Indices(m, Flat(View(tables))))) <==>
       AllExact(old(m.entries[..]), Indices(m, Flat(View(tables)))))
  {
    hide RemoveAll, Flat, Tiled, Pages, AllExact, View, Indices;
    ghost var e, ks := m.entries[..], Indices(m, Flat(View(tables)));
    FreeFrames(start, m, tables);
    freed := FreeTables(start, tables);
    if Tiled(e, m.chunks) && Pages(m.chunks, ks) {
      FreePages(e, m.chunks, ks);
    }
  }

  /** The first loop of as_destroy. */
  method FreeFrames(start: PageTable, m: PageMap, ghost tables: seq<PageTable>)
    requires Linked(tables) && tables[0] == start
    modifies m.entries
    ensures m.entries[..] == RemoveAll(old(m.entries[..]), Indices(m, Flat(View(tables))))
  {
    hide RemoveAll, Flat;
    ghost var e, view := m.entries[..], View(tables);
    var temp: PageTable? := start;
    ghost var j := 0;
    NoEntries(m);
    RemoveNone(e, Indices(m, []));
    assert view[..0] == [];
    while temp != null
      invariant 0 <= j <= |tables| && temp == (if j < |tables| then tables[j] else null)
      invariant m.entries[..] == RemoveAll(e, Indices(m, Flat(view[..j])))
      decreases |tables| - j
    {
      DestroyTable(temp.table, m);
      RemoveAllConcat(e, Indices(m, Flat(view[..j])), Indices(m, Used(view[j])));
      FlatSnoc(view[..j], view[j]);
      assert view[..j + 1] == view[..j] + [view[j]];
      IndicesConcat(m, Flat(view[..j]), Used(view[j]));
      temp := temp.next;
      j := j + 1;
    }
    assert view[..j] == view;
  }

  /** The second loop: the pointer to the next table is read before the table is freed. */
  method FreeTables(start: PageTable, ghost tables: seq<PageTable>) returns (freed: seq<PageTable>)
    requires Linked(tables) && tables[0] == start
    ensures freed == tables[1..]
  {
    freed := [];
    var temp := start.next;
    ghost var j := 1;
    while temp != null
      invariant 1 <= j <= |tables| && temp == (if j < |tables| then tables[j] else null)
      invariant freed == tables[1..j]
      decreases |tables| - j
    {
      var temp1 := temp.next;
      freed := freed + [temp];
      temp := temp1;
      j := j + 1;
    }
  }

  lemma NoEntries(m: PageMap)
    ensures Indices(m, Flat([])) == []
  {
  }

  // ------------------------------------------------------------ as_copy

  /** From `before` to `after` exactly the pages ks were allocated. */
  ghost predicate Took(before: map<nat, Chunk>, after: map<nat, Chunk>, ks: seq<nat>) {
    && (forall i, j :: 0 <= i < j < |ks| ==> ks[i] != ks[j])
    && (forall i :: 0 <= i < |ks| ==> ks[i] !in before && ks[i] in after && after[ks[i]] == Chunk(1, false))
    && (forall k :: k in before ==> k in after && after[k] == before[k])
    && (forall k :: k in after ==> k in before || k in ks)
  }

  ghost predicate OwnedFrame(m: PageMap, chunks: map<nat, Chunk>, p: nat) {
    m.IndexOf(p) in chunks && p == m.AddressOf(m.IndexOf(p))
  }

  /** Every mapped frame is a page that was allocated. */
  ghost predicate Owned(m: PageMap, chunks: map<nat, Chunk>, es: seq<PageEntry>) {
    forall i :: 0 <= i < |es| ==> OwnedFrame(m, chunks, es[i].paddr)
  }

  lemma NotMine(m: PageMap, chunks: map<nat, Chunk>, p: nat, ks: seq<nat>)
    requires OwnedFrame(m, chunks, p) && forall i :: 0 <= i < |ks| ==> ks[i] !in chunks
    ensures p !in Addresses(m, ks)
  {
  }

  /** The pages ks hold what the frames of es held, and no other page changed. */
  ghost predicate CopiedPages(m: PageMap, p0: map<nat, Page>, p1: map<nat, Page>, es: seq<PageEntry>, ks: seq<nat>) {
    && |es| == |ks|
    && (forall i :: 0 <= i < |es| ==> PageAt(p1, m.AddressOf(ks[i])) == PageAt(p0, es[i].paddr))
    && (forall p: nat :: p !in Addresses(m, ks) ==> PageAt(p1, p) == PageAt(p0, p))
  }

  lemma TookNone(chunks: map<nat, Chunk>)
    ensures Took(chunks, chunks, [])
  {
  }

  lemma TookOne(before: map<nat, Chunk>, after: map<nat, Chunk>, ks: seq<nat>, k: nat)
    requires Took(before, after, ks) && k !in after
    ensures Took(before, after[k := Chunk(1, false)], ks + [k])
  {
    assert forall x :: x in ks ==> x in ks + [k];
    assert (ks + [k])[|ks|] == k;
  }

  /** One more frame copied. The source frame is not one of the copies, so it still
      holds what it held. */
  lemma CopiedOne(m: PageMap, chunks: map<nat, Chunk>, p0: map<nat, Page>, p1: map<nat, Page>, es: seq<PageEntry>,
                  ks: seq<nat>, e: PageEntry, k: nat)
    requires CopiedPages(m, p0, p1, es, ks) && OwnedFrame(m, chunks, e.paddr)
    requires k !in ks && (forall i :: 0 <= i < |ks| ==> ks[i] !in chunks)
    ensures CopiedPages(m, p0, p1[m.AddressOf(k) := PageAt(p1, e.paddr)], es + [e], ks + [k])
  {
    var p2 := p1[m.AddressOf(k) := PageAt(p1, e.paddr)];
    hide OwnedFrame;
    NotMine(m, chunks, e.paddr, ks);
    assert Addresses(m, ks + [k]) == Addresses(m, ks) + [m.AddressOf(k)];
    assert m.AddressOf(k) !in Addresses(m, ks);
    forall i | 0 <= i < |ks| + 1
      ensures PageAt(p2, m.AddressOf((ks + [k])[i])) == PageAt(p0, (es + [e])[i].paddr)
    {
      if i < |ks| {
        assert Addresses(m, ks)[i] == m.AddressOf(ks[i]);
      }
    }
  }

  class Memory {
    const frames: PageMap
    var pages: map<nat, Page>

    constructor (m: PageMap)
      ensures frames == m && pages == map[]
    {
      frames, pages := m, map[];
    }

    /** Takes a page and copies the frame at `from` into it; 0 when there is no page. */
    method CopyFrame(from: nat) returns (paddr: nat, ghost k: nat)
      requires frames.Valid()
      modifies this`pages, frames`chunks, frames.entries
      ensures frames.Valid()
      ensures paddr == 0 <==> forall j: nat :: !FreeRun(old(frames.entries[..]), j, 1)
      ensures paddr == 0 ==>
        pages == old(pages) && frames.chunks == old(frames.chunks) && frames.entries[..] == old(frames.entries[..])
      ensures paddr != 0 ==>
        && paddr == frames.AddressOf(k) && k !in old(frames.chunks)
        && frames.chunks == old(frames.chunks)[k := Chunk(1, false)]
        && pages == old(pages)[paddr := PageAt(old(pages), from)]
    {
      hide Tiled, FreeRun;
      paddr, k := frames.Alloc(1, false);
      if paddr != 0 {
        pages := pages[paddr := PageAt(pages, from)];
      }
    }
  }

  /** A page was asked for and there was none. */
  ghost predicate Exhausted(e: seq<Entry>) {
    forall j: nat :: !FreeRun(e, j, 1)
  }

  /** What the copy of table f is over memory g once the pages ks were taken: all of
      it when they sufficed, or the part in front of the first entry without a page. */
  ghost predicate TableCopy(m: PageMap, f: seq<PageEntry>, c: nat, g: seq<PageEntry>, t: seq<PageEntry>, ks: seq<nat>) {
    && |f| == |g| == |t| == TABLE_SIZE && |ks| <= c <= TABLE_SIZE
    && (forall i :: 0 <= i < |ks| ==> t[i] == f[i].(paddr := m.AddressOf(ks[i])))
    && (|ks| == c ==> forall i :: c <= i < TABLE_SIZE ==> t[i] == f[i])
    && (|ks| < c ==> t[|ks|] == f[|ks|].(paddr := g[|ks|].paddr))
    && (|ks| < c ==> forall i :: |ks| < i < TABLE_SIZE ==> t[i] == g[i])
  }

  /** The inner loop of as_copy. */
  method CopyTable(from: PageTable, to: PageTable, mem: Memory) returns (ok: bool, ghost ks: seq<nat>)
    requires from != to && Packed(from.table, from.count) && |to.table| == TABLE_SIZE
    requires mem.frames.Valid() && Owned(mem.frames, mem.frames.chunks, from.table[..from.count])
    modifies to`table, to`count, mem`pages, mem.frames`chunks, mem.frames.entries
    ensures mem.frames.Valid() && Took(old(mem.frames.chunks), mem.frames.chunks, ks)
    ensures ok <==> |ks| == from.count
    ensures TableCopy(mem.frames, from.table, from.count, old(to.table), to.table, ks) && to.count == from.count
    ensures CopiedPages(mem.frames, old(mem.pages), mem.pages, from.table[..|ks|], ks)
    ensures !ok ==> Exhausted(mem.frames.entries[..])
  {
    hide Tiled, FreeRun, Took, CopiedPages, Owned;
    ghost var m, c0, p0, g := mem.frames, mem.frames.chunks, mem.pages, to.table;
    ghost var f, c := from.table, from.count;
    to.count := from.count;
    ks := [];
    TookNone(c0);
    CopiedNone(m, p0, f[..0]);
    var i := 0;
    while i < TABLE_SIZE
      invariant 0 <= i <= TABLE_SIZE && |ks| == (if i < c then i else c) && |to.table| == TABLE_SIZE
      invariant from.table == f && from.count == to.count == c
      invariant forall j :: 0 <= j < i ==> to.table[j] == if j < c then f[j].(paddr := m.AddressOf(ks[j])) else f[j]
      invariant forall j :: i <= j < TABLE_SIZE ==> to.table[j] == g[j]
      invariant m.Valid() && Took(c0, m.chunks, ks) && CopiedPages(m, p0, mem.pages, f[..|ks|], ks)
    {
      to.table := to.table[i := from.table[i].(paddr := to.table[i].paddr)];
      if from.table[i].paddr != 0 {
        ghost var c1, p1 := m.chunks, mem.pages;
        var paddr;
        ghost var k;
        paddr, k := mem.CopyFrame(from.table[i].paddr);
        if paddr == 0 {
          return false, ks;
        }
        to.table := to.table[i := to.table[i].(paddr := paddr)];
        StepCopied(m, c0, c1, p0, p1, f, c, i, ks, k);
        ks := ks + [k];
      } else {
        to.table := to.table[i := to.table[i].(paddr := 0)];
      }
      i := i + 1;
    }
    return true, ks;
  }

  lemma CopiedNone(m: PageMap, p0: map<nat, Page>, none: seq<PageEntry>)
    requires none == []
    ensures CopiedPages(m, p0, p0, none, [])
  {
  }

  lemma StepCopied(m: PageMap, c0: map<nat, Chunk>, c1: map<nat, Chunk>, p0: map<nat, Page>, p1: map<nat, Page>,
                   f: seq<PageEntry>, c: nat, i: nat, ks: seq<nat>, k: nat)
    requires i < c <= |f| && |ks| == i && Took(c0, c1, ks) && k !in c1
    requires CopiedPages(m, p0, p1, f[..i], ks) && Owned(m, c0, f[..c])
    ensures Took(c0, c1[k := Chunk(1, false)], ks + [k])
    ensures CopiedPages(m, p0, p1[m.AddressOf(k) := PageAt(p1, f[i].paddr)], f[..i + 1], ks + [k])
  {
    hide CopiedPages, Owned, OwnedFrame;
    assert k !in ks && forall j :: 0 <= j < |ks| ==> ks[j] !in c0;
    TookOne(c0, c1, ks, k);
    OwnedAt(m, c0, f[..c], i);
    CopiedOne(m, c0, p0, p1, f[..i], ks, f[i], k);
    assert f[..i + 1] == f[..i] + [f[i]];
  }

  lemma OwnedAt(m: PageMap, chunks: map<nat, Chunk>, es: seq<PageEntry>, i: nat)
    requires Owned(m, chunks, es) && i < |es|
    ensures OwnedFrame(m, chunks, es[i].paddr)
  {
  }

  /** A table copied in full is packed alike and maps the same pages to the frames ks. */
  lemma FullCopy(m: PageMap, f: seq<PageEntry>, c: nat, g: seq<PageEntry>, t: seq<PageEntry>, ks: seq<nat>)
    requires m.Sized() && Packed(f, c) && TableCopy(m, f, c, g, t, ks) && |ks| == c
    ensures Packed(t, c) && |Used(f)| == |ks| && Used(t) == Relocate(Used(f), Addresses(m, ks))
  {
    UsedPacked(f, c);
    UsedPacked(t, c);
    assert t[..c] == Relocate(f[..c], Addresses(m, ks));
  }

  /** A table copied in part maps some pages to the frames ks, and then goes on with
      whatever frame addresses its memory held. */
  lemma PartCopy(m: PageMap, f: seq<PageEntry>, c: nat, g: seq<PageEntry>, t: seq<PageEntry>, ks: seq<nat>)
    requires m.Sized() && Packed(f, c) && TableCopy(m, f, c, g, t, ks) && |ks| < c
    ensures Indices(m, Used(t)) == Indices(m, Relocate(f[..|ks|], Addresses(m, ks))) + Indices(m, Used(g[|ks|..]))
  {
    var n := |ks|;
    UsedPrefix(t, n);
    assert t[..n] == Relocate(f[..n], Addresses(m, ks));
    SameFrames(m, t[n..], g[n..]);
  }

  lemma {:induction false} SameFrames(m: PageMap, a: seq<PageEntry>, b: seq<PageEntry>)
    requires |a| == |b| && forall i :: 0 <= i < |a| ==> a[i].paddr == b[i].paddr
    ensures Indices(m, Used(a)) == Indices(m, Used(b))
    decreases |a|
  {
    if a != [] {
      SameFrames(m, a[1..], b[1..]);
    }
  }

  lemma TookConcat(a: map<nat, Chunk>, b: map<nat, Chunk>, c: map<nat, Chunk>, ks: seq<nat>, more: seq<nat>)
    requires Took(a, b, ks) && Took(b, c, more)
    ensures Took(a, c, ks + more)
  {
    var all := ks + more;
    forall k | k in c
      ensures k in a || k in all
    {
      if k in ks {
        assert k in all;
      }
      if k in more {
        assert k in all;
      }
    }
    forall i, j | 0 <= i < j < |all|
      ensures all[i] != all[j]
    {
      if i < |ks| <= j {
        assert ks[i] in b && more[j - |ks|] !in b;
      }
    }
  }

  lemma CopiedConcat(m: PageMap, chunks: map<nat, Chunk>, p0: map<nat, Page>, p1: map<nat, Page>,
                     p2: map<nat, Page>, es: seq<PageEntry>, ks: seq<nat>, fs: seq<PageEntry>, more: seq<nat>)
    requires CopiedPages(m, p0, p1, es, ks) && CopiedPages(m, p1, p2, fs, more)
    requires Owned(m, chunks, fs) && (forall i :: 0 <= i < |ks| ==> ks[i] !in chunks && ks[i] !in more)
    ensures CopiedPages(m, p0, p2, es + fs, ks + more)
  {
    hide OwnedFrame;
    assert Addresses(m, ks + more) == Addresses(m, ks) + Addresses(m, more);
    forall i | 0 <= i < |es + fs|
      ensures PageAt(p2, m.AddressOf((ks + more)[i])) == PageAt(p0, (es + fs)[i].paddr)
    {
      if i < |es| {
        assert m.AddressOf(ks[i]) !in Addresses(m, more);
      } else {
        NotMine(m, chunks, fs[i - |es|].paddr, ks);
      }
    }
  }

  lemma RelocateConcat(a: seq<PageEntry>, x: seq<nat>, b: seq<PageEntry>, y: seq<nat>)
    requires |a| == |x| && |b| == |y|
    ensures Relocate(a + b, x + y) == Relocate(a, x) + Relocate(b, y)
  {
  }

  /** The first j tables of src are copied: `view` maps the same pages, with the same
      flags, to the new frames ks, which hold what the originals held. */
  ghost predicate Progress(m: PageMap, c0: map<nat, Chunk>, c1: map<nat, Chunk>, p0: map<nat, Page>, p1: map<nat, Page>,
                           src: seq<seq<PageEntry>>, j: nat, view: seq<seq<PageEntry>>, ks: seq<nat>) {
    && j <= |src| && |view| == j
    && Took(c0, c1, ks)
    && CopiedPages(m, p0, p1, Flat(src[..j]), ks)
    && |Flat(src[..j])| == |ks|
    && Flat(view) == Relocate(Flat(src[..j]), Addresses(m, ks))
  }

  lemma ProgressStart(m: PageMap, c0: map<nat, Chunk>, p0: map<nat, Page>, src: seq<seq<PageEntry>>)
    ensures Progress(m, c0, c0, p0, p0, src, 0, [], [])
  {
    hide Took, CopiedPages;
    assert src[..0] == [];
    TookNone(c0);
    CopiedNone(m, p0, []);
  }

  lemma ProgressStep(m: PageMap, c0: map<nat, Chunk>, c1: map<nat, Chunk>, c2: map<nat, Chunk>, p0: map<nat, Page>,
                     p1: map<nat, Page>, p2: map<nat, Page>, src: seq<seq<PageEntry>>, j: nat,
                     view: seq<seq<PageEntry>>, ks: seq<nat>, t: seq<PageEntry>, more: seq<nat>)
    requires Progress(m, c0, c1, p0, p1, src, j, view, ks) && j < |src| && Owned(m, c0, Flat(src))
    requires Took(c1, c2, more) && CopiedPages(m, p1, p2, Used(src[j]), more)
    requires |Used(src[j])| == |more| && Used(t) == Relocate(Used(src[j]), Addresses(m, more))
    ensures Progress(m, c0, c2, p0, p2, src, j + 1, view + [t], ks + more)
  {
    hide Flat, Used, Owned, Took, CopiedPages, Relocate, Addresses;
    var done, next := Flat(src[..j]), Used(src[j]);
    assert src[..j + 1] == src[..j] + [src[j]];
    FlatSnoc(src[..j], src[j]);
    FlatSnoc(view, t);
    OwnedPart(m, c0, src, j);
    TookApart(c0, c1, c2, ks, more);
    CopiedConcat(m, c0, p0, p1, p2, done, ks, next, more);
    TookConcat(c0, c1, c2, ks, more);
    RelocateConcat(done, Addresses(m, ks), next, Addresses(m, more));
    AddressesConcat(m, ks, more);
  }

  lemma AddressesConcat(m: PageMap, a: seq<nat>, b: seq<nat>)
    ensures Addresses(m, a + b) == Addresses(m, a) + Addresses(m, b)
  {
  }

  lemma TookApart(c0: map<nat, Chunk>, c1: map<nat, Chunk>, c2: map<nat, Chunk>, ks: seq<nat>, more: seq<nat>)
    requires Took(c0, c1, ks) && Took(c1, c2, more)
    ensures forall i :: 0 <= i < |ks| ==> ks[i] !in c0 && ks[i] !in more
  {
  }

  lemma OwnedPart(m: PageMap, chunks: map<nat, Chunk>, src: seq<seq<PageEntry>>, j: nat)
    requires Owned(m, chunks, Flat(src)) && j < |src|
    ensures Owned(m, chunks, Used(src[j]))
  {
    hide Flat, Used, Owned;
    FlatSplit(src, j);
    OwnedMiddle(m, chunks, Flat(src[..j]), Used(src[j]), Flat(src[j + 1..]));
  }

  lemma OwnedMiddle(m: PageMap, chunks: map<nat, Chunk>, a: seq<PageEntry>, b: seq<PageEntry>, c: seq<PageEntry>)
    requires Owned(m, chunks, a + b + c)
    ensures Owned(m, chunks, b)
  {
    hide OwnedFrame;
    forall i | 0 <= i < |b|
      ensures OwnedFrame(m, chunks, b[i].paddr)
    {
      assert (a + b + c)[|a| + i] == b[i];
    }
  }

  lemma OwnedMore(m: PageMap, c0: map<nat, Chunk>, c1: map<nat, Chunk>, ks: seq<nat>, es: seq<PageEntry>)
    requires Owned(m, c0, es) && Took(c0, c1, ks)
    ensures Owned(m, c1, es)
  {
  }

  lemma IndicesRelocated(m: PageMap, es: seq<PageEntry>, ks: seq<nat>)
    requires m.Sized() && |es| == |ks| && forall i :: 0 <= i < |ks| ==> ks[i] < m.entries.Length
    ensures Indices(m, Relocate(es, Addresses(m, ks))) == ks
  {
    var r := Relocate(es, Addresses(m, ks));
    forall i | 0 <= i < |ks|
      ensures m.IndexOf(r[i].paddr) == ks[i]
    {
      m.IndexOfAddress(ks[i]);
    }
  }

  lemma TookInside(m: PageMap, e: seq<Entry>, c0: map<nat, Chunk>, c1: map<nat, Chunk>, ks: seq<nat>)
    requires Tiled(e, c1) && Took(c0, c1, ks) && |e| == m.entries.Length
    ensures forall i :: 0 <= i < |ks| ==> ks[i] < m.entries.Length
    ensures Pages(c1, ks) && c1 - (set k | k in ks) == c0
  {
    forall i | 0 <= i < |ks|
      ensures ks[i] < m.entries.Length
    {
      Handed(e, c1, ks[i]);
    }
    assert forall k :: k in c0 ==> k !in ks;
  }

  lemma BothInside(a: seq<nat>, b: seq<nat>, n: nat)
    requires forall i :: 0 <= i < |a + b| ==> (a + b)[i] < n
    ensures forall i :: 0 <= i < |a| ==> a[i] < n
    ensures forall i :: 0 <= i < |b| ==> b[i] < n
  {
    assert forall i :: 0 <= i < |a| ==> a[i] == (a + b)[i];
    assert forall i :: 0 <= i < |b| ==> b[i] == (a + b)[|a| + i];
  }

  lemma TableCopySize(m: PageMap, f: seq<PageEntry>, c: nat, g: seq<PageEntry>, t: seq<PageEntry>, ks: seq<nat>)
    requires TableCopy(m, f, c, g, t, ks)
    ensures |f| == |g| == |t| == TABLE_SIZE && |ks| <= c <= TABLE_SIZE
  {
  }

  /** What as_destroy does to a copy that ran out of pages in table j: it frees the
      pages ks that the copy took, and then `stray`, the frames that the rest of the
      last table seems to map. */
  lemma FailedFrames(m: PageMap, e: seq<Entry>, c0: map<nat, Chunk>, c1: map<nat, Chunk>, c2: map<nat, Chunk>,
                     p0: map<nat, Page>, p1: map<nat, Page>, src: seq<seq<PageEntry>>, j: nat,
                     view: seq<seq<PageEntry>>, ks: seq<nat>, c: nat, g: seq<PageEntry>, t: seq<PageEntry>, more: seq<nat>)
    requires m.Sized() && |e| == m.entries.Length && Tiled(e, c2)
    requires Progress(m, c0, c1, p0, p1, src, j, view, ks) && j < |src| && Took(c1, c2, more)
    requires Packed(src[j], c) && TableCopy(m, src[j], c, g, t, more) && |more| < c && |g| == TABLE_SIZE
    ensures Indices(m, Flat(view + [t])) == ks + more + Indices(m, Used(g[|more|..]))
    ensures Took(c0, c2, ks + more)
  {
    hide Flat, Used, Took, CopiedPages, Tiled, TableCopy, Packed, Pages, Indices, Addresses, Relocate;
    PackedSize(src[j], c);
    TookConcat(c0, c1, c2, ks, more);
    TookInside(m, e, c0, c2, ks + more);
    BothInside(ks, more, |e|);
    TableCopySize(m, src[j], c, g, t, more);
    IndicesRelocated(m, Flat(src[..j]), ks);
    IndicesRelocated(m, src[j][..|more|], more);
    PartCopy(m, src[j], c, g, t, more);
    FlatSnoc(view, t);
    IndicesConcat(m, Flat(view), Used(t));
  }

  lemma IndicesConcat(m: PageMap, a: seq<PageEntry>, b: seq<PageEntry>)
    ensures Indices(m, a + b) == Indices(m, a) + Indices(m, b)
  {
  }

  /** The tables copied so far: as packed as the originals. */
  ghost predicate Alike(from: seq<PageTable>, built: seq<PageTable>)
    reads from`count, built`table, built`count
  {
    && |built| <= |from|
    && forall i :: 0 <= i < |built| ==> Packed(built[i].table, built[i].count) && built[i].count == from[i].count
  }

  ghost predicate AllFree(t: seq<PageEntry>) {
    forall i :: 0 <= i < |t| ==> t[i].paddr == 0
  }

  /** The copy's chain so far, `built` and ending in t. */
  ghost predicate Grown(start: PageTable, t: PageTable, built: seq<PageTable>)
    reads built`next, t`next
  {
    && (built == [] ==> t == start && t.next == null)
    && (built != [] ==> Linked(built) && built[0] == start && t == built[|built| - 1])
  }

  /** The table to copy into: the first one, or a new one behind the last. */
  method NextTable(first: bool, start: PageTable, t0: PageTable, memory: seq<PageEntry>, ghost built: seq<PageTable>)
    returns (t: PageTable)
    requires Grown(start, t0, built) && first == (built == [])
    modifies t0`next
    ensures Linked(built + [t]) && (built + [t])[0] == start && t !in built && Grown(start, t, built + [t])
    ensures if first then t == t0 else fresh(t) && t.table == memory
  {
    t := t0;
    if !first {
      t := new PageTable(memory);
      t0.next := t;
    }
  }

  lemma AlikeStep(from: seq<PageTable>, built: seq<PageTable>, t: PageTable)
    requires Alike(from, built) && |built| < |from|
    requires Packed(t.table, t.count) && t.count == from[|built|].count
    ensures Alike(from, built + [t])
  {
    hide Packed;
  }

  lemma AlikeSound(from: seq<PageTable>, built: seq<PageTable>)
    requires Alike(from, built) && Sound(from) && |built| == |from|
    ensures Sound(built)
  {
    hide Packed;
  }

  /** as_destroy of a copy that took the pages `all`. */
  method Abandon(start: PageTable, m: PageMap, ghost tables: seq<PageTable>, ghost c0: map<nat, Chunk>,
                 ghost all: seq<nat>, ghost stray: seq<nat>)
    requires Linked(tables) && tables[0] == start && m.Valid() && Pages(m.chunks, all)
    requires m.chunks - (set k | k in all) == c0 && Indices(m, Flat(View(tables))) == all + stray
    modifies m`chunks, m.entries
    ensures m.chunks == c0 && m.entries[..] == RemoveAll(old(m.entries[..]), all + stray)
    ensures m.Valid() <==>
      AllExact(old(m.entries[..]), all) && Harmless(RemoveAll(old(m.entries[..]), all), stray)
  {
    hide Flat, View, Tiled, RemoveAll, Indices, AllExact, Harmless, Pages, Linked;
    FreeStray(m.entries[..], m.chunks, all, stray);
    var _ := AsDestroy(start, m, tables);
    m.chunks := c0;
  }

  /** as_copy. On success the copy maps the same pages with the same flags, in the same
      order, to frames of its own that hold the same contents; its `end` stays at the
      first table. It succeeds if and only if as many pages are free as there are
      mappings. When it fails, the coremap is as before if and only if GivesBack. */
  method AsCopy(from: AddrSpace, mem: Memory, memory: nat -> seq<PageEntry>)
    returns (r: AddrSpace?, ghost ks: seq<nat>, ghost failure: Failure)
    requires from.Valid() && mem.frames.Valid() && Owned(mem.frames, mem.frames.chunks, from.Entries())
    requires forall j :: |memory(j)| == TABLE_SIZE
    modifies mem`pages, mem.frames`chunks, mem.frames.entries
    ensures r != null ==>
      && fresh(r) && r.Valid() && r.endAt == 0 && |r.tables| == |from.tables| && mem.frames.Valid()
      && (forall t :: t in r.tables ==> fresh(t))
      && |ks| == |from.Entries()| && r.Entries() == Relocate(from.Entries(), Addresses(mem.frames, ks))
      && Took(old(mem.frames.chunks), mem.frames.chunks, ks)
      && CopiedPages(mem.frames, old(mem.pages), mem.pages, from.Entries(), ks)
    ensures r != null <==> |FreeSet(old(mem.frames.entries[..]))| >= |from.Entries()|
    ensures r == null ==>
      && mem.frames.chunks == old(mem.frames.chunks) && |ks| == |FreeSet(old(mem.frames.entries[..]))|
      && RanOut(failure, mem.frames, mem.frames.entries[..], mem.frames.chunks, ks, memory)
    ensures r == null ==> (mem.frames.Valid() <==> GivesBack(mem.frames, old(mem.frames.entries[..]), memory))
    ensures r == null ==> (mem.frames.Valid() <==> mem.frames.entries[..] == old(mem.frames.entries[..]))
  {
    hide *;
    ghost var m, c0, e0 := mem.frames, mem.frames.chunks, mem.frames.entries[..];
    failure := Failure([], map[]);
    UnfoldValid(from);
    UnfoldFrames(m);
    var copy := EmptyCopy(memory(0));
    var ok;
    ghost var built, stray;
    ok, built, ks, stray := CopyTables(from, copy.start, mem, memory);
    if ok {
      copy.tables := built;
      FoldValid(copy);
      UnfoldFrames(m);
      TookFree(e0, c0, m.entries[..], m.chunks, ks);
      return copy, ks, failure;
    }
    UnfoldFrames(m);
    TookFree(e0, c0, m.entries[..], m.chunks, ks);
    NoneFree(m.entries[..]);
    failure := GiveUp(copy.start, mem.frames, built, e0, c0, ks, memory);
    r := null;
  }

  /** The frames that as_destroy frees besides when a copy fails after n pages: what the
      unwritten rest of its last table names. The first table is cleared by as_create. */
  function Unwritten(m: PageMap, memory: nat -> seq<PageEntry>, n: nat): seq<nat>
    requires forall j :: |memory(j)| == TABLE_SIZE
  {
    if n < TABLE_SIZE then [] else Indices(m, Used(memory(n / TABLE_SIZE)[n % TABLE_SIZE..]))
  }

  /** No longer chunk begins right behind a free page. */
  ghost predicate RoomBehind(e: seq<Entry>) {
    forall i :: i in FreeSet(e) ==> CountAt(e, i + 1) <= 1
  }

  /** What a caller can look at before the call: no longer chunk begins right behind a
      free page, and no frame that the unwritten memory will name has a count. */
  ghost predicate GivesBack(m: PageMap, e: seq<Entry>, memory: nat -> seq<PageEntry>)
    requires forall j :: |memory(j)| == TABLE_SIZE
  {
    && RoomBehind(e)
    && Harmless(e, Unwritten(m, memory, |FreeSet(e)|))
  }

  /** The failure exit of as_copy. */
  method GiveUp(start: PageTable, m: PageMap, ghost tables: seq<PageTable>, ghost e0: seq<Entry>, ghost c0: map<nat, Chunk>,
                ghost ks: seq<nat>, memory: nat -> seq<PageEntry>)
    returns (ghost failure: Failure)
    requires Linked(tables) && tables[0] == start && m.Valid() && Tiled(e0, c0) && |e0| == m.entries.Length
    requires forall j :: |memory(j)| == TABLE_SIZE
    requires Indices(m, Flat(View(tables))) == ks + Unwritten(m, memory, |ks|)
    requires Exhausted(m.entries[..]) && Took(c0, m.chunks, ks)
    modifies m`chunks, m.entries
    ensures m.chunks == c0 && RanOut(failure, m, m.entries[..], c0, ks, memory) && |ks| == |FreeSet(e0)|
    ensures m.Valid() <==> GivesBack(m, e0, memory)
    ensures m.Valid() <==> m.entries[..] == e0
  {
    hide *;
    failure := Failure(m.entries[..], m.chunks);
    ghost var stray := Unwritten(m, memory, |ks|);
    UnfoldFrames(m);
    TookInside(m, m.entries[..], c0, m.chunks, ks);
    AllTaken(e0, c0, m.entries[..], m.chunks, ks);
    SafeBefore(e0, c0, m.entries[..], m.chunks, ks, stray);
    UnfoldGivesBack(m, e0, memory);
    Abandon(start, m, tables, c0, ks, stray);
    FoldFailure(failure, m, m.entries[..], c0, ks, memory);
    SameFrameMap(m, e0, c0);
  }

  lemma UnfoldGivesBack(m: PageMap, e: seq<Entry>, memory: nat -> seq<PageEntry>)
    requires forall j :: |memory(j)| == TABLE_SIZE
    ensures GivesBack(m, e, memory) <==> RoomBehind(e) && Harmless(e, Unwritten(m, memory, |FreeSet(e)|))
  {
  }

  lemma SameFrameMap(m: PageMap, e0: seq<Entry>, c0: map<nat, Chunk>)
    requires m.Sized() && Tiled(e0, c0) && |e0| == m.entries.Length && m.chunks == c0
    ensures m.Valid() <==> m.entries[..] == e0
  {
    hide Tiled;
    if Tiled(m.entries[..], c0) {
      TiledOnce(m.entries[..], e0, c0);
    }
  }

  /** When no page is left, the pages taken are all that were free. */
  lemma AllTaken(e0: seq<Entry>, c0: map<nat, Chunk>, e1: seq<Entry>, c1: map<nat, Chunk>, ks: seq<nat>)
    requires |e0| == |e1| && Tiled(e0, c0) && Tiled(e1, c1) && Took(c0, c1, ks) && Exhausted(e1)
    ensures |ks| == |FreeSet(e0)|
    ensures forall i :: i in FreeSet(e0) <==> i in ks
  {
    hide Tiled, FreeSet, Took, Exhausted;
    TookFree(e0, c0, e1, c1, ks);
    NoneFree(e1);
    forall i: nat
      ensures i in FreeSet(e0) <==> i in ks
    {
      TookFreeAt(e0, c0, e1, c1, ks, i);
    }
  }

  /** Whether giving the pages back is exact and the stray frees do nothing shows in the
      coremap before the first page was taken. */
  lemma SafeBefore(e0: seq<Entry>, c0: map<nat, Chunk>, e1: seq<Entry>, c1: map<nat, Chunk>, ks: seq<nat>, stray: seq<nat>)
    requires |e0| == |e1| && Tiled(e0, c0) && Tiled(e1, c1) && Took(c0, c1, ks)
    requires Pages(c1, ks) && c1 - (set k | k in ks) == c0
    requires forall i :: i in FreeSet(e0) <==> i in ks
    ensures AllExact(e1, ks) && Harmless(RemoveAll(e1, ks), stray) <==> RoomBehind(e0) && Harmless(e0, stray)
  {
    hide Tiled, Took, Pages, FreeSet, RemoveAll, Harmless, AllExact, RoomBehind;
    ExactBefore(e0, c0, e1, c1, ks);
    FreePages(e1, c1, ks);
    if AllExact(e1, ks) {
      TiledOnce(RemoveAll(e1, ks), e0, c0);
    }
  }

  lemma ExactBefore(e0: seq<Entry>, c0: map<nat, Chunk>, e1: seq<Entry>, c1: map<nat, Chunk>, ks: seq<nat>)
    requires |e0| == |e1| && Tiled(e0, c0) && Tiled(e1, c1) && Took(c0, c1, ks)
    requires forall i :: i in FreeSet(e0) <==> i in ks
    ensures AllExact(e1, ks) <==> RoomBehind(e0)
  {
    hide Tiled, Took, FreeSet, CountAt;
    forall k | k in ks
      ensures CountAt(e1, k + 1) <= 1 <==> CountAt(e0, k + 1) <= 1
    {
      CountBefore(e0, c0, e1, c1, ks, k + 1);
    }
    if RoomBehind(e0) {
      forall i | 0 <= i < |ks|
        ensures Exact(e1, ks[i], 1)
      {
        assert ks[i] in ks;
      }
    }
    if AllExact(e1, ks) {
      forall k | k in FreeSet(e0)
        ensures CountAt(e0, k + 1) <= 1
      {
        var i :| 0 <= i < |ks| && ks[i] == k;
        assert Exact(e1, ks[i], 1);
      }
    }
  }

  /** A page that was taken has count 1, where it had none; every other count is as it was. */
  lemma CountBefore(e0: seq<Entry>, c0: map<nat, Chunk>, e1: seq<Entry>, c1: map<nat, Chunk>, ks: seq<nat>, i: nat)
    requires |e0| == |e1| && Tiled(e0, c0) && Tiled(e1, c1) && Took(c0, c1, ks)
    requires forall i :: i in FreeSet(e0) <==> i in ks
    ensures CountAt(e1, i) <= 1 <==> CountAt(e0, i) <= 1
  {
    if i < |e0| {
      if i in ks {
        assert ChunkOk(e1, i, c1[i]);
        assert !e0[i].used && e0[i] == FREE;
      } else {
        var k :| Covers(c0, k, i);
        assert ChunkOk(e0, k, c0[k]) && ChunkOk(e1, k, c1[k]);
      }
    }
  }

  /** The chunks determine the entries. */
  lemma TiledOnce(e: seq<Entry>, f: seq<Entry>, chunks: map<nat, Chunk>)
    requires |e| == |f| && Tiled(e, chunks) && Tiled(f, chunks)
    ensures e == f
  {
    forall i | 0 <= i < |e|
      ensures e[i] == f[i]
    {
      if k :| Covers(chunks, k, i) {
        assert ChunkOk(e, k, chunks[k]) && ChunkOk(f, k, chunks[k]);
      }
    }
  }

  /** The free pages. */
  ghost function FreeSet(e: seq<Entry>): set<nat> {
    set i: nat | i < |e| && !e[i].used
  }

  lemma NoneFree(e: seq<Entry>)
    requires Exhausted(e)
    ensures |FreeSet(e)| == 0
  {
    forall i: nat | i < |e|
      ensures e[i].used
    {
      assert !FreeRun(e, i, 1);
    }
    assert FreeSet(e) == {};
  }

  lemma FreeIffUncovered(e: seq<Entry>, chunks: map<nat, Chunk>, i: nat)
    requires Tiled(e, chunks) && i < |e|
    ensures i in FreeSet(e) <==> forall k :: !Covers(chunks, k, i)
  {
    if k :| Covers(chunks, k, i) {
      assert ChunkOk(e, k, chunks[k]);
    }
  }

  /** Taking single pages makes exactly that many fewer free. */
  lemma TookFree(e0: seq<Entry>, c0: map<nat, Chunk>, e1: seq<Entry>, c1: map<nat, Chunk>, ks: seq<nat>)
    requires |e0| == |e1| && Tiled(e0, c0) && Tiled(e1, c1) && Took(c0, c1, ks)
    ensures |FreeSet(e0)| == |FreeSet(e1)| + |ks|
  {
    hide Tiled, FreeSet, Took;
    var taken := Counting.Members(ks);
    forall i: nat
      ensures i in FreeSet(e0) <==> i in FreeSet(e1) || i in taken
      ensures i !in FreeSet(e1) || i !in taken
    {
      TookFreeAt(e0, c0, e1, c1, ks, i);
    }
    assert FreeSet(e0) == FreeSet(e1) + taken;
    assert FreeSet(e1) !! taken;
    TookSize(c0, c1, ks);
  }

  lemma TookFreeAt(e0: seq<Entry>, c0: map<nat, Chunk>, e1: seq<Entry>, c1: map<nat, Chunk>, ks: seq<nat>, i: nat)
    requires |e0| == |e1| && Tiled(e0, c0) && Tiled(e1, c1) && Took(c0, c1, ks)
    ensures i in FreeSet(e0) <==> i in FreeSet(e1) || i in ks
    ensures i !in FreeSet(e1) || i !in ks
  {
    if i in ks {
      assert ChunkOk(e1, i, c1[i]) && Covers(c1, i, i);
      FreeIffUncovered(e0, c0, i);
      TakenUncovered(e1, c0, c1, ks, i);
    } else if i < |e0| {
      FreeIffUncovered(e0, c0, i);
      FreeIffUncovered(e1, c1, i);
      assert forall k :: Covers(c0, k, i) <==> Covers(c1, k, i);
    }
  }

  lemma TakenUncovered(e1: seq<Entry>, c0: map<nat, Chunk>, c1: map<nat, Chunk>, ks: seq<nat>, i: nat)
    requires Tiled(e1, c1) && Took(c0, c1, ks) && i in ks
    ensures forall k :: !Covers(c0, k, i)
  {
    if k :| Covers(c0, k, i) {
      assert false;
    }
  }

  lemma TookSize(c0: map<nat, Chunk>, c1: map<nat, Chunk>, ks: seq<nat>)
    requires Took(c0, c1, ks)
    ensures |Counting.Members(ks)| == |ks|
  {
    Counting.DistinctSize(ks);
  }

  method EmptyCopy(memory: seq<PageEntry>) returns (copy: AddrSpace)
    requires |memory| == TABLE_SIZE
    ensures fresh(copy) && fresh(copy.start) && copy.end == copy.start && copy.endAt == 0
    ensures copy.start.next == null && Packed(copy.start.table, 0)
  {
    copy := new AddrSpace(memory);
    UnfoldValid(copy);
    TableAt(copy.tables, 0);
  }

  /** The coremap and its chunks when a copy ran out of pages. */
  datatype Failure = Failure(middle: seq<Entry>, taken: map<nat, Chunk>)

  /** No page was free when one was asked for; then the pages ks, which the copy had taken,
      were freed, together with whatever the unwritten rest of a later table names. */
  ghost predicate RanOut(f: Failure, m: PageMap, e: seq<Entry>, c0: map<nat, Chunk>, ks: seq<nat>,
                         memory: nat -> seq<PageEntry>)
    requires forall j :: |memory(j)| == TABLE_SIZE
  {
    && Exhausted(f.middle) && Tiled(f.middle, f.taken) && Took(c0, f.taken, ks)
    && e == RemoveAll(f.middle, ks + Unwritten(m, memory, |ks|))
  }

  lemma FoldFailure(f: Failure, m: PageMap, e: seq<Entry>, c0: map<nat, Chunk>, ks: seq<nat>, memory: nat -> seq<PageEntry>)
    requires forall j :: |memory(j)| == TABLE_SIZE
    requires Exhausted(f.middle) && Tiled(f.middle, f.taken) && Took(c0, f.taken, ks)
    requires e == RemoveAll(f.middle, ks + Unwritten(m, memory, |ks|))
    ensures RanOut(f, m, e, c0, ks, memory)
  {
    hide Exhausted, Tiled, Took, Unwritten, RemoveAll;
  }

  /** The outer loop of as_copy, into a chain that begins with the empty table start. */
  method CopyTables(from: AddrSpace, start: PageTable, mem: Memory, memory: nat -> seq<PageEntry>)
    returns (ok: bool, ghost built: seq<PageTable>, ghost ks: seq<nat>, ghost stray: seq<nat>)
    requires |from.tables| >= 1 && Linked(from.tables) && Sound(from.tables) && from.tables[0] == from.start
    requires mem.frames.Valid()
    requires Owned(mem.frames, mem.frames.chunks, Flat(View(from.tables)))
    requires forall j :: |memory(j)| == TABLE_SIZE
    requires start !in from.tables && start.next == null && Packed(start.table, 0)
    modifies start, mem`pages, mem.frames`chunks, mem.frames.entries
    ensures mem.frames.Valid() && Linked(built) && built[0] == start
    ensures forall t :: t in built ==> t == start || fresh(t)
    ensures ok ==>
      && Sound(built) && |built| == |from.tables|
      && |ks| == |Flat(View(from.tables))|
      && Flat(View(built)) == Relocate(Flat(View(from.tables)), Addresses(mem.frames, ks))
      && Took(old(mem.frames.chunks), mem.frames.chunks, ks)
      && CopiedPages(mem.frames, old(mem.pages), mem.pages, Flat(View(from.tables)), ks)
    ensures !ok ==>
      && Exhausted(mem.frames.entries[..])
      && Took(old(mem.frames.chunks), mem.frames.chunks, ks) && |ks| < |Flat(View(from.tables))|
      && stray == Unwritten(mem.frames, memory, |ks|)
      && Indices(mem.frames, Flat(View(built))) == ks + stray
  {
    hide Packed, Used, Flat, View, Took, CopiedPages, Owned, Tiled, Indices, Relocate, Addresses, Exhausted, Pages,
      Linked, Sound, Copying, Unwritten;
    ghost var m, c0, p0 := mem.frames, mem.frames.chunks, mem.pages;
    ks, stray, built := [], [], [];
    ghost var slot := 0;
    var oldtemp: PageTable? := from.start;
    var newtemp := start;
    StartCopying(from.tables, start, m, c0, p0);
    var j := 0;
    while oldtemp != null
      invariant |built| == j <= |from.tables| && oldtemp == (if j < |from.tables| then from.tables[j] else null)
      invariant (newtemp == start || fresh(newtemp)) && (forall t :: t in built ==> t == start || fresh(t))
      invariant m.Valid() && Copying(from.tables, start, newtemp, built, m, c0, m.chunks, p0, mem.pages, ks)
      decreases |from.tables| - j
    {
      TableAt(from.tables, j);
      FullSoFar(from.tables, start, newtemp, built, m, c0, m.chunks, p0, mem.pages, ks);
      ok, newtemp, ks, stray, slot := CopyStep(from.tables, oldtemp == from.start, oldtemp, start, newtemp, memory(j), mem,
                                               c0, p0, built, ks);
      built := built + [newtemp];
      if !ok {
        TableAndSlot(m, memory, j, slot, |ks|);
        return false, built, ks, stray;
      }
      oldtemp := oldtemp.next;
      j := j + 1;
    }
    ok := true;
    Copied(from.tables, start, newtemp, built, m, c0, m.chunks, p0, mem.pages, ks);
  }

  /** A later table is reached only when the ones in front of it are full. */
  lemma FullSoFar(from: seq<PageTable>, start: PageTable, t: PageTable, built: seq<PageTable>, m: PageMap,
                  c0: map<nat, Chunk>, c1: map<nat, Chunk>, p0: map<nat, Page>, p1: map<nat, Page>, ks: seq<nat>)
    requires Copying(from, start, t, built, m, c0, c1, p0, p1, ks) && |built| < |from| && Sound(from)
    ensures |ks| == TABLE_SIZE * |built|
  {
    hide Flat, Took, CopiedPages, Relocate, Addresses, Packed, View, Sound, Grown, Alike;
    SoundView(from);
    var front := View(from)[..|built|];
    if front != [] {
      FlatLength(front, TABLE_SIZE);
    } else {
      NoEntries(m);
    }
  }

  lemma TableAndSlot(m: PageMap, memory: nat -> seq<PageEntry>, table: nat, slot: nat, n: nat)
    requires (forall j :: |memory(j)| == TABLE_SIZE) && slot < TABLE_SIZE && n == TABLE_SIZE * table + slot
    ensures Unwritten(m, memory, n) == if table == 0 then [] else Indices(m, Used(memory(table)[slot..]))
  {
    hide Indices, Used;
    Digits.DivModUnique(n, TABLE_SIZE, table, slot);
  }

  /** Where the outer loop stands: the tables in `built` are copies of the first ones, the
      last of them is t; before the first, t is the empty table the copy begins with. */
  ghost predicate Copying(from: seq<PageTable>, start: PageTable, t: PageTable, built: seq<PageTable>, m: PageMap,
                          c0: map<nat, Chunk>, c1: map<nat, Chunk>, p0: map<nat, Page>, p1: map<nat, Page>, ks: seq<nat>)
    reads from`table, from`count, built`next, built`table, built`count, t`next, t`table
  {
    && |built| <= |from| && Grown(start, t, built) && Alike(from, built)
    && (built == [] ==> |t.table| == TABLE_SIZE && AllFree(t.table))
    && Progress(m, c0, c1, p0, p1, View(from), |built|, View(built), ks)
  }

  lemma StartCopying(from: seq<PageTable>, start: PageTable, m: PageMap, c0: map<nat, Chunk>, p0: map<nat, Page>)
    requires start.next == null && Packed(start.table, 0)
    ensures Copying(from, start, start, [], m, c0, c0, p0, p0, [])
  {
    hide Progress;
    ProgressStart(m, c0, p0, View(from));
    EmptyTable(start.table);
  }

  lemma Copied(from: seq<PageTable>, start: PageTable, t: PageTable, built: seq<PageTable>, m: PageMap,
               c0: map<nat, Chunk>, c1: map<nat, Chunk>, p0: map<nat, Page>, p1: map<nat, Page>, ks: seq<nat>)
    requires Copying(from, start, t, built, m, c0, c1, p0, p1, ks) && |built| == |from| > 0 && Sound(from)
    ensures Linked(built) && built[0] == start && Sound(built)
    ensures Took(c0, c1, ks) && CopiedPages(m, p0, p1, Flat(View(from)), ks)
    ensures |Flat(View(from))| == |ks| && Flat(View(built)) == Relocate(Flat(View(from)), Addresses(m, ks))
  {
    hide Flat, View, Took, CopiedPages, Relocate, Addresses, Progress, Linked, Sound, Alike;
    ProgressDone(m, c0, c1, p0, p1, View(from), View(built), ks);
    AlikeSound(from, built);
  }

  /** One round of the outer loop. */
  method CopyStep(ghost from: seq<PageTable>, first: bool, oldtemp: PageTable, start: PageTable, t0: PageTable,
                  memory: seq<PageEntry>, mem: Memory, ghost c0: map<nat, Chunk>, ghost p0: map<nat, Page>,
                  ghost built: seq<PageTable>, ghost ks0: seq<nat>)
    returns (ok: bool, t: PageTable, ghost ks: seq<nat>, ghost stray: seq<nat>, ghost slot: nat)
    requires |built| < |from| && oldtemp == from[|built|] && t0 !in from && first == (built == [])
    requires Packed(oldtemp.table, oldtemp.count) && |memory| == TABLE_SIZE && mem.frames.Valid()
    requires Owned(mem.frames, c0, Flat(View(from)))
    requires Copying(from, start, t0, built, mem.frames, c0, mem.frames.chunks, p0, mem.pages, ks0)
    modifies t0, mem`pages, mem.frames`chunks, mem.frames.entries
    ensures mem.frames.Valid() && (t == t0 || fresh(t)) && Linked(built + [t]) && (built + [t])[0] == start
    ensures ok ==> Copying(from, start, t, built + [t], mem.frames, c0, mem.frames.chunks, p0, mem.pages, ks)
    ensures !ok ==>
      && Exhausted(mem.frames.entries[..]) && slot < TABLE_SIZE && |ks| == |ks0| + slot
      && Took(c0, mem.frames.chunks, ks) && |ks| < |Flat(View(from))|
      && stray == (if first then [] else Indices(mem.frames, Used(memory[slot..])))
      && Indices(mem.frames, Flat(View(built + [t]))) == ks + stray
  {
    hide Packed, Used, Flat, View, Took, CopiedPages, Owned, Tiled, Indices, Relocate, Addresses, Exhausted, Pages,
      Linked, Sound, Alike, Progress, Grown, AllFree;
    ghost var j, src, view := |built|, View(from), View(built);
    t := NextTable(first, start, t0, memory, built);
    ghost var g, more := t.table, [];
    ok, more, stray := CopyNext(oldtemp, t, mem, c0, p0, src, j, view, ks0);
    ks, slot := ks0 + more, |more|;
    ViewSnoc(built, t);
    if ok {
      AlikeStep(from, built, t);
    } else {
      FreeTail(mem.frames, g, |more|);
    }
  }

  lemma UnfoldValid(a: AddrSpace)
    requires a.Valid()
    ensures Linked(a.tables) && a.tables[0] == a.start && Sound(a.tables) && a.Entries() == Flat(View(a.tables))
    ensures a.tables == [a.start] ==> a.start.next == null
    ensures a.endAt < |a.tables| && a.tables[a.endAt] == a.end
  {
  }

  lemma UnfoldFrames(m: PageMap)
    requires m.Valid()
    ensures m.Sized() && Tiled(m.entries[..], m.chunks)
  {
  }

  lemma FoldValid(a: AddrSpace)
    requires Linked(a.tables) && a.tables[0] == a.start == a.end && Sound(a.tables) && a.endAt == 0
    ensures a.Valid() && a.Entries() == Flat(View(a.tables))
  {
  }

  lemma FewerThanAll(m: PageMap, c0: map<nat, Chunk>, c1: map<nat, Chunk>, p0: map<nat, Page>, p1: map<nat, Page>,
                     src: seq<seq<PageEntry>>, j: nat, view: seq<seq<PageEntry>>, ks: seq<nat>, c: nat, more: nat)
    requires j < |src| && Packed(src[j], c) && more < c && Progress(m, c0, c1, p0, p1, src, j, view, ks)
    ensures |ks| + more < |Flat(src)|
  {
    hide Flat, Took, CopiedPages, Relocate;
    UsedPacked(src[j], c);
    FlatSplit(src, j);
  }

  lemma TableAt(ts: seq<PageTable>, j: nat)
    requires Linked(ts) && Sound(ts) && j < |ts|
    ensures ts[j] == ts[0] <==> j == 0
    ensures ts[j].next == if j + 1 < |ts| then ts[j + 1] else null
    ensures Packed(ts[j].table, ts[j].count)
  {
  }

  lemma ViewSnoc(ts: seq<PageTable>, t: PageTable)
    ensures View(ts + [t]) == View(ts) + [t.table]
  {
    assert (ts + [t])[..|ts|] == ts;
  }

  lemma ProgressDone(m: PageMap, c0: map<nat, Chunk>, c1: map<nat, Chunk>, p0: map<nat, Page>, p1: map<nat, Page>,
                     src: seq<seq<PageEntry>>, view: seq<seq<PageEntry>>, ks: seq<nat>)
    requires Progress(m, c0, c1, p0, p1, src, |src|, view, ks)
    ensures Took(c0, c1, ks) && CopiedPages(m, p0, p1, Flat(src), ks)
    ensures |Flat(src)| == |ks| && Flat(view) == Relocate(Flat(src), Addresses(m, ks))
  {
    hide Took, CopiedPages, Flat, Relocate, Addresses;
    assert src[..|src|] == src;
  }

  /** One table of as_copy. */
  method CopyNext(oldtemp: PageTable, newtemp: PageTable, mem: Memory, ghost c0: map<nat, Chunk>, ghost p0: map<nat, Page>,
                  ghost src: seq<seq<PageEntry>>, ghost j: nat, ghost view: seq<seq<PageEntry>>, ghost ks: seq<nat>)
    returns (ok: bool, ghost more: seq<nat>, ghost stray: seq<nat>)
    requires oldtemp != newtemp && |newtemp.table| == TABLE_SIZE && mem.frames.Valid()
    requires j < |src| && oldtemp.table == src[j] && Packed(src[j], oldtemp.count) && Owned(mem.frames, c0, Flat(src))
    requires Progress(mem.frames, c0, mem.frames.chunks, p0, mem.pages, src, j, view, ks)
    modifies newtemp`table, newtemp`count, mem`pages, mem.frames`chunks, mem.frames.entries
    ensures mem.frames.Valid()
    ensures ok ==>
      && Packed(newtemp.table, newtemp.count) && newtemp.count == oldtemp.count
      && Progress(mem.frames, c0, mem.frames.chunks, p0, mem.pages, src, j + 1, view + [newtemp.table], ks + more)
    ensures !ok ==>
      && Exhausted(mem.frames.entries[..]) && |more| < TABLE_SIZE
      && Took(c0, mem.frames.chunks, ks + more) && |ks + more| < |Flat(src)|
      && stray == Indices(mem.frames, Used(old(newtemp.table)[|more|..]))
      && Indices(mem.frames, Flat(view + [newtemp.table])) == ks + more + stray
  {
    hide Packed, Used, Flat, Took, CopiedPages, Owned, Tiled, Progress, TableCopy, Indices, Relocate, Addresses, Exhausted,
      Pages;
    ghost var m, g, c1, p1, c := mem.frames, newtemp.table, mem.frames.chunks, mem.pages, oldtemp.count;
    OwnedTable(m, c0, c1, p0, p1, src, j, view, ks, c);
    ok, more := CopyTable(oldtemp, newtemp, mem);
    stray := [];
    TableCopySize(m, src[j], c, g, newtemp.table, more);
    if ok {
      FullCopy(m, src[j], c, g, newtemp.table, more);
      UsedPacked(src[j], c);
      ProgressStep(m, c0, c1, m.chunks, p0, p1, mem.pages, src, j, view, ks, newtemp.table, more);
    } else {
      stray := Indices(m, Used(g[|more|..]));
      FewerThanAll(m, c0, c1, p0, p1, src, j, view, ks, c, |more|);
      FailedFrames(m, m.entries[..], c0, c1, m.chunks, p0, p1, src, j, view, ks, c, g, newtemp.table, more);
    }
  }

  lemma EmptyTable(t: seq<PageEntry>)
    requires Packed(t, 0)
    ensures |t| == TABLE_SIZE && AllFree(t)
  {
  }

  lemma FreeTail(m: PageMap, t: seq<PageEntry>, n: nat)
    requires n <= |t|
    ensures AllFree(t) ==> Indices(m, Used(t[n..])) == []
  {
  }

  lemma OwnedTable(m: PageMap, c0: map<nat, Chunk>, c1: map<nat, Chunk>, p0: map<nat, Page>, p1: map<nat, Page>,
                   src: seq<seq<PageEntry>>, j: nat, view: seq<seq<PageEntry>>, ks: seq<nat>, c: nat)
    requires Owned(m, c0, Flat(src)) && j < |src| && Packed(src[j], c)
    requires Progress(m, c0, c1, p0, p1, src, j, view, ks)
    ensures |src[j]| == TABLE_SIZE && c <= TABLE_SIZE && Owned(m, c1, src[j][..c])
  {
    hide Flat, Owned, Took, CopiedPages, Relocate;
    UsedPacked(src[j], c);
    OwnedPart(m, c0, src, j);
    OwnedMore(m, c0, c1, ks, Used(src[j]));
  }

  // ------------------------------------------------------------ where the code fails

  /** Pages 0, 1, 2 and so on, on the given frames. */
  function NumberedPages(frames: seq<nat>): (es: seq<PageEntry>)
    ensures |es| == |frames| && forall i :: 0 <= i < |es| ==> es[i] == PageEntry(i * PAGE_SIZE, frames[i], true, true, false)
  {
    seq(|frames|, i requires 0 <= i < |frames| => PageEntry(i * PAGE_SIZE, frames[i], true, true, false))
  }

  /** Memory whose first entry happens to name frame p. */
  function NamingMemory(p: nat): (r: seq<PageEntry>)
    ensures |r| == TABLE_SIZE && r[0].paddr == p
  {
    [PageEntry(0, p, false, false, false)] + seq(TABLE_SIZE - 1, _ => PageEntry(0, 0, false, false, false))
  }

  /** A space one page larger than a table, copied when just a table's pages are free, and
      memory for the second table that names a page k in use: page k is freed as well,
      although its chunk is still handed out. */
  method CopyFreesPage(mem: Memory, memory: nat -> seq<PageEntry>, frames: seq<nat>, ghost k: nat)
    returns (parent: AddrSpace, r: AddrSpace?)
    requires mem.frames.Valid() && |FreeSet(mem.frames.entries[..])| == TABLE_SIZE && |frames| == TABLE_SIZE + 1
    requires forall i :: 0 <= i < |frames| ==> frames[i] != 0 && OwnedFrame(mem.frames, mem.frames.chunks, frames[i])
    requires (forall j :: |memory(j)| == TABLE_SIZE) && memory(1)[0].paddr == mem.frames.AddressOf(k)
    requires k in mem.frames.chunks && mem.frames.chunks[k] == Chunk(1, false)
    modifies mem`pages, mem.frames`chunks, mem.frames.entries
    ensures parent.Valid() && parent.Entries() == NumberedPages(frames) && r == null && k < mem.frames.entries.Length
    ensures k in mem.frames.chunks && mem.frames.entries[k] == FREE && !mem.frames.Valid()
  {
    hide *;
    var es := NumberedPages(frames);
    parent := BuildSpace(es, memory);
    ghost var m, e0, c0 := mem.frames, mem.frames.entries[..], mem.frames.chunks;
    UnfoldFrames(m);
    OwnedPages(m, c0, frames);
    HandedInside(e0, c0, k);
    ghost var ks, failure;
    r, ks, failure := AsCopy(parent, mem, memory);
    FirstUnwritten(m, memory, k);
    NamedIsFreed(failure, m, m.entries[..], e0, c0, ks, memory, k);
  }

  lemma HandedInside(e: seq<Entry>, chunks: map<nat, Chunk>, k: nat)
    requires Tiled(e, chunks) && k in chunks
    ensures k < |e|
  {
    hide Tiled;
    Handed(e, chunks, k);
  }

  lemma OwnedPages(m: PageMap, chunks: map<nat, Chunk>, frames: seq<nat>)
    requires forall i :: 0 <= i < |frames| ==> OwnedFrame(m, chunks, frames[i])
    ensures Owned(m, chunks, NumberedPages(frames))
  {
    hide OwnedFrame;
  }

  lemma FirstUnwritten(m: PageMap, memory: nat -> seq<PageEntry>, k: nat)
    requires m.Sized() && k < m.entries.Length
    requires (forall j :: |memory(j)| == TABLE_SIZE) && memory(1)[0].paddr == m.AddressOf(k)
    ensures var stray := Unwritten(m, memory, TABLE_SIZE);
            stray != [] && stray[0] == k
  {
    m.IndexOfAddress(k);
    TableAndSlot(m, memory, 1, 0, TABLE_SIZE);
    assert memory(1)[0..] == memory(1);
  }

  lemma NamedIsFreed(f: Failure, m: PageMap, e: seq<Entry>, e0: seq<Entry>, c0: map<nat, Chunk>, ks: seq<nat>,
                     memory: nat -> seq<PageEntry>, k: nat)
    requires (forall j :: |memory(j)| == TABLE_SIZE) && RanOut(f, m, e, c0, ks, memory)
    requires k in c0 && c0[k] == Chunk(1, false)
    requires var stray := Unwritten(m, memory, |ks|);
             stray != [] && stray[0] == k
    ensures k < |e| && e[k] == FREE && !Tiled(e, c0)
  {
    hide Unwritten, Exhausted, RemoveAll;
    var stray := Unwritten(m, memory, |ks|);
    assert ChunkOk(f.middle, k, f.taken[k]);
    hide Tiled, Took;
    assert stray == [k] + stray[1..];
    FreedAtLast(f.middle, ks, k, stray[1..]);
    BrokenChunk(e, c0, {}, k, k);
    assert c0 - {} == c0;
  }

  /** An entry of a single page that is freed among others is free in the end. */
  lemma FreedAtLast(e: seq<Entry>, a: seq<nat>, k: nat, b: seq<nat>)
    requires k < |e| && e[k].count == 1
    ensures RemoveAll(e, a + ([k] + b))[k] == FREE
  {
    RemoveAllConcat(e, a, [k] + b);
    var e1 := RemoveAll(e, a);
    assert ([k] + b)[1..] == b;
    assert RemoveAll(e1, [k] + b) == RemoveAll(Removed(e1, k, 0), b);
    if e1[k] != FREE {
      assert Removed(e1, k, 0) == Removed(e1[k := FREE], k + 1, 1);
    }
  }

  /** Takes n single pages. */
  method TakePages(m: PageMap, n: nat) returns (frames: seq<nat>, ghost ks: seq<nat>)
    requires m.Valid() && |FreeSet(m.entries[..])| >= n
    modifies m`chunks, m.entries
    ensures m.Valid() && Took(old(m.chunks), m.chunks, ks) && |ks| == n && frames == Addresses(m, ks)
    ensures |FreeSet(m.entries[..])| == |FreeSet(old(m.entries[..]))| - n
  {
    hide *;
    ghost var e0, c0 := m.entries[..], m.chunks;
    UnfoldFrames(m);
    frames, ks := [], [];
    TookNone(c0);
    var i := 0;
    while i < n
      invariant 0 <= i <= n && |ks| == i && frames == Addresses(m, ks)
      invariant m.Valid() && Took(c0, m.chunks, ks)
    {
      UnfoldFrames(m);
      TookFree(e0, c0, m.entries[..], m.chunks, ks);
      SomeFree(m.entries[..]);
      var paddr;
      ghost var k;
      ghost var c1 := m.chunks;
      paddr, k := m.Alloc(1, false);
      TookOne(c0, c1, ks, k);
      AddressesConcat(m, ks, [k]);
      frames, ks := frames + [paddr], ks + [k];
      i := i + 1;
    }
    UnfoldFrames(m);
    TookFree(e0, c0, m.entries[..], m.chunks, ks);
  }

  lemma SomeFree(e: seq<Entry>)
    requires |FreeSet(e)| > 0
    ensures exists j: nat :: FreeRun(e, j, 1)
  {
    var j :| j in FreeSet(e);
    assert FreeRun(e, j, 1);
  }

  lemma {:induction false} EmptyMapFree(e: seq<Entry>)
    requires forall i :: 0 <= i < |e| ==> e[i] == FREE
    ensures |FreeSet(e)| == |e|
    decreases |e|
  {
    if e != [] {
      var n := |e| - 1;
      EmptyMapFree(e[..n]);
      assert FreeSet(e) == FreeSet(e[..n]) + {n};
    }
  }

  /** That from nothing: 677 pages, 339 of them mapped by the parent, and memory that names
      the parent's first frame. The copy fails, and the parent's frame is free for the
      next one who asks. */
  method UnwrittenMemoryFrees() returns (mem: Memory, parent: AddrSpace, r: AddrSpace?, ghost k: nat)
    ensures r == null && parent.Valid() && |parent.Entries()| == TABLE_SIZE + 1
    ensures k < mem.frames.entries.Length && parent.Entries()[0].paddr == mem.frames.AddressOf(k)
    ensures k in mem.frames.chunks && mem.frames.entries[k] == FREE && !mem.frames.Valid()
  {
    hide Tiled, FreeSet, Took, Addresses, OwnedFrame, NamingMemory, Flat, View, Linked, Sound;
    var m := new PageMap(2 * TABLE_SIZE + 1, PAGE_SIZE);
    UnfoldFrames(m);
    NothingTaken(m.entries[..]);
    ghost var ks;
    var frames;
    frames, ks := TakePages(m, TABLE_SIZE + 1);
    UnfoldFrames(m);
    TakenOwned(m, m.entries[..], m.chunks, ks);
    mem := new Memory(m);
    k := ks[0];
    var p := frames[0];
    parent, r := CopyFreesPage(mem, j => NamingMemory(p), frames, k);
  }

  lemma NothingTaken(e: seq<Entry>)
    requires Tiled(e, map[])
    ensures |FreeSet(e)| == |e|
  {
    EmptyMapFree(e);
  }

  lemma TakenOwned(m: PageMap, e: seq<Entry>, chunks: map<nat, Chunk>, ks: seq<nat>)
    requires m.Sized() && Tiled(e, chunks) && |e| == m.entries.Length && Took(map[], chunks, ks)
    ensures forall i :: 0 <= i < |ks| ==>
      && ks[i] in chunks && chunks[ks[i]] == Chunk(1, false) && Addresses(m, ks)[i] == m.AddressOf(ks[i]) != 0
      && OwnedFrame(m, chunks, Addresses(m, ks)[i])
  {
    hide Tiled;
    forall i | 0 <= i < |ks|
      ensures Addresses(m, ks)[i] == m.AddressOf(ks[i]) != 0 && OwnedFrame(m, chunks, Addresses(m, ks)[i])
    {
      Handed(e, chunks, ks[i]);
      m.IndexOfAddress(ks[i]);
    }
  }

  /** addPageEntry on a copy whose tables, two or more, are all full: the new table goes
      behind the first one, and every mapping of the other tables is lost. */
  method AddToCopy(from: AddrSpace, mem: Memory, memory: nat -> seq<PageEntry>, e: PageEntry, last: seq<PageEntry>)
    returns (r: AddrSpace?)
    requires from.Valid() && mem.frames.Valid() && Owned(mem.frames, mem.frames.chunks, from.Entries())
    requires (forall j :: |memory(j)| == TABLE_SIZE) && |last| == TABLE_SIZE && e.paddr != 0
    requires |from.tables| >= 2 && from.tables[|from.tables| - 1].count == TABLE_SIZE
    requires Distinct(from.Entries()) && forall i :: 0 <= i < |from.Entries()| ==> from.Entries()[i].vaddr != e.vaddr
    modifies mem`pages, mem.frames`chunks, mem.frames.entries
    ensures r != null <==> |FreeSet(old(mem.frames.entries[..]))| >= |from.Entries()|
    ensures r != null ==> r.Valid() && |r.Entries()| == TABLE_SIZE + 1 < |from.Entries()|
    ensures r != null ==> forall i :: TABLE_SIZE <= i < |from.Entries()| ==>
      FirstMatch(r.Entries(), from.Entries()[i].vaddr) == NoMatch
  {
    hide Flat, View, Linked, Sound, Packed, Distinct, Relocate, Addresses, Took, CopiedPages, Owned, Tiled, FirstMatch,
      RanOut, AllExact, Harmless, RemoveAll, GivesBack;
    ghost var ks, failure, es := [], Failure([], map[]), from.Entries();
    r, ks, failure := AsCopy(from, mem, memory);
    if r == null {
      return;
    }
    CopyIsFull(from, r, Addresses(mem.frames, ks));
    ghost var view := View(r.tables);
    r.AddPageEntry(e, last);
    Lost(es, Addresses(mem.frames, ks), view, e);
  }

  lemma CopyIsFull(from: AddrSpace, r: AddrSpace, frames: seq<nat>)
    requires from.Valid() && r.Valid() && |r.tables| == |from.tables| && |frames| == |from.Entries()|
    requires from.tables[|from.tables| - 1].count == TABLE_SIZE && r.Entries() == Relocate(from.Entries(), frames)
    ensures r.tables[|r.tables| - 1].count == TABLE_SIZE && r.Entries() == Flat(View(r.tables))
    ensures Packed(View(r.tables)[0], TABLE_SIZE)
    ensures |from.Entries()| == TABLE_SIZE * |from.tables|
    ensures r.endAt == 0 ==> r.Kept() == 1
  {
    hide Flat, Packed, Relocate, View, Linked, Sound;
    UnfoldValid(from);
    UnfoldValid(r);
    SoundView(from.tables);
    SoundView(r.tables);
    FlatLength(View(from.tables), TABLE_SIZE);
    FlatLength(View(r.tables), r.tables[|r.tables| - 1].count);
  }

  /** Only the first table's entries are left, and the new one. */
  lemma Lost(es: seq<PageEntry>, frames: seq<nat>, view: seq<seq<PageEntry>>, e: PageEntry)
    requires Distinct(es) && |frames| == |es| >= TABLE_SIZE && view != [] && Packed(view[0], TABLE_SIZE)
    requires (forall i :: 0 <= i < |es| ==> es[i].vaddr != e.vaddr) && Flat(view) == Relocate(es, frames)
    ensures |Flat(view[..1]) + [e]| == TABLE_SIZE + 1
    ensures forall i :: TABLE_SIZE <= i < |es| ==> FirstMatch(Flat(view[..1]) + [e], es[i].vaddr) == NoMatch
  {
    hide Flat, Packed, Used, FirstMatch;
    PackedSize(view[0], TABLE_SIZE);
    UsedPacked(view[0], TABLE_SIZE);
    FlatOne(view[0]);
    assert view[..1] == [view[0]];
    assert view == [view[0]] + view[1..];
    FlatConcat([view[0]], view[1..]);
    var left := view[0] + [e];
    assert Used(view[0]) == view[0];
    forall i | TABLE_SIZE <= i < |es|
      ensures FirstMatch(left, es[i].vaddr) == NoMatch
    {
      forall j | 0 <= j < |left|
        ensures left[j].vaddr != es[i].vaddr
      {
        assert j < TABLE_SIZE ==> left[j] == Flat(view)[j];
      }
      NoEarlier(left, es[i].vaddr);
    }
  }

  /** Two full tables, copied, and one page more: the parent still maps page 338, the copy
      no longer does. */
  method CopyLosesPage(mem: Memory, memory: nat -> seq<PageEntry>, frames: seq<nat>, frame: nat)
    returns (parent: AddrSpace, r: AddrSpace?)
    requires mem.frames.Valid() && frame != 0 && (forall j :: |memory(j)| == TABLE_SIZE) && |frames| == 2 * TABLE_SIZE
    requires forall i :: 0 <= i < |frames| ==> frames[i] != 0 && OwnedFrame(mem.frames, mem.frames.chunks, frames[i])
    modifies mem`pages, mem.frames`chunks, mem.frames.entries
    ensures parent.Valid() && FirstMatch(parent.Entries(), TABLE_SIZE * PAGE_SIZE).Found?
    ensures r != null <==> |FreeSet(old(mem.frames.entries[..]))| >= 2 * TABLE_SIZE
    ensures r != null ==> r.Valid() && FirstMatch(r.Entries(), TABLE_SIZE * PAGE_SIZE) == NoMatch
  {
    hide OwnedFrame, Mapping, FirstMatch, Flat, Sound, Linked, View;
    var es := NumberedPages(frames);
    parent := BuildSpace(es, memory);
    assert Distinct(es);
    MatchIn(es, TABLE_SIZE);
    UnfoldValid(parent);
    SoundView(parent.tables);
    r := AddToCopy(parent, mem, memory, PageEntry(2 * TABLE_SIZE * PAGE_SIZE, frame, true, true, false), memory(0));
    assert es[TABLE_SIZE].vaddr == TABLE_SIZE * PAGE_SIZE;
  }

  lemma {:induction false} MatchIn(es: seq<PageEntry>, i: nat)
    requires i < |es|
    ensures FirstMatch(es, es[i].vaddr).Found?
    decreases i
  {
    if i > 0 && es[0].vaddr != es[i].vaddr {
      MatchIn(es[1..], i - 1);
    }
  }
}
