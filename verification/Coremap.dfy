/** The coremap: one entry per physical page, used first fit in chunks of
    adjacent pages. Every entry of a chunk stores the chunk's length, in 17 bits. */
module Coremap {
  import opened Extents

  const COUNT_LIMIT := 0x20000
  const KSEG0 := 0x8000_0000

  datatype Entry = Entry(count: nat, kernel: bool, used: bool)

  const FREE := Entry(0, false, false)

  datatype Chunk = Chunk(pages: nat, kernel: bool)

  /** What chunk_cnt holds after a length is assigned to it. */
  function Stored(n: nat): nat {
    n % COUNT_LIMIT
  }

  /** chunk_cnt at index i; the entry past the last one counts as zero. */
  function CountAt(e: seq<Entry>, i: nat): nat {
    if i < |e| then e[i].count else 0
  }

  ghost predicate FreeRun(e: seq<Entry>, k: nat, n: nat) {
    k + n <= |e| && forall i :: k <= i < k + n ==> !e[i].used
  }

  ghost predicate ChunkOk(e: seq<Entry>, k: nat, c: Chunk) {
    && c.pages >= 1 && k + c.pages <= |e|
    && forall i :: k <= i < k + c.pages ==> e[i] == Entry(Stored(c.pages), c.kernel, true)
  }

  ghost predicate Covers(chunks: map<nat, Chunk>, k: nat, i: nat) {
    k in chunks && k <= i < k + chunks[k].pages
  }

  /** The entries are free, or tiled by the chunks handed out. */
  ghost predicate Tiled(e: seq<Entry>, chunks: map<nat, Chunk>) {
    && (forall k :: k in chunks ==> ChunkOk(e, k, chunks[k]))
    && (forall k, l :: k in chunks && l in chunks && k != l ==> Apart(k, chunks[k].pages, l, chunks[l].pages))
    && (forall i :: 0 <= i < |e| ==> e[i] == FREE || exists k :: Covers(chunks, k, i))
  }

  /** e with n entries from k on replaced by x. */
  function Fill(e: seq<Entry>, k: nat, n: nat, x: Entry): (r: seq<Entry>)
    requires k + n <= |e|
    ensures |r| == |e| && forall i :: 0 <= i < |e| ==> r[i] == if k <= i < k + n then x else e[i]
  {
    seq(|e|, i requires 0 <= i < |e| => if k <= i < k + n then x else e[i])
  }

  // ---------------------------------------------------------------- allocation

  /** A chunk filled into a free run leaves the map tiled. */
  lemma FillTiles(e: seq<Entry>, chunks: map<nat, Chunk>, k: nat, c: Chunk)
    requires Tiled(e, chunks) && c.pages >= 1 && k + c.pages <= |e| && FreeRun(e, k, c.pages)
    ensures k !in chunks
    ensures Tiled(Fill(e, k, c.pages, Entry(Stored(c.pages), c.kernel, true)), chunks[k := c])
  {
    hide Fill, FreeRun, Apart;
    var e' := Fill(e, k, c.pages, Entry(Stored(c.pages), c.kernel, true));
    var now := chunks[k := c];
    forall l | l in chunks
      ensures l != k && Apart(k, c.pages, l, chunks[l].pages) && Apart(l, chunks[l].pages, k, c.pages)
      ensures ChunkOk(e', l, chunks[l])
    {
      ChunkSurvives(e, l, chunks[l], k, c);
    }
    hide ChunkOk;
    NewChunkOk(e, k, c);
    forall i | 0 <= i < |e'|
      ensures e'[i] == FREE || exists l :: Covers(now, l, i)
    {
      if k <= i < k + c.pages {
        assert Covers(now, k, i);
      } else if e[i] != FREE {
        var l :| Covers(chunks, l, i);
        assert Covers(now, l, i);
      }
    }
  }

  lemma NewChunkOk(e: seq<Entry>, k: nat, c: Chunk)
    requires c.pages >= 1 && k + c.pages <= |e|
    ensures ChunkOk(Fill(e, k, c.pages, Entry(Stored(c.pages), c.kernel, true)), k, c)
  {
  }

  lemma ChunkSurvives(e: seq<Entry>, l: nat, d: Chunk, k: nat, c: Chunk)
    requires ChunkOk(e, l, d) && FreeRun(e, k, c.pages) && c.pages >= 1
    ensures l != k && Apart(k, c.pages, l, d.pages) && Apart(l, d.pages, k, c.pages)
    ensures ChunkOk(Fill(e, k, c.pages, Entry(Stored(c.pages), c.kernel, true)), l, d)
  {
    ChunkMissesRun(e, l, d, k, c.pages);
  }

  lemma ChunkMissesRun(e: seq<Entry>, l: nat, d: Chunk, k: nat, n: nat)
    requires ChunkOk(e, l, d) && FreeRun(e, k, n) && n >= 1
    ensures k + n <= l || l + d.pages <= k
  {
    var i := if k <= l then l else k;
    assert l <= i < l + d.pages ==> e[i].used;
    assert k <= i < k + n ==> !e[i].used;
  }

  // ---------------------------------------------------------------- freeing

  /** The number of pages that freeing the chunk of n pages at k clears. */
  function FreedPages(e: seq<Entry>, k: nat, n: nat): nat {
    if n >= COUNT_LIMIT then Stored(n)
    else if CountAt(e, k + n) > n then CountAt(e, k + n)
    else n
  }

  /** Freeing is exact: the length fits its field, and the chunk that begins
      right behind, if there is one, is not longer. */
  predicate Exact(e: seq<Entry>, k: nat, n: nat) {
    n < COUNT_LIMIT && CountAt(e, k + n) <= n
  }

  /** A nonzero count right behind a chunk belongs to a chunk that starts there. */
  lemma NextChunk(e: seq<Entry>, chunks: map<nat, Chunk>, k: nat)
    requires Tiled(e, chunks) && k in chunks
    requires CountAt(e, k + chunks[k].pages) > 0
    ensures k + chunks[k].pages in chunks
    ensures CountAt(e, k + chunks[k].pages) == Stored(chunks[k + chunks[k].pages].pages)
  {
    var i := k + chunks[k].pages;
    assert e[i] != FREE;
    var l :| Covers(chunks, l, i);
    assert l != k ==> Apart(k, chunks[k].pages, l, chunks[l].pages);
    assert ChunkOk(e, l, chunks[l]);
  }

  /** How the loop of removefromcoremap sees the counts: at the i-th step it reads
      a count above i exactly while i is below FreedPages. */
  lemma LoopReads(e: seq<Entry>, chunks: map<nat, Chunk>, k: nat, i: nat)
    requires Tiled(e, chunks) && k in chunks
    requires i <= FreedPages(e, k, chunks[k].pages)
    ensures k + FreedPages(e, k, chunks[k].pages) <= |e|
    ensures i < CountAt(e, k + i) <==> i < FreedPages(e, k, chunks[k].pages)
  {
    hide Tiled;
    var n := chunks[k].pages;
    Handed(e, chunks, k);
    if i < n {
      assert e[k + i].count == Stored(n);
    }
    if n < COUNT_LIMIT && CountAt(e, k + n) > n {
      NextChunk(e, chunks, k);
      Handed(e, chunks, k + n);
      LongNext(e, k, n, chunks[k + n], i);
    }
  }

  lemma Handed(e: seq<Entry>, chunks: map<nat, Chunk>, k: nat)
    requires Tiled(e, chunks) && k in chunks
    ensures ChunkOk(e, k, chunks[k])
  {
  }

  lemma LongNext(e: seq<Entry>, k: nat, n: nat, d: Chunk, i: nat)
    requires n >= 1 && ChunkOk(e, k + n, d) && Stored(d.pages) > n && i <= Stored(d.pages)
    ensures k + Stored(d.pages) < |e|
    ensures i >= n ==> CountAt(e, k + i) == Stored(d.pages)
  {
    assert i >= n ==> e[k + i].count == Stored(d.pages);
  }

  /** The loop of removefromcoremap, from its i-th step at the given index on. */
  function Removed(e: seq<Entry>, index: nat, i: nat): (r: seq<Entry>)
    ensures |r| == |e|
    ensures forall j :: 0 <= j < |e| ==> r[j] == e[j] || (r[j] == FREE && j >= index)
    decreases |e| - index
  {
    if index < |e| && i < e[index].count then Removed(e[index := FREE], index + 1, i + 1) else e
  }

  lemma FillNone(e: seq<Entry>, k: nat, x: Entry)
    requires k <= |e|
    ensures Fill(e, k, 0, x) == e
  {
  }

  /** On a chunk the loop clears FreedPages entries. */
  lemma {:induction false} RemovedIs(e: seq<Entry>, chunks: map<nat, Chunk>, k: nat, i: nat)
    requires Tiled(e, chunks) && k in chunks && i <= FreedPages(e, k, chunks[k].pages)
    requires k + FreedPages(e, k, chunks[k].pages) <= |e|
    ensures Removed(Fill(e, k, i, FREE), k + i, i) == Fill(e, k, FreedPages(e, k, chunks[k].pages), FREE)
    decreases FreedPages(e, k, chunks[k].pages) - i
  {
    hide Tiled;
    var f := FreedPages(e, k, chunks[k].pages);
    LoopReads(e, chunks, k, i);
    if i < f {
      assert Fill(e, k, i, FREE)[k + i := FREE] == Fill(e, k, i + 1, FREE);
      RemovedIs(e, chunks, k, i + 1);
    }
  }

  /** Freeing the chunk at k leaves exactly the other chunks tiled if and only if
      it is exact. */
  lemma FreeExact(e: seq<Entry>, chunks: map<nat, Chunk>, k: nat)
    requires Tiled(e, chunks) && k in chunks
    requires k + FreedPages(e, k, chunks[k].pages) <= |e|
    ensures Tiled(Fill(e, k, FreedPages(e, k, chunks[k].pages), FREE), chunks - {k}) <==> Exact(e, k, chunks[k].pages)
  {
    hide Tiled, Fill;
    var n := chunks[k].pages;
    if n >= COUNT_LIMIT {
      PageLeaks(e, chunks, k);
    } else if CountAt(e, k + n) > n {
      NeighbourLoses(e, chunks, k);
    } else {
      ClearTiles(e, chunks, k);
    }
  }

  /** A chunk too long for its count field keeps a page that nobody owns. */
  lemma PageLeaks(e: seq<Entry>, chunks: map<nat, Chunk>, k: nat)
    requires Tiled(e, chunks) && k in chunks && chunks[k].pages >= COUNT_LIMIT
    requires k + FreedPages(e, k, chunks[k].pages) <= |e|
    ensures var r := Fill(e, k, FreedPages(e, k, chunks[k].pages), FREE);
            var last := k + chunks[k].pages - 1;
            r[last].used && !(exists l :: Covers(chunks - {k}, l, last)) && !Tiled(r, chunks - {k})
  {
    var rest := chunks - {k};
    var last := k + chunks[k].pages - 1;
    assert ChunkOk(e, k, chunks[k]);
    forall l
      ensures !Covers(rest, l, last)
    {
      if l in rest {
        assert Apart(k, chunks[k].pages, l, chunks[l].pages);
      }
    }
  }

  /** A longer chunk right behind loses its first m - n pages. */
  lemma NeighbourLoses(e: seq<Entry>, chunks: map<nat, Chunk>, k: nat)
    requires Tiled(e, chunks) && k in chunks && chunks[k].pages < COUNT_LIMIT
    requires CountAt(e, k + chunks[k].pages) > chunks[k].pages
    requires k + FreedPages(e, k, chunks[k].pages) <= |e|
    ensures k + chunks[k].pages in chunks
    ensures CountAt(e, k + chunks[k].pages) <= chunks[k + chunks[k].pages].pages
    ensures forall i :: k <= i < k + CountAt(e, k + chunks[k].pages) ==>
      Fill(e, k, FreedPages(e, k, chunks[k].pages), FREE)[i] == FREE
    ensures !Tiled(Fill(e, k, FreedPages(e, k, chunks[k].pages), FREE), chunks - {k})
  {
    NextChunk(e, chunks, k);
    var n := chunks[k].pages;
    var d := chunks[k + n];
    var rest := chunks - {k};
    var r := Fill(e, k, FreedPages(e, k, n), FREE);
    assert ChunkOk(e, k, chunks[k]);
    assert ChunkOk(e, k + n, d);
    assert CountAt(e, k + n) <= d.pages;
    assert k + n in rest && rest[k + n] == d;
    assert FreedPages(e, k, n) == CountAt(e, k + n);
    assert !ChunkOk(r, k + n, d);
  }

  lemma ClearTiles(e: seq<Entry>, chunks: map<nat, Chunk>, k: nat)
    requires Tiled(e, chunks) && k in chunks && k + chunks[k].pages <= |e|
    ensures Tiled(Fill(e, k, chunks[k].pages, FREE), chunks - {k})
  {
    var rest := chunks - {k};
    var r := Fill(e, k, chunks[k].pages, FREE);
    forall l | l in rest
      ensures ChunkOk(r, l, rest[l])
    {
      assert Apart(k, chunks[k].pages, l, chunks[l].pages);
      assert ChunkOk(e, l, chunks[l]);
    }
    forall i | 0 <= i < |r|
      ensures r[i] == FREE || exists l :: Covers(rest, l, i)
    {
      if r[i] != FREE {
        var l :| Covers(chunks, l, i);
        assert Covers(rest, l, i);
      }
    }
  }

  /** removefromcoremap on one index after the other. */
  function RemoveAll(e: seq<Entry>, ks: seq<nat>): (r: seq<Entry>)
    ensures |r| == |e|
    ensures forall j :: 0 <= j < |e| ==> r[j] == e[j] || r[j] == FREE
    decreases |ks|
  {
    if ks == [] then e else RemoveAll(Removed(e, ks[0], 0), ks[1..])
  }

  /** ks are distinct chunks of one page. */
  ghost predicate Pages(chunks: map<nat, Chunk>, ks: seq<nat>) {
    && (forall i :: 0 <= i < |ks| ==> ks[i] in chunks && chunks[ks[i]].pages == 1)
    && (forall i, j :: 0 <= i < j < |ks| ==> ks[i] != ks[j])
  }

  ghost predicate AllExact(e: seq<Entry>, ks: seq<nat>) {
    forall i :: 0 <= i < |ks| ==> Exact(e, ks[i], 1)
  }

  /** Freeing single pages one by one leaves exactly the other chunks if and only if
      no longer chunk begins right behind any of the pages. */
  lemma {:induction false} FreePages(e: seq<Entry>, chunks: map<nat, Chunk>, ks: seq<nat>)
    requires Tiled(e, chunks) && Pages(chunks, ks)
    ensures Tiled(RemoveAll(e, ks), chunks - (set k | k in ks)) <==> AllExact(e, ks)
    decreases |ks|
  {
    hide Tiled, Removed, Fill, FreedPages;
    if ks == [] {
      assert chunks - (set k | k in ks) == chunks;
    } else {
      var k := ks[0];
      LoopReads(e, chunks, k, 0);
      RemovedIs(e, chunks, k, 0);
      FillNone(e, k, FREE);
      FreeExact(e, chunks, k);
      if Exact(e, k, 1) {
        FreeFirst(e, chunks, ks);
      } else {
        NeighbourGone(e, chunks, ks);
      }
    }
  }

  lemma FreeFirst(e: seq<Entry>, chunks: map<nat, Chunk>, ks: seq<nat>)
    requires Tiled(e, chunks) && Pages(chunks, ks) && ks != [] && Exact(e, ks[0], 1)
    requires ks[0] + FreedPages(e, ks[0], 1) <= |e|
    requires Removed(e, ks[0], 0) == Fill(e, ks[0], FreedPages(e, ks[0], 1), FREE)
    requires Tiled(Removed(e, ks[0], 0), chunks - {ks[0]})
    ensures Tiled(RemoveAll(e, ks), chunks - (set k | k in ks)) <==> AllExact(e, ks)
    decreases |ks|, 0
  {
    hide Tiled, Removed, Fill, AllExact;
    var k, rest := ks[0], ks[1..];
    var e1, left := Removed(e, k, 0), chunks - {k};
    assert left - (set x | x in rest) == chunks - (set x | x in ks) by {
      assert ks == [k] + rest;
    }
    Handed(e, chunks, k);
    SameExact(e, e1, chunks[k].kernel, ks);
    FreePages(e1, left, rest);
  }

  /** Freeing one page exactly changes nothing about whether the others are exact. */
  lemma SameExact(e: seq<Entry>, e1: seq<Entry>, kernel: bool, ks: seq<nat>)
    requires ks != [] && ChunkOk(e, ks[0], Chunk(1, kernel))
    requires ks[0] < |e| && Exact(e, ks[0], 1) && e1 == Fill(e, ks[0], 1, FREE)
    ensures AllExact(e1, ks[1..]) <==> AllExact(e, ks)
  {
    hide ChunkOk, Fill;
    assert CountAt(e, ks[0]) <= 1 by {
      OnePage(e, ks[0], kernel);
    }
    var rest := ks[1..];
    forall i | 0 <= i < |rest|
      ensures Exact(e1, rest[i], 1) == Exact(e, ks[i + 1], 1)
    {
    }
    assert forall i :: 1 <= i < |ks| ==> ks[i] == rest[i - 1];
  }

  lemma OnePage(e: seq<Entry>, k: nat, kernel: bool)
    requires ChunkOk(e, k, Chunk(1, kernel))
    ensures k < |e| && CountAt(e, k) == 1
  {
  }

  lemma NeighbourGone(e: seq<Entry>, chunks: map<nat, Chunk>, ks: seq<nat>)
    requires Tiled(e, chunks) && Pages(chunks, ks) && ks != [] && !Exact(e, ks[0], 1)
    requires ks[0] + FreedPages(e, ks[0], 1) <= |e|
    requires Removed(e, ks[0], 0) == Fill(e, ks[0], FreedPages(e, ks[0], 1), FREE)
    ensures ks[0] + 1 in chunks && ks[0] + 1 !in ks && ks[0] + 1 < |e| && RemoveAll(e, ks)[ks[0] + 1] == FREE
    ensures !Tiled(RemoveAll(e, ks), chunks - (set k | k in ks)) && !AllExact(e, ks)
  {
    hide Tiled, Removed, Fill;
    var k := ks[0];
    var l := k + 1;
    NextChunk(e, chunks, k);
    Handed(e, chunks, l);
    assert l !in ks;
    assert Removed(e, k, 0)[l] == FREE;
    assert RemoveAll(e, ks)[l] == FREE;
    BrokenChunk(RemoveAll(e, ks), chunks, (set x | x in ks), l, l);
  }

  /** A chunk that has lost an entry is not tiled. */
  lemma BrokenChunk(e: seq<Entry>, chunks: map<nat, Chunk>, gone: set<nat>, l: nat, i: nat)
    requires Covers(chunks, l, i) && l !in gone && i < |e| && e[i] == FREE
    ensures !Tiled(e, chunks - gone)
  {
    var left := chunks - gone;
    assert l in left && left[l] == chunks[l];
    assert !ChunkOk(e, l, left[l]);
  }

  lemma {:induction false} RemoveAllConcat(e: seq<Entry>, a: seq<nat>, b: seq<nat>)
    ensures RemoveAll(e, a + b) == RemoveAll(RemoveAll(e, a), b)
    decreases |a|
  {
    hide Removed;
    if a == [] {
      assert a + b == b;
    } else {
      RemoveAllConcat(Removed(e, a[0], 0), a[1..], b);
      assert (a + b)[1..] == a[1..] + b;
    }
  }

  // ---------------------------------------------------------------- freeing what is not ours

  /** Freeing at these indices does nothing. */
  ghost predicate Harmless(e: seq<Entry>, stray: seq<nat>) {
    forall i :: 0 <= i < |stray| ==> CountAt(e, stray[i]) == 0
  }

  /** Pages ks were ours, the indices `stray` are anything: exactly the other chunks are
      left if and only if freeing ours was exact and every stray index then has a zero
      count. */
  lemma FreeStray(e: seq<Entry>, chunks: map<nat, Chunk>, ks: seq<nat>, stray: seq<nat>)
    requires Tiled(e, chunks) && Pages(chunks, ks)
    ensures Tiled(RemoveAll(e, ks + stray), chunks - (set k | k in ks)) <==>
      AllExact(e, ks) && Harmless(RemoveAll(e, ks), stray)
  {
    hide Tiled, RemoveAll, AllExact, Harmless;
    RemoveAllConcat(e, ks, stray);
    FreePages(e, chunks, ks);
    var e1, rest := RemoveAll(e, ks), chunks - (set k | k in ks);
    if AllExact(e, ks) {
      StrayFromTiled(e1, rest, stray);
    } else {
      var l := InexactBreaks(e, chunks, ks);
      BrokenChunk(RemoveAll(e1, stray), chunks, (set k | k in ks), l, l);
    }
  }

  lemma {:induction false} StrayFromTiled(e: seq<Entry>, chunks: map<nat, Chunk>, stray: seq<nat>)
    requires Tiled(e, chunks)
    ensures Tiled(RemoveAll(e, stray), chunks) <==> Harmless(e, stray)
    decreases |stray|
  {
    hide Tiled;
    if stray != [] {
      var k := stray[0];
      if CountAt(e, k) == 0 {
        StrayFromTiled(e, chunks, stray[1..]);
        assert forall i :: 1 <= i < |stray| ==> stray[i] == stray[1..][i - 1];
      } else {
        var l := Coverer(e, chunks, k);
        assert RemoveAll(e, stray)[k] == FREE by {
          assert Removed(e, k, 0) == Removed(e[k := FREE], k + 1, 1);
        }
        BrokenChunk(RemoveAll(e, stray), chunks, {}, l, k);
        assert chunks - {} == chunks;
      }
    }
  }

  lemma Coverer(e: seq<Entry>, chunks: map<nat, Chunk>, i: nat) returns (l: nat)
    requires Tiled(e, chunks) && CountAt(e, i) > 0
    ensures i < |e| && Covers(chunks, l, i)
  {
    l :| Covers(chunks, l, i);
  }

  /** Inexact freeing takes the first page of a chunk that was not to be freed. */
  lemma {:induction false} InexactBreaks(e: seq<Entry>, chunks: map<nat, Chunk>, ks: seq<nat>) returns (l: nat)
    requires Tiled(e, chunks) && Pages(chunks, ks) && !AllExact(e, ks)
    ensures Covers(chunks, l, l) && l !in ks && l < |e| && RemoveAll(e, ks)[l] == FREE
    decreases |ks|
  {
    hide Tiled, Removed, Fill, FreedPages;
    var k := ks[0];
    LoopReads(e, chunks, k, 0);
    RemovedIs(e, chunks, k, 0);
    FillNone(e, k, FREE);
    FreeExact(e, chunks, k);
    if Exact(e, k, 1) {
      l := BreaksLater(e, chunks, ks);
    } else {
      NeighbourGone(e, chunks, ks);
      l := k + 1;
      Handed(e, chunks, l);
    }
  }

  lemma BreaksLater(e: seq<Entry>, chunks: map<nat, Chunk>, ks: seq<nat>) returns (l: nat)
    requires Tiled(e, chunks) && Pages(chunks, ks) && !AllExact(e, ks) && ks != [] && Exact(e, ks[0], 1)
    requires ks[0] + FreedPages(e, ks[0], 1) <= |e|
    requires Removed(e, ks[0], 0) == Fill(e, ks[0], FreedPages(e, ks[0], 1), FREE)
    requires Tiled(Removed(e, ks[0], 0), chunks - {ks[0]})
    ensures Covers(chunks, l, l) && l !in ks && l < |e| && RemoveAll(e, ks)[l] == FREE
    decreases |ks|, 0
  {
    hide Tiled, Removed, Fill, AllExact;
    var k, rest := ks[0], ks[1..];
    Handed(e, chunks, k);
    SameExact(e, Removed(e, k, 0), chunks[k].kernel, ks);
    l := InexactBreaks(Removed(e, k, 0), chunks - {k}, rest);
    assert ks == [k] + rest;
  }

  /** Another's page at index 0, ours at index 1, and memory that names the other: the
      other's page is freed too. */
  lemma StrayTakesPage()
    ensures var e := [Entry(1, false, true), Entry(1, false, true)];
            var chunks := map[0 := Chunk(1, false), 1 := Chunk(1, false)];
            && Tiled(e, chunks) && Pages(chunks, [1]) && AllExact(e, [1])
            && RemoveAll(e, [1] + [0]) == [FREE, FREE] && !Tiled(RemoveAll(e, [1] + [0]), chunks - {1})
  {
    var e := [Entry(1, false, true), Entry(1, false, true)];
    var chunks := map[0 := Chunk(1, false), 1 := Chunk(1, false)];
    assert Covers(chunks, 0, 0) && Covers(chunks, 1, 1);
    var e1 := [Entry(1, false, true), FREE];
    assert Removed(e, 1, 0) == e1 by {
      assert e[1 := FREE] == e1;
    }
    assert Removed(e1, 0, 0) == [FREE, FREE] by {
      assert e1[0 := FREE] == [FREE, FREE];
    }
    assert ([1] + [0])[1..] == [0] && [0][1..] == [];
    BrokenChunk([FREE, FREE], chunks, {1}, 0, 0);
  }

  /** Allocating a run and then freeing it restores every entry if and only if the
      freeing is exact. */
  lemma AllocFree(e: seq<Entry>, chunks: map<nat, Chunk>, k: nat, c: Chunk)
    requires Tiled(e, chunks) && c.pages >= 1 && FreeRun(e, k, c.pages)
    ensures var a := Fill(e, k, c.pages, Entry(Stored(c.pages), c.kernel, true));
            && k + FreedPages(a, k, c.pages) <= |a|
            && (Fill(a, k, FreedPages(a, k, c.pages), FREE) == e <==> Exact(e, k, c.pages))
  {
    hide Tiled, Fill, FreeRun, ChunkOk;
    RunFits(e, k, c.pages);
    var a := Fill(e, k, c.pages, Entry(Stored(c.pages), c.kernel, true));
    var now := chunks[k := c];
    FillTiles(e, chunks, k, c);
    LoopReads(a, now, k, 0);
    var r := Fill(a, k, FreedPages(a, k, c.pages), FREE);
    assert CountAt(a, k + c.pages) == CountAt(e, k + c.pages);
    if Exact(e, k, c.pages) {
      forall i | 0 <= i < |e|
        ensures r[i] == e[i]
      {
        if k <= i < k + c.pages {
          FreeEntry(e, chunks, i);
          RunFree(e, k, c.pages, i);
        }
      }
      assert r == e;
    } else if c.pages >= COUNT_LIMIT {
      RunFree(e, k, c.pages, k + c.pages - 1);
      assert r[k + c.pages - 1].used;
    } else {
      assert r[k + c.pages] == FREE;
    }
  }

  lemma RunFree(e: seq<Entry>, k: nat, n: nat, i: nat)
    requires FreeRun(e, k, n) && k <= i < k + n
    ensures i < |e| && !e[i].used
  {
  }

  lemma FreeEntry(e: seq<Entry>, chunks: map<nat, Chunk>, i: nat)
    requires Tiled(e, chunks) && i < |e|
    ensures e[i] == FREE || e[i].used
  {
    if e[i] != FREE {
      var l :| Covers(chunks, l, i);
      assert ChunkOk(e, l, chunks[l]);
    }
  }

  /** A page in front of a chunk of two: freeing the page frees half of the chunk. */
  lemma FreeTakesNeighbour()
    ensures var e := [Entry(1, false, true), Entry(2, true, true), Entry(2, true, true)];
            && Tiled(e, map[0 := Chunk(1, false), 1 := Chunk(2, true)])
            && Fill(e, 0, FreedPages(e, 0, 1), FREE) == [FREE, FREE, Entry(2, true, true)]
  {
    var e := [Entry(1, false, true), Entry(2, true, true), Entry(2, true, true)];
    var chunks := map[0 := Chunk(1, false), 1 := Chunk(2, true)];
    assert Covers(chunks, 0, 0) && Covers(chunks, 1, 1) && Covers(chunks, 1, 2);
    assert FreedPages(e, 0, 1) == 2;
  }

  // ---------------------------------------------------------------- the map

  class PageMap {
    const entries: array<Entry>
    const freespace: nat
    ghost var chunks: map<nat, Chunk>

    ghost predicate Sized() {
      && freespace % PAGE_SIZE == 0 && freespace > 0
      && freespace + entries.Length * PAGE_SIZE <= KSEG0
    }

    ghost predicate Valid()
      reads this, entries
    {
      Sized() && Tiled(entries[..], chunks)
    }

    constructor (n: nat, first: nat)
      requires first % PAGE_SIZE == 0 && first > 0 && first + n * PAGE_SIZE <= KSEG0
      ensures Valid() && chunks == map[] && fresh(entries)
      ensures entries.Length == n && freespace == first
    {
      var a := new Entry[n];
      var i := 0;
      while i < n
        invariant 0 <= i <= n
        invariant forall j :: 0 <= j < i ==> a[j] == FREE
      {
        a[i] := FREE;
        i := i + 1;
      }
      entries, freespace, chunks := a, first, map[];
    }

    /** indextopaddr */
    function AddressOf(index: nat): nat {
      index * PAGE_SIZE + freespace
    }

    /** getindex, in unsigned 32-bit arithmetic */
    function IndexOf(paddr: nat): nat {
      (paddr - freespace) % 0x1_0000_0000 / PAGE_SIZE
    }

    lemma IndexOfAddress(index: nat)
      requires Sized() && index < entries.Length
      ensures AddressOf(index) > 0 && IndexOf(AddressOf(index)) == index
      ensures AddressOf(0) == freespace && AddressOf(index + 1) == AddressOf(index) + PAGE_SIZE
    {
    }

    /** getpaddr: the leftmost free run of npages, or 0 when there is none. */
    method GetPaddr(npages: int) returns (paddr: nat, ghost k: nat)
      requires Sized()
      ensures npages <= 0 ==> paddr == 0
      ensures npages > 0 ==> (paddr == 0 <==> forall j: nat :: !FreeRun(entries[..], j, npages))
      ensures paddr != 0 ==> npages > 0 && paddr == AddressOf(k) && FreeRun(entries[..], k, npages)
      ensures paddr != 0 ==> forall j: nat :: j < k ==> !FreeRun(entries[..], j, npages)
    {
      ghost var e := entries[..];
      var count: nat := 0;
      k := 0;
      var i := 0;
      while i < entries.Length
        invariant 0 <= i <= entries.Length && count <= i
        invariant FreeRun(e, i - count, count)
        invariant npages <= 0 || count < npages
        invariant npages > 0 ==> forall j: nat :: j < i - count ==> !FreeRun(e, j, npages)
      {
        if !entries[i].used {
          count := count + 1;
          if count == npages {
            k := i - count + 1;
            assert FreeRun(entries[..], k, npages);
            return AddressOf(i - count + 1), k;
          }
        } else {
          count := 0;
        }
        i := i + 1;
      }
      paddr := 0;
    }

    /** addtocoremap */
    method AddToCoremap(paddr: nat, npages: nat, kernel: bool)
      requires IndexOf(paddr) + npages <= entries.Length
      modifies entries
      ensures entries[..] == Fill(old(entries[..]), IndexOf(paddr), npages, Entry(Stored(npages), kernel, true))
    {
      ghost var e := entries[..];
      ghost var k := IndexOf(paddr);
      var index := IndexOf(paddr);
      var i := 0;
      while i < npages
        invariant 0 <= i <= npages && index == k + i
        invariant forall j :: 0 <= j < entries.Length ==>
          entries[j] == if k <= j < k + i then Entry(Stored(npages), kernel, true) else e[j]
      {
        entries[index] := Entry(Stored(npages), kernel, true);
        index := index + 1;
        i := i + 1;
      }
    }

    /** alloc_kpages, and with kernel unset the allocation of user pages: first fit,
        and nothing but the run is written. */
    method Alloc(npages: int, kernel: bool) returns (paddr: nat, ghost k: nat)
      requires Valid()
      modifies this`chunks, entries
      ensures Valid()
      ensures paddr == 0 <==> npages <= 0 || forall j: nat :: !FreeRun(old(entries[..]), j, npages)
      ensures paddr == 0 ==> entries[..] == old(entries[..]) && chunks == old(chunks)
      ensures paddr != 0 ==>
        && paddr == AddressOf(k) && k !in old(chunks) && chunks == old(chunks)[k := Chunk(npages, kernel)]
        && FreeRun(old(entries[..]), k, npages)
        && (forall j: nat :: j < k ==> !FreeRun(old(entries[..]), j, npages))
        && entries[..] == Fill(old(entries[..]), k, npages, Entry(Stored(npages), kernel, true))
    {
      hide Tiled, FreeRun;
      paddr, k := GetPaddr(npages);
      if paddr == 0 || npages == 0 {
        return 0, k;
      }
      IndexOfAddress(k);
      RunFits(entries[..], k, npages);
      FillTiles(entries[..], chunks, k, Chunk(npages, kernel));
      AddToCoremap(paddr, npages, kernel);
      chunks := chunks[k := Chunk(npages, kernel)];
    }

    /** removefromcoremap, on any address. */
    method RemoveFromCoremap(paddr: nat)
      modifies entries
      ensures entries[..] == Removed(old(entries[..]), IndexOf(paddr), 0)
    {
      var index := IndexOf(paddr);
      var i := 0;
      while index < entries.Length && i < entries[index].count
        invariant Removed(old(entries[..]), IndexOf(paddr), 0) == Removed(entries[..], index, i)
        decreases entries.Length - index
      {
        ghost var e := entries[..];
        entries[index] := FREE;
        assert entries[..] == e[index := FREE];
        index := index + 1;
        i := i + 1;
      }
    }

    /** removefromcoremap, on the address of a chunk. Entries are cleared from the
        chunk's first on, as many as FreedPages says. The other chunks all survive
        if and only if the freeing is exact. */
    method Free(paddr: nat)
      requires Valid() && IndexOf(paddr) in chunks
      modifies this`chunks, entries
      ensures var e := old(entries[..]);
              var k := IndexOf(paddr);
              var n := old(chunks)[k].pages;
              && k + FreedPages(e, k, n) <= |e|
              && entries[..] == Fill(e, k, FreedPages(e, k, n), FREE)
              && chunks == old(chunks) - {k}
              && (Valid() <==> Exact(e, k, n))
    {
      hide Tiled, Fill, Removed;
      ghost var e, k := entries[..], IndexOf(paddr);
      LoopReads(e, chunks, k, 0);
      RemovedIs(e, chunks, k, 0);
      FillNone(e, k, FREE);
      RemoveFromCoremap(paddr);
      FreeExact(e, chunks, k);
      chunks := chunks - {k};
    }
  }

  lemma RunFits(e: seq<Entry>, k: nat, n: nat)
    requires FreeRun(e, k, n)
    ensures k + n <= |e|
  {
  }
}
