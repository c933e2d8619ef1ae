/** kmalloc and kfree over the heap's pages. Each method is one critical
    section of kmalloc_spinlock, or a composition of them; alloc_kpages is a
    parameter of the methods that call it. */
module Kmalloc {
  import Digits
  import opened Extents
  import opened HeapPages
  import opened HeapInvariant

  const LARGEST_SUBPAGE_SIZE := 2048
  const DEADBEEF := 0xdeadbeef

  /** blocktype: the smallest block size that fits. */
  method BlockType(sz: nat) returns (b: nat)
    requires sz <= Size(NSIZES - 1)
    ensures b < NSIZES && sz <= Size(b)
    ensures forall c :: 0 <= c < b ==> Size(c) < sz
  {
    b := 0;
    while sz > Size(b)
      invariant b < NSIZES
      invariant forall c :: 0 <= c < b ==> Size(c) < sz
      decreases NSIZES - b
    {
      b := b + 1;
    }
  }

  /** remove_lists, for one of the two lists: unlinks target if it is there. */
  method Unlink(next: seq<Link>, base: Link, target: nat, ghost list: seq<nat>)
    returns (next': seq<Link>, base': Link, ghost k: nat)
    requires Chain(next, base, list) && Distinct(list) && target in list
    ensures k < |list| && list[k] == target && Unlinked(next, base, list, k, next', base')
  {
    ghost var pos :| 0 <= pos < |list| && list[pos] == target;
    k := 0;
    var guy := base;
    var prev := Null;
    next', base' := next, base;
    while guy != Null && guy != Ref(target)
      invariant k <= pos && guy == LinkAt(list, k)
      invariant prev == (if k == 0 then Null else Ref(list[k - 1]))
      decreases pos - k
    {
      prev := guy;
      guy := next[guy.index];
      k := k + 1;
    }
    if prev == Null {
      base' := next[target];
    } else {
      next' := next[prev.index := next[target]];
    }
  }

  class Heap {
    var inuse: seq<bool>
    var nextSame: seq<Link>
    var nextAll: seq<Link>
    var refs: seq<PageRef>
    var sizebases: seq<Link>
    var allbase: Link
    var mem: map<nat, nat>
    ghost var sizeLists: seq<seq<nat>>
    ghost var allList: seq<nat>
    ghost var free: seq<seq<nat>>
    ghost var live: map<nat, nat>
    ghost var big: map<nat, nat>

    ghost function Now(): View
      reads this
    {
      View(inuse, nextSame, nextAll, refs, sizebases, allbase, mem, sizeLists, allList, free, live, big)
    }

    ghost predicate Valid()
      reads this
    {
      Inv(Now())
    }

    /** The heap before its first use. */
    constructor ()
      ensures Valid() && Now() == EmptyHeap()
    {
      inuse := seq(NPAGEREFS, _ => false);
      nextSame, nextAll := seq(NPAGEREFS, _ => Null), seq(NPAGEREFS, _ => Null);
      refs := seq(NPAGEREFS, _ => PageRef(0, 0, 0, 0));
      sizebases, allbase := seq(NSIZES, _ => Null), Null;
      mem := map[];
      sizeLists, allList := seq(NSIZES, _ => []), [];
      free := seq(NPAGEREFS, _ => []);
      live, big := map[], map[];
      EmptyHeapOk();
    }

    /** allocpageref: marks the first record not in use, word by word, bit by bit. */
    method AllocPageRef() returns (i: Link)
      requires |inuse| == NPAGEREFS
      modifies this`inuse
      ensures i == Null ==> inuse == old(inuse) && forall j :: 0 <= j < NPAGEREFS ==> inuse[j]
      ensures i.Ref? ==>
        i.index < NPAGEREFS && !old(inuse)[i.index] && inuse == old(inuse)[i.index := true] &&
        forall j :: 0 <= j < i.index ==> inuse[j]
    {
      var w := 0;
      while w < NPAGEREFS / 32
        invariant 0 <= w <= NPAGEREFS / 32
        invariant forall j :: 0 <= j < 32 * w ==> inuse[j]
        invariant inuse == old(inuse)
      {
        var j := 0;
        while j < 32
          invariant 0 <= j <= 32
          invariant forall k :: 0 <= k < 32 * w + j ==> inuse[k]
          invariant inuse == old(inuse)
        {
          if !inuse[w * 32 + j] {
            inuse := inuse[w * 32 + j := true];
            return Ref(w * 32 + j);
          }
          j := j + 1;
        }
        w := w + 1;
      }
      i := Null;
    }

    /** doalloc: takes the first free block of record i's page. */
    method DoAlloc(i: nat) returns (r: nat)
      requires Valid() && i < NPAGEREFS && inuse[i] && refs[i].nfree > 0
      modifies this
      ensures Valid() && r > 0 && inuse == old(inuse)
      ensures refs[i].blk == old(refs[i].blk) < NSIZES && refs[i].page == old(refs[i].page)
      ensures refs == old(refs)[i := refs[i]] && refs[i].nfree == old(refs[i].nfree) - 1
      ensures refs[i].page <= r < refs[i].page + PAGE_SIZE
      ensures r !in old(live) && live == old(live)[r := Size(refs[i].blk)] && big == old(big)
      ensures r % 16 == 0 && mem == old(mem)
    {
      hide Inv, Size;
      ghost var v := Now();
      InvShape(v);
      TakeFacts(v, i);
      TakeKeeps(v, i);
      var pr := refs[i];
      r := pr.page + pr.offset;
      var fl := mem[r];
      pr := pr.(nfree := pr.nfree - 1);
      if fl != 0 {
        assert pr.nfree > 0 && fl - pr.page < PAGE_SIZE;
        pr := pr.(offset := fl - pr.page);
      } else {
        assert pr.nfree == 0;
        pr := pr.(offset := INVALID_OFFSET);
      }
      refs := refs[i := pr];
      free := free[i := free[i][1..]];
      live := live[r := Size(pr.blk)];
      assert Now() == TakeBlock(v, i);
    }

    /** The first critical section of subpage_kmalloc: a free block on an existing page of the size. */
    method TakeFromExisting(b: nat) returns (r: nat, ghost i: nat)
      requires Valid() && b < NSIZES
      modifies this
      ensures Valid() && big == old(big)
      ensures r != 0 ==> TakenFrom(old(Now()), Now(), b, i, r)
      ensures r == 0 ==> Now() == old(Now())
      ensures r == 0 ==>
        forall i :: 0 <= i < |inuse| && i < |refs| && inuse[i] && refs[i].blk == b ==> refs[i].nfree == 0
      ensures r != 0 ==> r !in old(live) && live == old(live)[r := Size(b)] && r % 16 == 0 && mem == old(mem)
    {
      hide Inv, Size;
      i := 0;
      InvShape(Now());
      var pr := FindFree(b);
      if pr == Null {
        return 0, 0;
      }
      i := pr.index;
      r := DoAlloc(pr.index);
    }

    /** The search of the size class's pages. */
    method FindFree(b: nat) returns (pr: Link)
      requires Valid() && b < NSIZES
      ensures pr == Null ==>
        forall i :: 0 <= i < |inuse| && i < |refs| && inuse[i] && refs[i].blk == b ==> refs[i].nfree == 0
      ensures pr.Ref? ==> pr.index < NPAGEREFS && |inuse| == |refs| == NPAGEREFS
      ensures pr.Ref? ==> inuse[pr.index] && refs[pr.index].blk == b && refs[pr.index].nfree > 0
    {
      hide Inv;
      InvShape(Now());
      ghost var list := sizeLists[b];
      UseSizeList(Now(), b);
      ghost var k := 0;
      pr := sizebases[b];
      while pr != Null && refs[pr.index].nfree == 0
        invariant k <= |list| && pr == LinkAt(list, k)
        invariant forall j :: 0 <= j < k ==> list[j] < |refs| && refs[list[j]].nfree == 0
        decreases |list| - k
      {
        pr := nextSame[pr.index];
        k := k + 1;
      }
      if pr.Ref? {
        assert list[k] in list;
      } else {
        forall j | 0 <= j < |inuse| && inuse[j] && refs[j].blk == b
          ensures refs[j].nfree == 0
        {
          assert j in list;
        }
      }
    }

    /** Threads a fresh page's blocks onto a free list, the last block first. */
    method CarvePage(b: nat, page: nat)
      requires b < NSIZES
      modifies this`mem
      ensures WritesOnly(old(mem), mem, page, PAGE_SIZE)
      ensures FreeChain(mem, page, FullList(b, NBlocks(b)))
    {
      hide WritesOnly, FreeChain, FullList, Size, NBlocks;
      var n := NBlocks(b);
      NoWrites(mem, page, PAGE_SIZE);
      WriteInside(mem, mem, page, PAGE_SIZE, page, 0);
      mem := mem[page := 0];
      FirstBlock(b, page, mem);
      var i := 1;
      while i < n
        invariant 1 <= i <= n
        invariant WritesOnly(old(mem), mem, page, PAGE_SIZE)
        invariant FreeChain(mem, page, FullList(b, i))
      {
        LinkBlock(b, page, i, old(mem));
        i := i + 1;
      }
    }

    method LinkBlock(b: nat, page: nat, i: nat, ghost mem0: map<nat, nat>)
      requires b < NSIZES && 1 <= i < NBlocks(b)
      requires WritesOnly(mem0, mem, page, PAGE_SIZE) && FreeChain(mem, page, FullList(b, i))
      modifies this`mem
      ensures WritesOnly(mem0, mem, page, PAGE_SIZE) && FreeChain(mem, page, FullList(b, i + 1))
    {
      hide WritesOnly, FreeChain, FullList, Size, NBlocks;
      BlockOffsets(b, i);
      var at: nat, below: nat := i * Size(b), (i - 1) * Size(b);
      NextBlock(b, page, mem, i, at, below);
      WriteInside(mem0, mem, page, PAGE_SIZE, page + at, page + below);
      mem := mem[page + at := page + below];
    }

    /** The second critical section of subpage_kmalloc: page is what alloc_kpages(1) gave. */
    method TakeFromFresh(b: nat, page: nat) returns (r: nat, ghost i: nat)
      requires Valid() && b < NSIZES && FreshPages(Now(), page, 1)
      modifies this
      ensures Valid() && big == old(big)
      ensures r != 0 ==> TakenFromNew(old(Now()), Now(), b, page, i, r)
      ensures r == 0 ==> Now() == old(Now()) && forall i :: 0 <= i < |inuse| ==> inuse[i]
      ensures r != 0 ==> r !in old(live) && live == old(live)[r := Size(b)] && r % 16 == 0
      ensures WritesOnly(old(mem), mem, page, PAGE_SIZE)
    {
      hide Inv, FreshPages, WritesOnly, FreeChain, Size, NBlocks, FullList;
      ghost var v := Now();
      i := 0;
      InvShape(v);
      var pr := AllocPageRef();
      if pr == Null {
        NoWrites(mem, page, PAGE_SIZE);
        return 0, 0;
      }
      i := pr.index;
      CarvePage(b, page);
      AddKeeps(v, pr.index, b, page, mem);
      InsertPage(pr.index, b, page, v);
      r := DoAlloc(pr.index);
    }

    /** Fills in record i and puts it at the head of both lists. */
    method InsertPage(i: nat, b: nat, page: nat, ghost v: View)
      requires b < NSIZES && Shape(v) && i < NPAGEREFS
      requires Now() == v.(inuse := v.inuse[i := true], mem := mem)
      modifies this
      ensures Now() == AddPage(v, i, b, page, old(mem))
      ensures i < |refs| && refs[i].nfree > 0
    {
      hide Size, FullList, NBlocks;
      SetRecord(i, b, page);
      LinkFirst(i, b);
      nextAll := nextAll[i := allbase];
      allbase := Ref(i);
      allList := [i] + allList;
    }

    method SetRecord(i: nat, b: nat, page: nat)
      requires b < NSIZES && Shape(Now()) && i < NPAGEREFS
      modifies this`refs, this`free
      ensures refs == old(refs)[i := PageRef(page, b, (NBlocks(b) - 1) * Size(b), NBlocks(b))]
      ensures free == old(free)[i := FullList(b, NBlocks(b))]
    {
      refs := refs[i := PageRef(page, b, (NBlocks(b) - 1) * Size(b), NBlocks(b))];
      free := free[i := FullList(b, NBlocks(b))];
    }

    /** Record i becomes the first of its size class. */
    method LinkFirst(i: nat, b: nat)
      requires b < NSIZES && Shape(Now()) && i < NPAGEREFS
      modifies this`nextSame, this`sizebases, this`sizeLists
      ensures nextSame == old(nextSame)[i := old(sizebases)[b]] && sizebases == old(sizebases)[b := Ref(i)]
      ensures sizeLists == old(sizeLists)[b := [i] + old(sizeLists)[b]]
    {
      nextSame := nextSame[i := sizebases[b]];
      sizebases := sizebases[b := Ref(i)];
      sizeLists := sizeLists[b := [i] + sizeLists[b]];
    }

    /** fill_deadbeef */
    method FillDeadbeef(ptr: nat, len: nat)
      modifies this`mem
      ensures WritesOnly(old(mem), mem, ptr, len)
      ensures forall j :: 0 <= j < len / 4 ==> Dead(mem, ptr + 4 * j)
    {
      var i := 0;
      while i < len / 4
        invariant 0 <= i <= len / 4
        invariant WritesOnly(old(mem), mem, ptr, len)
        invariant forall j :: 0 <= j < i ==> Dead(mem, ptr + 4 * j)
      {
        mem := mem[ptr + 4 * i := DEADBEEF];
        i := i + 1;
      }
    }

    /** The page record whose page holds ptr, scanning allbase's list. */
    method FindPage(ptr: nat) returns (pr: Link)
      requires Valid() && ptr in live
      ensures pr == Null <==> ptr in big
      ensures pr.Ref? ==> OnPage(Now(), pr.index, ptr)
    {
      hide Inv, OnPage, Chain, Distinct;
      UseAllList(Now());
      pr := ScanPages(ptr);
      if pr.Ref? {
        FoundPage(Now(), pr.index, ptr);
      } else {
        NoPage(Now(), ptr);
      }
    }

    method ScanPages(ptr: nat) returns (pr: Link)
      requires Shape(Now()) && Chain(nextAll, allbase, allList)
      requires forall i :: 0 <= i < NPAGEREFS ==> (i in allList <==> inuse[i])
      ensures pr.Ref? ==> pr.index < NPAGEREFS && inuse[pr.index]
      ensures pr.Ref? ==> refs[pr.index].page <= ptr < refs[pr.index].page + PAGE_SIZE
      ensures pr == Null ==> forall i :: 0 <= i < |inuse| && i < |refs| && inuse[i] ==>
        !(refs[i].page <= ptr < refs[i].page + PAGE_SIZE)
    {
      ghost var k := 0;
      pr := allbase;
      while pr != Null && !(refs[pr.index].page <= ptr < refs[pr.index].page + PAGE_SIZE)
        invariant k <= |allList| && pr == LinkAt(allList, k)
        invariant forall j :: 0 <= j < k ==>
          allList[j] < |refs| && !(refs[allList[j]].page <= ptr < refs[allList[j]].page + PAGE_SIZE)
        decreases |allList| - k
      {
        pr := nextAll[pr.index];
        k := k + 1;
      }
      if pr.Ref? {
        assert allList[k] in allList;
      }
    }

    /** subpage_kfree of a block on record i's page. The page is given back,
        and its address returned, exactly when its last live block goes. */
    method GiveBack(i: nat, ptr: nat) returns (released: nat)
      requires Valid() && OnPage(Now(), i, ptr) && ptr in live
      modifies this
      ensures Valid() && live == old(live) - {ptr} && big == old(big)
      ensures released != 0 <==> old(refs[i].nfree) + 1 == NBlocks(old(refs[i].blk))
      ensures released != 0 ==> released == old(refs[i].page) && inuse == old(inuse)[i := false]
      ensures released == 0 ==>
        && inuse == old(inuse) && refs == old(refs)[i := refs[i]]
        && refs[i].nfree == old(refs[i].nfree) + 1 && refs[i].page == old(refs[i].page)
      ensures WritesOnly(old(mem), mem, ptr, old(live)[ptr])
      ensures forall j :: 1 <= j < old(live)[ptr] / 4 ==> Dead(mem, ptr + 4 * j)
    {
      hide Inv, Size, NBlocks, WritesOnly, Dead;
      var pr := refs[i];
      PutBlock(i, ptr);
      released := 0;
      if pr.nfree + 1 == NBlocks(pr.blk) {
        RemovePage(i);
        released := pr.page;
      }
    }

    /** The block becomes the first of its page's free list. */
    method PutBlock(i: nat, ptr: nat)
      requires Valid() && OnPage(Now(), i, ptr) && ptr in live
      modifies this
      ensures Valid() && live == old(live) - {ptr} && big == old(big) && inuse == old(inuse) && |refs| == |old(refs)|
      ensures i < |inuse| && inuse[i] && i < |refs| && refs == old(refs)[i := refs[i]]
      ensures refs[i].blk == old(refs[i].blk) < NSIZES && refs[i].page == old(refs[i].page) > 0
      ensures refs[i].nfree == old(refs[i].nfree) + 1
      ensures WritesOnly(old(mem), mem, ptr, old(live)[ptr])
      ensures forall j :: 1 <= j < old(live)[ptr] / 4 ==> Dead(mem, ptr + 4 * j)
    {
      hide Inv, Size, NBlocks, IsBlock, WritesOnly;
      ghost var v := Now();
      InvShape(v);
      GiveFacts(v, i, ptr);
      var pr := refs[i];
      FillDeadbeef(ptr, Size(pr.blk));
      ghost var filled := mem;
      mem := mem[ptr := if pr.offset == INVALID_OFFSET then 0 else pr.page + pr.offset];
      WriteHead(v.mem, filled, mem, ptr, Size(pr.blk));
      GiveKeeps(v, i, ptr, mem);
      refs := refs[i := pr.(offset := ptr - pr.page, nfree := pr.nfree + 1)];
      free := free[i := [ptr - pr.page] + free[i]];
      live := live - {ptr};
      assert Now() == GiveBlock(v, i, ptr, mem);
    }

    /** remove_lists and freepageref for a page with no live block left. */
    method RemovePage(i: nat)
      requires Valid() && i < |inuse| && i < |refs| && inuse[i]
      requires refs[i].blk < NSIZES && refs[i].nfree == NBlocks(refs[i].blk)
      modifies this
      ensures Valid() && live == old(live) && big == old(big) && inuse == old(inuse)[i := false] && mem == old(mem)
    {
      hide Inv, Size, NBlocks, Chain, Distinct, Unlinked;
      ghost var v := Now();
      InvShape(v);
      var b := refs[i].blk;
      UseAllList(v);
      UseSizeList(v, b);
      ghost var k, m;
      var same, sizebase, all, base;
      same, sizebase, k := Unlink(nextSame, sizebases[b], i, sizeLists[b]);
      all, base, m := Unlink(nextAll, allbase, i, allList);
      DropKeeps(v, i, same, sizebase, k, all, base, m);
      StoreLists(i, same, sizebase, k, all, base, m);
    }

    method StoreLists(i: nat, same: seq<Link>, sizebase: Link, ghost k: nat, all: seq<Link>, base: Link, ghost m: nat)
      requires Shape(Now()) && i < NPAGEREFS && refs[i].blk < NSIZES
      requires k < |sizeLists[refs[i].blk]| && m < |allList|
      modifies this
      ensures Now() == old(DropPage(Now(), i, same, sizebase, k, all, base, m))
    {
      StoreSame(refs[i].blk, same, sizebase, k);
      nextAll, allbase := all, base;
      allList := Without(allList, m);
      inuse := inuse[i := false];
    }

    method StoreSame(b: nat, same: seq<Link>, sizebase: Link, ghost k: nat)
      requires Shape(Now()) && b < NSIZES && k < |sizeLists[b]|
      modifies this`nextSame, this`sizebases, this`sizeLists
      ensures nextSame == same && sizebases == old(sizebases)[b := sizebase]
      ensures sizeLists == old(sizeLists)[b := Without(old(sizeLists)[b], k)]
    {
      nextSame, sizebases := same, sizebases[b := sizebase];
      sizeLists := sizeLists[b := Without(sizeLists[b], k)];
    }

    /** kmalloc: kpages is what alloc_kpages answers, 0 when it has no pages left.
        A block never meets one that is live, and no byte of a live block changes. It
        fails only without pages, or with every page record in use. A new page is taken
        only when no page of the smallest size class that fits has a free block; i is the
        record of the page that the block is on. */
    method Kmalloc(sz: nat, kpages: nat) returns (r: nat, ghost i: nat)
      requires Valid()
      requires kpages != 0 ==>
        FreshPages(Now(), kpages, if sz >= LARGEST_SUBPAGE_SIZE then (sz + PAGE_SIZE - 1) / PAGE_SIZE else 1)
      modifies this
      ensures Valid()
      ensures r == 0 ==> live == old(live)
      ensures r != 0 ==> r !in old(live) && r in live && live[r] >= sz && live == old(live)[r := live[r]]
      ensures r % 16 == 0
      ensures r != 0 ==> forall a :: a in old(live) ==> Apart(a, old(live)[a], r, live[r])
      ensures forall a :: a in old(live) ==> SameBytes(old(mem), mem, a, old(live)[a])
      ensures r == 0 ==> kpages == 0 || (sz < LARGEST_SUBPAGE_SIZE && forall i :: 0 <= i < |inuse| ==> inuse[i])
      ensures r == 0 && sz < LARGEST_SUBPAGE_SIZE ==> NoneFree(Now(), sz)
      ensures sz >= LARGEST_SUBPAGE_SIZE ==> r == kpages && inuse == old(inuse) && refs == old(refs) && mem == old(mem)
      ensures r != 0 && sz < LARGEST_SUBPAGE_SIZE ==>
        && i < |inuse| && i < |refs| && inuse[i] && refs[i].blk < NSIZES && refs[i].page <= r < refs[i].page + PAGE_SIZE
        && live[r] == Size(refs[i].blk) >= sz && (refs[i].blk > 0 ==> Size(refs[i].blk - 1) < sz)
      ensures sz < LARGEST_SUBPAGE_SIZE && !NoneFree(old(Now()), sz) ==>
        && r != 0 && inuse == old(inuse) && mem == old(mem)
        && refs[i].page == old(refs)[i].page && refs == old(refs)[i := refs[i]] && refs[i].nfree == old(refs)[i].nfree - 1
      ensures sz < LARGEST_SUBPAGE_SIZE && NoneFree(old(Now()), sz) && r != 0 ==>
        !old(inuse)[i] && inuse == old(inuse)[i := true] && refs[i].page == kpages != 0 && refs == old(refs)[i := refs[i]]
    {
      hide Inv, FreshPages, Size, SameBytes, NoneFree, TakenFrom, TakenFromNew;
      i := 0;
      ghost var v := Now();
      if sz >= LARGEST_SUBPAGE_SIZE {
        AllSame(v);
        r := BigAlloc(sz, kpages);
      } else {
        LargestSize();
        var b := BlockType(sz);
        r, i := TakeFromExisting(b);
        AllSame(v);
        if r == 0 {
          NoFreeBlock(Now(), sz, b);
          if kpages == 0 {
            return 0, 0;
          }
          r, i := TakeFromFresh(b, kpages);
          FreshSame(v, kpages, mem);
          NewTaken(v, Now(), sz, b, kpages, i, r);
        } else {
          SomeTaken(v, Now(), sz, b, i, r);
        }
      }
      if r != 0 {
        forall a | a in old(live)
          ensures Apart(a, old(live)[a], r, live[r])
        {
          NonOverlap(Now(), a, r);
        }
      }
    }

    /** The allocation of whole pages. */
    method BigAlloc(sz: nat, kpages: nat) returns (r: nat)
      requires Valid() && sz >= LARGEST_SUBPAGE_SIZE
      requires kpages != 0 ==> FreshPages(Now(), kpages, (sz + PAGE_SIZE - 1) / PAGE_SIZE)
      modifies this`big, this`live
      ensures Valid() && r == kpages && r % 16 == 0
      ensures r == 0 ==> live == old(live)
      ensures r != 0 ==> r !in old(live) && r in live && live[r] >= sz && live == old(live)[r := live[r]]
    {
      var npages := (sz + PAGE_SIZE - 1) / PAGE_SIZE;
      if kpages == 0 {
        return 0;
      }
      PagesCover(sz);
      FreshAligned(Now(), kpages, npages);
      hide Inv, FreshPages;
      FreshNotLive(Now(), kpages, npages);
      AddBigKeeps(Now(), kpages, npages);
      big := big[kpages := npages];
      live := live[kpages := npages * PAGE_SIZE];
      r := kpages;
    }

    /** kfree: frees exactly the block, and nothing for NULL; no byte of another live
        block changes. What goes to free_kpages is `released`: the block itself when it is
        of whole pages, or the page of record i when that was its last block in use. */
    method Kfree(ptr: nat) returns (released: nat, ghost i: nat)
      requires Valid() && (ptr != 0 ==> ptr in live)
      modifies this
      ensures Valid()
      ensures live == old(live) - {ptr} && big == old(big) - {ptr}
      ensures forall a :: a in live ==> SameBytes(old(mem), mem, a, live[a])
      ensures ptr == 0 ==> released == 0 && mem == old(mem)
      ensures ptr in old(big) ==> released == ptr && mem == old(mem)
      ensures ptr == 0 || ptr in old(big) ==> inuse == old(inuse) && refs == old(refs)
      ensures ptr != 0 && ptr !in old(big) ==>
        && i < |old(inuse)| && i < |old(refs)| && old(inuse)[i] && old(refs)[i].blk < NSIZES
        && old(refs)[i].page <= ptr < old(refs)[i].page + PAGE_SIZE
        && (if old(refs)[i].nfree + 1 == NBlocks(old(refs)[i].blk)
            then released == old(refs)[i].page && inuse == old(inuse)[i := false]
            else released == 0 && inuse == old(inuse) && i < |refs| && refs[i].nfree == old(refs)[i].nfree + 1)
        && forall j :: 1 <= j < old(live)[ptr] / 4 ==> Dead(mem, ptr + 4 * j)
    {
      hide Inv, SameBytes, WritesOnly, OnPage, NBlocks, Dead;
      ghost var v := Now();
      AllSame(v);
      released, i := 0, 0;
      if ptr == 0 {
        ZeroNotLive(Now());
        return;
      }
      var pr := FindPage(ptr);
      if pr.Ref? {
        i := pr.index;
        NotBig(v, i, ptr);
        released := GiveBack(pr.index, ptr);
        OthersSame(v, ptr, mem);
      } else {
        DropBigKeeps(Now(), ptr);
        big := big - {ptr};
        live := live - {ptr};
        released := ptr;
      }
    }

    /** A client stores into a block it holds. */
    method ClientWrite(block: nat, offset: nat, value: nat)
      requires Valid() && block in live && offset < live[block]
      modifies this`mem
      ensures Valid() && mem == old(mem)[block + offset := value]
    {
      hide Inv;
      ClientWriteKeeps(Now(), mem[block + offset := value], block, live[block]);
      mem := mem[block + offset := value];
    }
  }

  predicate Dead(mem: map<nat, nat>, a: nat)
  {
    a in mem && mem[a] == DEADBEEF
  }

  /** What a block on record i's page tells about the record. */
  lemma NotBig(v: View, i: nat, ptr: nat)
    requires Inv(v) && OnPage(v, i, ptr) && ptr in v.live && ptr !in v.big
    ensures i < |v.inuse| && i < |v.refs| && v.inuse[i] && v.refs[i].blk < NSIZES && v.refs[i].page != 0
    ensures v.refs[i].page <= ptr < v.refs[i].page + PAGE_SIZE && v.big - {ptr} == v.big
  {
    UsePage(v, i);
  }

  lemma PagesCover(sz: nat)
    ensures (sz + PAGE_SIZE - 1) / PAGE_SIZE * PAGE_SIZE >= sz
  {
  }

  lemma FreshAligned(v: View, a: nat, n: nat)
    requires FreshPages(v, a, n)
    ensures a % 16 == 0
  {
  }

  lemma NoWrites(mem: map<nat, nat>, lo: nat, n: nat)
    ensures WritesOnly(mem, mem, lo, n)
  {
  }

  lemma AllSame(v: View)
    ensures forall a :: a in v.live ==> SameBytes(v.mem, v.mem, a, v.live[a])
  {
  }

  lemma FreshSame(v: View, page: nat, mem': map<nat, nat>)
    requires Inv(v) && FreshPages(v, page, 1) && WritesOnly(v.mem, mem', page, PAGE_SIZE)
    ensures forall a :: a in v.live ==> SameBytes(v.mem, mem', a, v.live[a])
  {
    hide Inv, FreshPages, WritesOnly, SameBytes;
    forall a | a in v.live
      ensures SameBytes(v.mem, mem', a, v.live[a])
    {
      FreshMissesLive(v, page, 1, a);
      WritesMiss(v.mem, mem', page, PAGE_SIZE, a, v.live[a]);
    }
  }

  lemma OthersSame(v: View, ptr: nat, mem': map<nat, nat>)
    requires Inv(v) && ptr in v.live && WritesOnly(v.mem, mem', ptr, v.live[ptr])
    ensures forall a :: a in v.live && a != ptr ==> SameBytes(v.mem, mem', a, v.live[a])
  {
    hide Inv, WritesOnly, SameBytes;
    forall a | a in v.live && a != ptr
      ensures SameBytes(v.mem, mem', a, v.live[a])
    {
      NonOverlap(v, a, ptr);
      WritesMiss(v.mem, mem', ptr, v.live[ptr], a, v.live[a]);
    }
  }

  /** No page of the size class for sz has a free block. */
  ghost predicate NoneFree(v: View, sz: nat)
  {
    forall i :: 0 <= i < |v.inuse| && i < |v.refs| && v.inuse[i] && v.refs[i].blk < NSIZES ==>
      v.refs[i].nfree == 0 || Size(v.refs[i].blk) < sz || (v.refs[i].blk > 0 && Size(v.refs[i].blk - 1) >= sz)
  }

  /** r is a block of record i's page, of class b, which had a free block and has one fewer. */
  ghost predicate TakenFrom(before: View, after: View, b: nat, i: nat, r: nat)
  {
    && i < |before.inuse| && i < |before.refs| && before.inuse[i] && after.inuse == before.inuse
    && before.refs[i].blk == b && before.refs[i].nfree > 0
    && i < |after.refs| && after.refs == before.refs[i := after.refs[i]] && after.refs[i].blk == b
    && after.refs[i].page == before.refs[i].page && after.refs[i].nfree == before.refs[i].nfree - 1
    && after.refs[i].page <= r < after.refs[i].page + PAGE_SIZE
  }

  /** r is a block of record i's page, which came into use for it. */
  ghost predicate TakenFromNew(before: View, after: View, b: nat, page: nat, i: nat, r: nat)
  {
    && i < |before.inuse| && i < |before.refs| && !before.inuse[i] && after.inuse == before.inuse[i := true]
    && i < |after.refs| && after.refs == before.refs[i := after.refs[i]] && after.refs[i].blk == b
    && after.refs[i].page == page <= r < page + PAGE_SIZE
  }

  lemma SomeTaken(before: View, after: View, sz: nat, b: nat, i: nat, r: nat)
    requires b < NSIZES && sz <= Size(b) && (forall c: nat :: c < b ==> Size(c) < sz) && TakenFrom(before, after, b, i, r)
    ensures !NoneFree(before, sz)
    ensures && i < |after.inuse| && i < |after.refs| && after.inuse[i] && after.refs[i].blk == b
            && after.refs[i].page <= r < after.refs[i].page + PAGE_SIZE
            && after.inuse == before.inuse && i < |before.refs| && after.refs[i].page == before.refs[i].page
            && after.refs == before.refs[i := after.refs[i]] && after.refs[i].nfree == before.refs[i].nfree - 1
  {
  }

  lemma NewTaken(before: View, after: View, sz: nat, b: nat, page: nat, i: nat, r: nat)
    requires r != 0 ==> TakenFromNew(before, after, b, page, i, r)
    ensures r != 0 ==>
            && i < |after.inuse| && i < |after.refs| && after.inuse[i] && after.refs[i].blk == b
            && after.refs[i].page == page <= r < page + PAGE_SIZE
            && i < |before.inuse| && i < |before.refs| && !before.inuse[i]
            && after.inuse == before.inuse[i := true] && after.refs == before.refs[i := after.refs[i]]
  {
  }

  lemma NoFreeBlock(v: View, sz: nat, b: nat)
    requires b < NSIZES && sz <= Size(b) && (forall c: nat :: c < b ==> Size(c) < sz)
    requires forall i :: 0 <= i < |v.inuse| && i < |v.refs| && v.inuse[i] && v.refs[i].blk == b ==> v.refs[i].nfree == 0
    ensures NoneFree(v, sz)
  {
  }

  lemma FirstBlock(b: nat, page: nat, mem: map<nat, nat>)
    requires b < NSIZES && page in mem && mem[page] == 0
    ensures FreeChain(mem, page, FullList(b, 1))
  {
    FullListAt(b, 1, 0);
  }

  lemma BlockOffsets(b: nat, i: nat)
    requires b < NSIZES && 1 <= i < NBlocks(b)
    ensures 0 <= (i - 1) * Size(b) < i * Size(b) < PAGE_SIZE
  {
    hide Size;
    Digits.MulStrict(i, NBlocks(b), Size(b));
    Digits.MulStrict(i - 1, i, Size(b));
    Digits.MulMono(0, i - 1, Size(b));
  }

  /** Writing block i's link extends the chain below it by one. */
  lemma NextBlock(b: nat, page: nat, mem: map<nat, nat>, i: nat, at: nat, below: nat)
    requires b < NSIZES && 1 <= i < NBlocks(b) && FreeChain(mem, page, FullList(b, i))
    requires at == i * Size(b) && below == (i - 1) * Size(b)
    ensures FreeChain(mem[page + at := page + below], page, FullList(b, i + 1))
  {
    var s := Size(b);
    var fl := FullList(b, i);
    assert FullList(b, i + 1) == [at] + fl;
    FullListAt(b, i, 0);
    forall k | 0 <= k < |fl|
      ensures fl[k] != at
    {
      FullListAt(b, i, k);
      Digits.MulStrict(i - 1 - k, i, s);
    }
    hide FullList, Size;
    ChainExtended(mem, page, fl, at);
  }

  lemma ChainExtended(mem: map<nat, nat>, page: nat, fl: seq<nat>, o: nat)
    requires FreeChain(mem, page, fl) && fl != [] && o !in fl
    ensures FreeChain(mem[page + o := page + fl[0]], page, [o] + fl)
  {
    var fl', mem' := [o] + fl, mem[page + o := page + fl[0]];
    forall k | 0 <= k < |fl'|
      ensures page + fl'[k] in mem'
      ensures mem'[page + fl'[k]] == (if k + 1 < |fl'| then page + fl'[k + 1] else 0)
    {
      if k > 0 {
        assert fl'[k] == fl[k - 1] != o;
      }
    }
  }

  /** What a page with a free block offers. */
  lemma TakeFacts(v: View, i: nat)
    requires Inv(v) && i < |v.inuse| && v.inuse[i] && i < |v.refs| && v.refs[i].nfree > 0
    ensures Shape(v)
    ensures var pr, fl := v.refs[i], v.free[i];
            var r := pr.page + pr.offset;
            && pr.blk < NSIZES && |fl| == pr.nfree && pr.offset == fl[0] < PAGE_SIZE && r > 0 && r % 16 == 0
            && r !in v.live && r in v.mem
            && (if |fl| > 1 then v.mem[r] == pr.page + fl[1] && fl[1] < PAGE_SIZE
                else v.mem[r] == 0)
            && pr.page > 0
  {
    hide ListsOk, PagesOk, ApartOk, LiveOk, Size;
    InvShape(v);
    UsePage(v, i);
    var pr, fl := v.refs[i], v.free[i];
    assert IsBlock(pr.blk, fl[0]);
    assert |fl| > 1 ==> IsBlock(pr.blk, fl[1]) && fl[1] < PAGE_SIZE;
    hide IsBlock;
    FreeIsOnPage(v, i, fl[0]);
    UseBlock(v, i, pr.page + fl[0]);
    BlockAligned(pr.page, pr.blk, pr.offset);
  }

  lemma BlockAligned(page: nat, b: nat, o: nat)
    requires b < NSIZES && page % PAGE_SIZE == 0 && IsBlock(b, o)
    ensures (page + o) % 16 == 0
  {
    hide Size;
    Divides(o, Size(b), 16);
    Divides(page, PAGE_SIZE, 16);
    Digits.DivModUnique(page + o, 16, page / 16 + o / 16, 0);
  }

  lemma Divides(x: nat, s: nat, t: nat)
    requires s >= 1 && t >= 1 && x % s == 0 && s % t == 0
    ensures x % t == 0
  {
    var q, p := x / s, s / t;
    assert x == q * s && s == p * t;
    Digits.MulAssoc(q, p, t);
    Digits.DivModUnique(x, t, q * p, 0);
  }

  lemma UseAllList(v: View)
    requires Inv(v)
    ensures Shape(v) && Chain(v.nextAll, v.allbase, v.allList) && Distinct(v.allList)
    ensures forall i :: 0 <= i < NPAGEREFS ==> (i in v.allList <==> v.inuse[i])
  {
    assert AllListOk(v);
  }

  lemma UseSizeList(v: View, b: nat)
    requires Inv(v) && b < NSIZES
    ensures Shape(v) && Chain(v.nextSame, v.sizebases[b], v.sizeLists[b]) && Distinct(v.sizeLists[b])
    ensures forall i :: 0 <= i < NPAGEREFS ==> (i in v.sizeLists[b] <==> v.inuse[i] && v.refs[i].blk == b)
  {
    assert SizeListOk(v, b);
  }

  lemma LargestSize()
    ensures LARGEST_SUBPAGE_SIZE == Size(NSIZES - 1)
  {
  }

  lemma ZeroNotLive(v: View)
    requires Inv(v)
    ensures 0 !in v.live && 0 !in v.big
  {
    if 0 in v.live && 0 !in v.big {
      var j: nat :| OnPage(v, j, 0);
      UsePage(v, j);
    }
  }

  /** A page that holds a live pointer holds it as one of its blocks. */
  lemma FoundPage(v: View, i: nat, ptr: nat)
    requires Inv(v) && i < |v.inuse| && v.inuse[i] && i < |v.refs| && ptr in v.live
    requires v.refs[i].page <= ptr < v.refs[i].page + PAGE_SIZE
    ensures ptr !in v.big && OnPage(v, i, ptr)
  {
    hide ListsOk, PagesOk, Partitioned, IsBlock;
    InvShape(v);
    UsePage(v, i);
    assert ptr !in v.big by {
      if ptr in v.big {
        NotInPage(v, i, ptr);
      }
    }
    var j: nat :| OnPage(v, j, ptr);
    UsePage(v, j);
    hide ApartOk, Covered;
    SamePage(v, i, j, ptr);
  }

  lemma NotInPage(v: View, i: nat, a: nat)
    requires ApartOk(v) && i < |v.inuse| && v.inuse[i] && a in v.big
    ensures !(v.refs[i].page <= a < v.refs[i].page + PAGE_SIZE)
  {
    assert Apart(v.refs[i].page, PAGE_SIZE, a, v.big[a] * PAGE_SIZE) && v.big[a] >= 1;
  }

  lemma SamePage(v: View, i: nat, j: nat, ptr: nat)
    requires ApartOk(v) && i < |v.inuse| && v.inuse[i] && OnPage(v, j, ptr)
    requires v.refs[i].page % PAGE_SIZE == 0 && v.refs[j].page % PAGE_SIZE == 0
    requires v.refs[i].page <= ptr < v.refs[i].page + PAGE_SIZE
    ensures i == j
  {
    var p, q := v.refs[i].page, v.refs[j].page;
    assert q <= ptr < q + PAGE_SIZE;
    assert p == q;
  }

  lemma NoPage(v: View, ptr: nat)
    requires Inv(v) && ptr in v.live
    requires forall i :: 0 <= i < |v.inuse| && i < |v.refs| && v.inuse[i] ==>
      !(v.refs[i].page <= ptr < v.refs[i].page + PAGE_SIZE)
    ensures ptr in v.big
  {
  }

  lemma GiveFacts(v: View, i: nat, ptr: nat)
    requires Inv(v) && OnPage(v, i, ptr) && ptr in v.live
    ensures Shape(v) && i < NPAGEREFS && v.inuse[i] && v.live[ptr] == Size(v.refs[i].blk)
    ensures v.refs[i].page > 0
    ensures v.refs[i].offset == INVALID_OFFSET <==> v.free[i] == []
    ensures v.free[i] != [] ==> v.refs[i].offset == v.free[i][0]
  {
    hide ListsOk, PagesOk, ApartOk, LiveOk, Size;
    InvShape(v);
    UsePage(v, i);
    UseBlock(v, i, ptr);
    if v.free[i] != [] {
      assert IsBlock(v.refs[i].blk, v.free[i][0]);
    }
  }

  lemma WriteInside(mem: map<nat, nat>, mem': map<nat, nat>, lo: nat, n: nat, a: nat, x: nat)
    requires WritesOnly(mem, mem', lo, n) && lo <= a < lo + n
    ensures WritesOnly(mem, mem'[a := x], lo, n)
  {
  }

  lemma WriteHead(mem: map<nat, nat>, filled: map<nat, nat>, mem': map<nat, nat>, a: nat, n: nat)
    requires WritesOnly(mem, filled, a, n) && n >= 1 && a in mem' && mem' == filled[a := mem'[a]]
    ensures WritesOnly(mem, mem', a, n)
  {
  }
}
