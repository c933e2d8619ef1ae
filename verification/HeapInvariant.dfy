/** What every heap operation keeps, and the operations on values. */
module HeapInvariant {
  import opened Counting
  import opened Extents
  import opened HeapPages

  ghost predicate Shape(v: View)
  {
    && |v.inuse| == |v.nextSame| == |v.nextAll| == |v.refs| == |v.free| == NPAGEREFS
    && |v.sizebases| == |v.sizeLists| == NSIZES
  }

  ghost predicate AllListOk(v: View)
    requires Shape(v)
  {
    && Chain(v.nextAll, v.allbase, v.allList) && Distinct(v.allList)
    && (forall i :: 0 <= i < NPAGEREFS ==> (i in v.allList <==> v.inuse[i]))
  }

  ghost predicate SizeListOk(v: View, b: nat)
    requires Shape(v) && b < NSIZES
  {
    && Chain(v.nextSame, v.sizebases[b], v.sizeLists[b]) && Distinct(v.sizeLists[b])
    && (forall i :: 0 <= i < NPAGEREFS ==> (i in v.sizeLists[b] <==> v.inuse[i] && v.refs[i].blk == b))
  }

  /** Every record in use is on allbase's list and on its own size's list, and on no other. */
  ghost predicate ListsOk(v: View)
  {
    && Shape(v) && AllListOk(v)
    && (forall b :: 0 <= b < NSIZES ==> SizeListOk(v, b))
  }

  ghost predicate PagesOk(v: View)
  {
    && Shape(v)
    && (forall i :: 0 <= i < NPAGEREFS && v.inuse[i] ==> PageOk(v.mem, v.refs[i], v.free[i]))
  }

  /** No two pages or page runs the heap has got meet. */
  ghost predicate ApartOk(v: View)
  {
    && Shape(v)
    && (forall i, j :: 0 <= i < j < NPAGEREFS && v.inuse[i] && v.inuse[j] ==> v.refs[i].page != v.refs[j].page)
    && (forall i, a :: 0 <= i < NPAGEREFS && v.inuse[i] && a in v.big ==>
          Apart(v.refs[i].page, PAGE_SIZE, a, v.big[a] * PAGE_SIZE))
    && (forall a, c :: a in v.big && c in v.big && a != c ==>
          Apart(a, v.big[a] * PAGE_SIZE, c, v.big[c] * PAGE_SIZE))
    && (forall a :: a in v.big ==> a > 0 && a % PAGE_SIZE == 0 && v.big[a] >= 1)
  }

  /** a is a block of the page of record i. */
  predicate OnPage(v: View, i: nat, a: nat)
  {
    && i < |v.inuse| && i < |v.refs| && v.inuse[i] && v.refs[i].blk < NSIZES
    && v.refs[i].page <= a && IsBlock(v.refs[i].blk, a - v.refs[i].page)
  }

  /** A block of a page is live, with the page's size, or on its free list. */
  predicate BlockOk(v: View, i: nat, a: nat)
    requires |v.free| == |v.refs| && OnPage(v, i, a)
  {
    && (a in v.live <==> a - v.refs[i].page !in v.free[i])
    && (a in v.live ==> v.live[a] == Size(v.refs[i].blk))
  }

  /** Free and live blocks partition every page. */
  ghost predicate Partitioned(v: View)
  {
    Shape(v) && forall i: nat, a: nat :: OnPage(v, i, a) ==> BlockOk(v, i, a)
  }

  /** What is live is big or on a page, and what is big is live. */
  ghost predicate Covered(v: View)
  {
    && (forall a :: a in v.live ==> a in v.big || exists i: nat :: OnPage(v, i, a))
    && (forall a :: a in v.big ==> a in v.live && v.live[a] == v.big[a] * PAGE_SIZE)
  }

  ghost predicate LiveOk(v: View)
  {
    Partitioned(v) && Covered(v)
  }

  ghost predicate Inv(v: View)
  {
    ListsOk(v) && PagesOk(v) && ApartOk(v) && LiveOk(v)
  }

  lemma InvShape(v: View)
    requires Inv(v)
    ensures Shape(v)
  {
  }

  lemma UsePage(v: View, i: nat)
    requires PagesOk(v) && i < |v.inuse| && v.inuse[i]
    ensures Shape(v) && PageOk(v.mem, v.refs[i], v.free[i])
  {
  }

  lemma UseBlock(v: View, i: nat, a: nat)
    requires LiveOk(v) && OnPage(v, i, a)
    ensures Shape(v) && BlockOk(v, i, a)
  {
  }

  // ----- no two live blocks overlap

  lemma PagesOfBlocks(v: View, i: nat, a: nat, j: nat, c: nat)
    requires PagesOk(v) && ApartOk(v) && OnPage(v, i, a) && OnPage(v, j, c) && a != c
    ensures Apart(a, Size(v.refs[i].blk), c, Size(v.refs[j].blk))
  {
    var p, q := v.refs[i].page, v.refs[j].page;
    assert PageOk(v.mem, v.refs[i], v.free[i]) && PageOk(v.mem, v.refs[j], v.free[j]);
    BlockInPage(v.refs[i].blk, a - p);
    BlockInPage(v.refs[j].blk, c - q);
    if i == j {
      if a < c {
        BlocksApart(Size(v.refs[i].blk), a - p, c - p);
      } else {
        BlocksApart(Size(v.refs[i].blk), c - p, a - p);
      }
    } else {
      assert p != q;
      if p < q {
        BlocksApart(PAGE_SIZE, p, q);
      } else {
        BlocksApart(PAGE_SIZE, q, p);
      }
    }
  }

  lemma BlockInPage(b: nat, o: nat)
    requires b < NSIZES && IsBlock(b, o)
    ensures o + Size(b) <= PAGE_SIZE
  {
    assert PAGE_SIZE % Size(b) == 0;
    BlocksApart(Size(b), o, PAGE_SIZE);
  }

  /** No two live blocks overlap. */
  lemma NonOverlap(v: View, a: nat, c: nat)
    requires Inv(v) && a in v.live && c in v.live && a != c
    ensures Apart(a, v.live[a], c, v.live[c])
  {
    if a in v.big && c in v.big {
    } else if a in v.big {
      var j: nat :| OnPage(v, j, c);
      BigAndBlock(v, a, j, c);
    } else if c in v.big {
      var i: nat :| OnPage(v, i, a);
      BigAndBlock(v, c, i, a);
    } else {
      var i: nat :| OnPage(v, i, a);
      var j: nat :| OnPage(v, j, c);
      PagesOfBlocks(v, i, a, j, c);
    }
  }

  lemma BigAndBlock(v: View, a: nat, i: nat, c: nat)
    requires ApartOk(v) && a in v.big && OnPage(v, i, c)
    ensures Apart(a, v.big[a] * PAGE_SIZE, c, Size(v.refs[i].blk))
  {
    assert Apart(v.refs[i].page, PAGE_SIZE, a, v.big[a] * PAGE_SIZE);
    hide ApartOk;
    BlockInPage(v.refs[i].blk, c - v.refs[i].page);
  }

  /** A big allocation is not a block of a page. */
  lemma BigNotOnPage(v: View, a: nat, i: nat)
    requires ApartOk(v) && a in v.big
    ensures !OnPage(v, i, a)
  {
    if i < NPAGEREFS && v.inuse[i] {
      assert Apart(v.refs[i].page, PAGE_SIZE, a, v.big[a] * PAGE_SIZE);
    }
  }

  /** A block belongs to one page. */
  lemma OnePage(v: View, i: nat, j: nat, a: nat)
    requires PagesOk(v) && ApartOk(v) && OnPage(v, i, a) && OnPage(v, j, a)
    ensures i == j
  {
    var p, q := v.refs[i].page, v.refs[j].page;
    assert PageOk(v.mem, v.refs[i], v.free[i]) && PageOk(v.mem, v.refs[j], v.free[j]);
    if p < q {
      BlocksApart(PAGE_SIZE, p, q);
    } else if q < p {
      BlocksApart(PAGE_SIZE, q, p);
    }
  }

  // ----- taking a block off a page's free list

  function TakeBlock(v: View, i: nat): View
    requires i < |v.refs| && i < |v.free| && v.free[i] != [] && v.refs[i].blk < NSIZES && v.refs[i].nfree >= 1
  {
    var pr, fl := v.refs[i], v.free[i];
    v.(refs := v.refs[i := pr.(offset := if |fl| == 1 then INVALID_OFFSET else fl[1], nfree := pr.nfree - 1)],
       free := v.free[i := fl[1..]],
       live := v.live[pr.page + fl[0] := Size(pr.blk)])
  }

  lemma TakeKeeps(v: View, i: nat)
    requires Inv(v) && i < NPAGEREFS && v.inuse[i] && v.free[i] != []
    ensures v.refs[i].blk < NSIZES && v.refs[i].nfree >= 1 && Inv(TakeBlock(v, i))
  {
    assert PageOk(v.mem, v.refs[i], v.free[i]);
    var v' := TakeBlock(v, i);
    ListsKept(v, v');
    TakePages(v, i);
    TakeLive(v, i);
    ApartKept(v, v');
  }

  /** The lists do not depend on free lists, memory or live blocks. */
  lemma ListsKept(v: View, v': View)
    requires ListsOk(v) && Shape(v')
    requires v'.inuse == v.inuse && v'.nextSame == v.nextSame && v'.nextAll == v.nextAll
    requires v'.sizebases == v.sizebases && v'.allbase == v.allbase
    requires v'.sizeLists == v.sizeLists && v'.allList == v.allList
    requires forall j :: 0 <= j < NPAGEREFS ==> v'.refs[j].blk == v.refs[j].blk
    ensures ListsOk(v')
  {
    hide Chain, Distinct;
    forall b | 0 <= b < NSIZES
      ensures SizeListOk(v', b)
    {
      assert SizeListOk(v, b);
    }
  }

  lemma ApartKept(v: View, v': View)
    requires ApartOk(v) && Shape(v') && v'.inuse == v.inuse && v'.big == v.big
    requires forall j :: 0 <= j < NPAGEREFS ==> v'.refs[j].page == v.refs[j].page
    ensures ApartOk(v')
  {
  }

  lemma PagePop(mem: map<nat, nat>, pr: PageRef, fl: seq<nat>)
    requires PageOk(mem, pr, fl) && fl != []
    ensures PageOk(mem, pr.(offset := if |fl| == 1 then INVALID_OFFSET else fl[1], nfree := pr.nfree - 1), fl[1..])
  {
    forall k | 0 <= k < |fl| - 1
      ensures fl[1..][k] == fl[k + 1] && IsBlock(pr.blk, fl[1..][k])
    {
      assert IsBlock(pr.blk, fl[k + 1]);
    }
    FirstOut(fl);
  }

  lemma TakePages(v: View, i: nat)
    requires PagesOk(v) && i < NPAGEREFS && v.inuse[i] && v.free[i] != []
    ensures v.refs[i].blk < NSIZES && v.refs[i].nfree >= 1 && PagesOk(TakeBlock(v, i))
  {
    PagePop(v.mem, v.refs[i], v.free[i]);
    var v' := TakeBlock(v, i);
    forall j | 0 <= j < NPAGEREFS && v'.inuse[j]
      ensures PageOk(v'.mem, v'.refs[j], v'.free[j])
    {
      if j != i {
        assert PageOk(v.mem, v.refs[j], v.free[j]);
      }
    }
  }

  lemma TakeLive(v: View, i: nat)
    requires PagesOk(v) && ApartOk(v) && LiveOk(v) && i < NPAGEREFS && v.inuse[i] && v.free[i] != []
    ensures v.refs[i].blk < NSIZES && v.refs[i].nfree >= 1 && LiveOk(TakeBlock(v, i))
  {
    assert PageOk(v.mem, v.refs[i], v.free[i]);
    var v' := TakeBlock(v, i);
    var taken := v.refs[i].page + v.free[i][0];
    assert OnPage(v, i, taken) by { assert IsBlock(v.refs[i].blk, v.free[i][0]); }
    forall j: nat, a: nat | OnPage(v', j, a)
      ensures BlockOk(v', j, a)
    {
      TakeOne(v, i, j, a);
    }
    forall a | a in v'.live
      ensures a in v'.big || exists j: nat :: OnPage(v', j, a)
    {
      if a == taken {
        assert OnPage(v', i, a);
      } else if a !in v.big {
        var j: nat :| OnPage(v, j, a);
        assert OnPage(v', j, a);
      }
    }
    forall a | a in v'.big
      ensures a in v'.live && v'.live[a] == v'.big[a] * PAGE_SIZE
    {
      BigNotOnPage(v, a, i);
    }
  }

  lemma TakeOne(v: View, i: nat, j: nat, a: nat)
    requires PagesOk(v) && ApartOk(v) && Partitioned(v) && i < NPAGEREFS && v.inuse[i] && v.free[i] != []
    requires v.refs[i].blk < NSIZES && v.refs[i].nfree >= 1 && OnPage(TakeBlock(v, i), j, a)
    ensures BlockOk(TakeBlock(v, i), j, a)
  {
    assert PageOk(v.mem, v.refs[i], v.free[i]);
    assert OnPage(v, j, a) && BlockOk(v, j, a);
    var taken := v.refs[i].page + v.free[i][0];
    assert OnPage(v, i, taken) by { assert IsBlock(v.refs[i].blk, v.free[i][0]); }
    FirstOut(v.free[i]);
    if a == taken {
      OnePage(v, i, j, a);
    }
  }

  lemma FirstOut(fl: seq<nat>)
    requires fl != [] && Distinct(fl)
    ensures forall x :: x in fl[1..] <==> x in fl && x != fl[0]
  {
    forall x | x in fl && x != fl[0]
      ensures x in fl[1..]
    {
      var k :| 0 <= k < |fl| && fl[k] == x;
      assert fl[1..][k - 1] == x;
    }
  }

  // ----- memory writes

  /** mem' differs from mem at most inside lo .. lo+n-1. */
  ghost predicate WritesOnly(mem: map<nat, nat>, mem': map<nat, nat>, lo: nat, n: nat)
  {
    forall x :: x in mem && !(lo <= x < lo + n) ==> x in mem' && mem'[x] == mem[x]
  }

  /** Writes clear of a page's free blocks leave its free list alone. */
  lemma FreeChainKept(mem: map<nat, nat>, mem': map<nat, nat>, lo: nat, n: nat, pr: PageRef, fl: seq<nat>)
    requires PageOk(mem, pr, fl) && WritesOnly(mem, mem', lo, n)
    requires forall k :: 0 <= k < |fl| ==> !(lo <= pr.page + fl[k] < lo + n)
    ensures PageOk(mem', pr, fl)
  {
  }

  /** Writes inside one live or big block leave every free list alone. */
  lemma PagesKept(v: View, mem': map<nat, nat>, a: nat, n: nat)
    requires Inv(v) && a in v.live && n <= v.live[a] && WritesOnly(v.mem, mem', a, n)
    ensures PagesOk(v.(mem := mem'))
  {
    var v' := v.(mem := mem');
    forall j | 0 <= j < NPAGEREFS && v'.inuse[j]
      ensures PageOk(v'.mem, v'.refs[j], v'.free[j])
    {
      var pr, fl := v.refs[j], v.free[j];
      assert PageOk(v.mem, pr, fl);
      forall k | 0 <= k < |fl|
        ensures !(a <= pr.page + fl[k] < a + n)
      {
        FreeBlockClear(v, j, fl[k], a);
      }
      FreeChainKept(v.mem, mem', a, n, pr, fl);
    }
  }

  /** A free block does not lie inside a live one. */
  lemma FreeBlockClear(v: View, j: nat, o: nat, a: nat)
    requires Inv(v) && j < NPAGEREFS && v.inuse[j] && o in v.free[j] && a in v.live
    ensures !(a <= v.refs[j].page + o < a + v.live[a])
  {
    assert PageOk(v.mem, v.refs[j], v.free[j]);
    var f := v.refs[j].page + o;
    FreeIsOnPage(v, j, o);
    assert BlockOk(v, j, f);
    if a in v.big {
      BigAndBlock(v, a, j, f);
    } else {
      var i: nat :| OnPage(v, i, a);
      assert BlockOk(v, i, a);
      hide ListsOk, LiveOk, OnPage;
      PagesOfBlocks(v, i, a, j, f);
    }
  }

  lemma FreeIsOnPage(v: View, j: nat, o: nat)
    requires PagesOk(v) && j < NPAGEREFS && v.inuse[j] && o in v.free[j]
    ensures OnPage(v, j, v.refs[j].page + o)
  {
    assert PageOk(v.mem, v.refs[j], v.free[j]);
    var k :| 0 <= k < |v.free[j]| && v.free[j][k] == o;
    assert IsBlock(v.refs[j].blk, v.free[j][k]);
  }

  /** A client may write anywhere in a block it holds. */
  lemma ClientWriteKeeps(v: View, mem': map<nat, nat>, a: nat, n: nat)
    requires Inv(v) && a in v.live && n <= v.live[a] && WritesOnly(v.mem, mem', a, n)
    ensures Inv(v.(mem := mem'))
  {
    var v' := v.(mem := mem');
    PagesKept(v, mem', a, n);
    ListsKept(v, v');
    SameBlocks(v, v');
  }

  /** ApartOk and LiveOk do not depend on memory or on the lists. */
  lemma SameBlocks(v: View, v': View)
    requires ApartOk(v) && LiveOk(v) && Shape(v')
    requires v'.inuse == v.inuse && v'.refs == v.refs && v'.free == v.free && v'.live == v.live && v'.big == v.big
    ensures ApartOk(v') && LiveOk(v')
  {
    forall i: nat, a: nat | OnPage(v', i, a)
      ensures BlockOk(v', i, a)
    {
      assert OnPage(v, i, a) && BlockOk(v, i, a);
    }
    forall a | a in v'.live
      ensures a in v'.big || exists i: nat :: OnPage(v', i, a)
    {
      if a !in v.big {
        var i: nat :| OnPage(v, i, a);
        assert OnPage(v', i, a);
      }
    }
  }

  // ----- putting a block back on a page's free list

  function GiveBlock(v: View, i: nat, a: nat, mem': map<nat, nat>): View
    requires i < |v.refs| == |v.free| && OnPage(v, i, a)
  {
    var pr := v.refs[i];
    v.(refs := v.refs[i := pr.(offset := a - pr.page, nfree := pr.nfree + 1)],
       free := v.free[i := [a - pr.page] + v.free[i]],
       live := v.live - {a},
       mem := mem')
  }

  lemma GiveKeeps(v: View, i: nat, a: nat, mem': map<nat, nat>)
    requires Inv(v) && OnPage(v, i, a) && a in v.live
    requires WritesOnly(v.mem, mem', a, v.live[a]) && a in mem'
    requires mem'[a] == (if v.free[i] == [] then 0 else v.refs[i].page + v.free[i][0])
    ensures Inv(GiveBlock(v, i, a, mem'))
  {
    hide ListsOk, PagesOk, ApartOk, LiveOk, IsBlock, WritesOnly;
    InvShape(v);
    var v' := GiveBlock(v, i, a, mem');
    GivePages(v, i, a, mem');
    GiveLive(v, i, a, mem');
    assert forall j :: 0 <= j < NPAGEREFS ==>
      v'.refs[j].page == v.refs[j].page && v'.refs[j].blk == v.refs[j].blk;
    ListsKept(v, v');
    ApartKept(v, v');
  }

  lemma PagePush(mem: map<nat, nat>, pr: PageRef, fl: seq<nat>, o: nat)
    requires PageOk(mem, pr, fl) && IsBlock(pr.blk, o) && o !in fl && pr.page + o in mem
    requires mem[pr.page + o] == (if fl == [] then 0 else pr.page + fl[0])
    ensures PageOk(mem, pr.(offset := o, nfree := pr.nfree + 1), [o] + fl)
  {
    var fl' := [o] + fl;
    forall k | 0 <= k < |fl'|
      ensures IsBlock(pr.blk, fl'[k]) && pr.page + fl'[k] in mem
      ensures mem[pr.page + fl'[k]] == (if k + 1 < |fl'| then pr.page + fl'[k + 1] else 0)
    {
      if k > 0 {
        assert fl'[k] == fl[k - 1] && IsBlock(pr.blk, fl[k - 1]);
      }
    }
  }

  lemma GivePages(v: View, i: nat, a: nat, mem': map<nat, nat>)
    requires Inv(v) && OnPage(v, i, a) && a in v.live
    requires WritesOnly(v.mem, mem', a, v.live[a]) && a in mem'
    requires mem'[a] == (if v.free[i] == [] then 0 else v.refs[i].page + v.free[i][0])
    ensures PagesOk(GiveBlock(v, i, a, mem'))
  {
    hide ListsOk, PagesOk, ApartOk, LiveOk, WritesOnly, PageOk, IsBlock;
    InvShape(v);
    PagesKept(v, mem', a, v.live[a]);
    UsePage(v.(mem := mem'), i);
    UseBlock(v, i, a);
    PagePush(mem', v.refs[i], v.free[i], a - v.refs[i].page);
    PagesReplaced(v.(mem := mem'), GiveBlock(v, i, a, mem'), i);
  }

  /** Replacing one page's record and free list leaves the other pages alone. */
  lemma PagesReplaced(v: View, v': View, i: nat)
    requires PagesOk(v) && Shape(v') && i < NPAGEREFS && v'.mem == v.mem && v'.inuse == v.inuse
    requires v'.refs == v.refs[i := v'.refs[i]] && v'.free == v.free[i := v'.free[i]]
    requires PageOk(v.mem, v'.refs[i], v'.free[i])
    ensures PagesOk(v')
  {
    hide PageOk;
    forall j | 0 <= j < NPAGEREFS && v'.inuse[j]
      ensures PageOk(v'.mem, v'.refs[j], v'.free[j])
    {
      if j != i {
        assert PageOk(v.mem, v.refs[j], v.free[j]);
      }
    }
  }

  lemma GiveLive(v: View, i: nat, a: nat, mem': map<nat, nat>)
    requires Inv(v) && OnPage(v, i, a) && a in v.live
    ensures LiveOk(GiveBlock(v, i, a, mem'))
  {
    InvShape(v);
    GivePartitioned(v, i, a, mem');
    GiveCovered(v, i, a, mem');
  }

  lemma GiveCovered(v: View, i: nat, a: nat, mem': map<nat, nat>)
    requires ApartOk(v) && Covered(v) && OnPage(v, i, a) && a in v.live
    ensures Covered(GiveBlock(v, i, a, mem'))
  {
    var v' := GiveBlock(v, i, a, mem');
    assert a !in v.big by {
      if a in v.big {
        BigNotOnPage(v, a, i);
      }
    }
    hide ApartOk, IsBlock;
    forall c | c in v'.live
      ensures c in v'.big || exists j: nat :: OnPage(v', j, c)
    {
      if c !in v.big {
        var j: nat :| OnPage(v, j, c);
        assert OnPage(v', j, c);
      }
    }
  }

  lemma GivePartitioned(v: View, i: nat, a: nat, mem': map<nat, nat>)
    requires Inv(v) && OnPage(v, i, a) && a in v.live
    ensures Partitioned(GiveBlock(v, i, a, mem'))
  {
    hide ListsOk, PagesOk, ApartOk, LiveOk, BlockOk, IsBlock;
    InvShape(v);
    var v' := GiveBlock(v, i, a, mem');
    UseBlock(v, i, a);
    forall j: nat, c: nat | OnPage(v', j, c)
      ensures BlockOk(v', j, c)
    {
      assert OnPage(v, j, c);
      UseBlock(v, j, c);
      if c == a {
        OnePage(v, i, j, a);
      }
      GiveOne(v, i, a, mem', j, c);
    }
  }

  lemma GiveOne(v: View, i: nat, a: nat, mem': map<nat, nat>, j: nat, c: nat)
    requires Shape(v) && OnPage(v, i, a) && OnPage(v, j, c) && OnPage(GiveBlock(v, i, a, mem'), j, c)
    requires BlockOk(v, j, c) && (c == a ==> j == i)
    ensures BlockOk(GiveBlock(v, i, a, mem'), j, c)
  {
    hide IsBlock, Size;
    var v' := GiveBlock(v, i, a, mem');
    if j == i {
      assert v'.free[i] == [a - v.refs[i].page] + v.free[i];
    } else {
      assert v'.free[j] == v.free[j];
    }
  }

  // ----- a fresh page of blocks

  /** What alloc_kpages promises: n whole pages nobody else has. */
  ghost predicate FreshPages(v: View, a: nat, n: nat)
  {
    && a > 0 && a % PAGE_SIZE == 0 && n >= 1
    && (forall i :: 0 <= i < |v.inuse| && i < |v.refs| && v.inuse[i] ==>
          Apart(v.refs[i].page, PAGE_SIZE, a, n * PAGE_SIZE))
    && (forall c :: c in v.big ==> Apart(c, v.big[c] * PAGE_SIZE, a, n * PAGE_SIZE))
  }

  function AddPage(v: View, i: nat, b: nat, page: nat, mem': map<nat, nat>): View
    requires b < NSIZES && |v.sizebases| == |v.sizeLists| == NSIZES
    requires i < |v.inuse| == |v.nextSame| == |v.nextAll| == |v.refs| == |v.free|
  {
    v.(inuse := v.inuse[i := true],
       nextSame := v.nextSame[i := v.sizebases[b]],
       nextAll := v.nextAll[i := v.allbase],
       refs := v.refs[i := PageRef(page, b, (NBlocks(b) - 1) * Size(b), NBlocks(b))],
       sizebases := v.sizebases[b := Ref(i)],
       allbase := Ref(i),
       sizeLists := v.sizeLists[b := [i] + v.sizeLists[b]],
       allList := [i] + v.allList,
       free := v.free[i := FullList(b, NBlocks(b))],
       mem := mem')
  }

  lemma AddKeeps(v: View, i: nat, b: nat, page: nat, mem': map<nat, nat>)
    requires Inv(v) && i < NPAGEREFS && i < |v.inuse| && !v.inuse[i] && b < NSIZES && FreshPages(v, page, 1)
    requires WritesOnly(v.mem, mem', page, PAGE_SIZE) && FreeChain(mem', page, FullList(b, NBlocks(b)))
    ensures Shape(v) && Inv(AddPage(v, i, b, page, mem'))
  {
    hide ListsOk, PagesOk, ApartOk, LiveOk, FreshPages, WritesOnly, FreeChain;
    InvShape(v);
    AddLists(v, i, b, page, mem');
    AddPages(v, i, b, page, mem');
    AddApart(v, i, b, page, mem');
    AddLive(v, i, b, page, mem');
  }

  lemma AddLists(v: View, i: nat, b: nat, page: nat, mem': map<nat, nat>)
    requires ListsOk(v) && i < NPAGEREFS && !v.inuse[i] && b < NSIZES
    ensures ListsOk(AddPage(v, i, b, page, mem'))
  {
    hide AllListOk, SizeListOk;
    var v' := AddPage(v, i, b, page, mem');
    AddAllList(v, i, b, page, mem');
    forall c | 0 <= c < NSIZES
      ensures SizeListOk(v', c)
    {
      AddSizeList(v, i, b, page, mem', c);
    }
  }

  lemma AddAllList(v: View, i: nat, b: nat, page: nat, mem': map<nat, nat>)
    requires Shape(v) && AllListOk(v) && i < NPAGEREFS && !v.inuse[i] && b < NSIZES
    ensures AllListOk(AddPage(v, i, b, page, mem'))
  {
    var v' := AddPage(v, i, b, page, mem');
    ChainPush(v.nextAll, v.allbase, v.allList, i);
    DistinctPush(v.allList, i);
    hide Chain, Distinct;
    forall j | 0 <= j < NPAGEREFS
      ensures j in v'.allList <==> v'.inuse[j]
    {
      assert j in v.allList <==> v.inuse[j];
    }
  }

  lemma AddSizeList(v: View, i: nat, b: nat, page: nat, mem': map<nat, nat>, c: nat)
    requires Shape(v) && b < NSIZES && c < NSIZES && SizeListOk(v, c) && i < NPAGEREFS && !v.inuse[i]
    ensures SizeListOk(AddPage(v, i, b, page, mem'), c)
  {
    var v' := AddPage(v, i, b, page, mem');
    if c == b {
      ChainPush(v.nextSame, v.sizebases[b], v.sizeLists[b], i);
      DistinctPush(v.sizeLists[b], i);
    } else {
      ChainElsewhere(v.nextSame, v.sizebases[c], v.sizeLists[c], i, v.sizebases[b]);
    }
    hide Chain, Distinct;
    forall j | 0 <= j < NPAGEREFS
      ensures j in v'.sizeLists[c] <==> v'.inuse[j] && v'.refs[j].blk == c
    {
      assert j in v.sizeLists[c] <==> v.inuse[j] && v.refs[j].blk == c;
    }
  }

  lemma DistinctPush(list: seq<nat>, i: nat)
    requires Distinct(list) && i !in list
    ensures Distinct([i] + list)
  {
  }

  lemma ChainElsewhere(next: seq<Link>, head: Link, list: seq<nat>, i: nat, l: Link)
    requires Chain(next, head, list) && i < |next| && i !in list
    ensures Chain(next[i := l], head, list)
  {
  }

  lemma AddPages(v: View, i: nat, b: nat, page: nat, mem': map<nat, nat>)
    requires PagesOk(v) && i < NPAGEREFS && !v.inuse[i] && b < NSIZES && FreshPages(v, page, 1)
    requires WritesOnly(v.mem, mem', page, PAGE_SIZE) && FreeChain(mem', page, FullList(b, NBlocks(b)))
    ensures PagesOk(AddPage(v, i, b, page, mem'))
  {
    var v' := AddPage(v, i, b, page, mem');
    FullPage(b, page, mem');
    forall j | 0 <= j < NPAGEREFS && v'.inuse[j]
      ensures PageOk(v'.mem, v'.refs[j], v'.free[j])
    {
      if j != i {
        OtherPageKept(v, j, page, mem');
      }
    }
  }

  lemma FullPage(b: nat, page: nat, mem': map<nat, nat>)
    requires b < NSIZES && page > 0 && page % PAGE_SIZE == 0
    requires FreeChain(mem', page, FullList(b, NBlocks(b)))
    ensures PageOk(mem', PageRef(page, b, (NBlocks(b) - 1) * Size(b), NBlocks(b)), FullList(b, NBlocks(b)))
  {
    FullListOk(b);
    FullListAt(b, NBlocks(b), 0);
  }

  lemma OtherPageKept(v: View, j: nat, page: nat, mem': map<nat, nat>)
    requires PagesOk(v) && j < NPAGEREFS && v.inuse[j] && FreshPages(v, page, 1)
    requires WritesOnly(v.mem, mem', page, PAGE_SIZE)
    ensures PageOk(mem', v.refs[j], v.free[j])
  {
    var pr, fl := v.refs[j], v.free[j];
    assert PageOk(v.mem, pr, fl);
    assert Apart(pr.page, PAGE_SIZE, page, PAGE_SIZE);
    forall k | 0 <= k < |fl|
      ensures !(page <= pr.page + fl[k] < page + PAGE_SIZE)
    {
      assert IsBlock(pr.blk, fl[k]);
    }
    FreeChainKept(v.mem, mem', page, PAGE_SIZE, pr, fl);
  }

  lemma AddApart(v: View, i: nat, b: nat, page: nat, mem': map<nat, nat>)
    requires ApartOk(v) && i < NPAGEREFS && !v.inuse[i] && b < NSIZES && FreshPages(v, page, 1)
    ensures ApartOk(AddPage(v, i, b, page, mem'))
  {
    var v' := AddPage(v, i, b, page, mem');
    forall j, k | 0 <= j < k < NPAGEREFS && v'.inuse[j] && v'.inuse[k]
      ensures v'.refs[j].page != v'.refs[k].page
    {
      assert k == i ==> Apart(v.refs[j].page, PAGE_SIZE, page, PAGE_SIZE);
      assert j == i ==> Apart(v.refs[k].page, PAGE_SIZE, page, PAGE_SIZE);
    }
    forall j, a | 0 <= j < NPAGEREFS && v'.inuse[j] && a in v'.big
      ensures Apart(v'.refs[j].page, PAGE_SIZE, a, v'.big[a] * PAGE_SIZE)
    {
      assert Apart(a, v.big[a] * PAGE_SIZE, page, PAGE_SIZE);
    }
  }

  lemma AddLive(v: View, i: nat, b: nat, page: nat, mem': map<nat, nat>)
    requires Inv(v) && i < NPAGEREFS && i < |v.inuse| && !v.inuse[i] && b < NSIZES && FreshPages(v, page, 1)
    ensures Shape(v) && LiveOk(AddPage(v, i, b, page, mem'))
  {
    hide ListsOk, PagesOk, ApartOk, Partitioned, IsBlock, FreshPages;
    InvShape(v);
    var v' := AddPage(v, i, b, page, mem');
    assert Partitioned(v') by {
      AddPartitioned(v, i, b, page, mem');
    }
    forall a | a in v'.live
      ensures a in v'.big || exists j: nat :: OnPage(v', j, a)
    {
      if a !in v.big {
        var j: nat :| OnPage(v, j, a);
        assert OnPage(v', j, a);
      }
    }
  }

  lemma AddPartitioned(v: View, i: nat, b: nat, page: nat, mem': map<nat, nat>)
    requires Inv(v) && i < NPAGEREFS && i < |v.inuse| && !v.inuse[i] && b < NSIZES && FreshPages(v, page, 1)
    ensures Shape(v) && Partitioned(AddPage(v, i, b, page, mem'))
  {
    hide ListsOk, PagesOk, ApartOk, LiveOk, IsBlock, FreshPages, FullList;
    InvShape(v);
    var v' := AddPage(v, i, b, page, mem');
    FullListOk(b);
    forall j: nat, a: nat | OnPage(v', j, a)
      ensures BlockOk(v', j, a)
    {
      if j == i {
        NothingLive(v, page, b, a);
      } else {
        assert OnPage(v, j, a);
        UseBlock(v, j, a);
      }
    }
  }

  /** Nothing on a fresh page is live. */
  lemma NothingLive(v: View, page: nat, b: nat, a: nat)
    requires Inv(v) && b < NSIZES && FreshPages(v, page, 1) && page <= a && IsBlock(b, a - page)
    ensures a !in v.live
  {
    assert a !in v.big by {
      if a in v.big {
        BigOutside(v, page, a);
      }
    }
    if a in v.live {
      var j: nat :| OnPage(v, j, a);
      PageOutside(v, page, j, a);
      assert false;
    }
  }

  lemma BigOutside(v: View, page: nat, a: nat)
    requires ApartOk(v) && FreshPages(v, page, 1) && a in v.big
    ensures !(page <= a < page + PAGE_SIZE)
  {
    assert Apart(a, v.big[a] * PAGE_SIZE, page, PAGE_SIZE);
    assert v.big[a] >= 1;
  }

  lemma PageOutside(v: View, page: nat, j: nat, a: nat)
    requires FreshPages(v, page, 1) && OnPage(v, j, a)
    ensures !(page <= a < page + PAGE_SIZE)
  {
    assert Apart(v.refs[j].page, PAGE_SIZE, page, PAGE_SIZE);
  }

  // ----- giving a page back

  /** remove_lists and freepageref; k and m are the record's places on its lists. */
  function DropPage(v: View, i: nat, nextSame: seq<Link>, sizebase: Link, k: nat,
                    nextAll: seq<Link>, allbase: Link, m: nat): View
    requires i < |v.inuse| == |v.refs| && v.refs[i].blk < NSIZES == |v.sizebases| == |v.sizeLists|
    requires k < |v.sizeLists[v.refs[i].blk]| && m < |v.allList|
  {
    var b := v.refs[i].blk;
    v.(inuse := v.inuse[i := false],
       nextSame := nextSame,
       nextAll := nextAll,
       sizebases := v.sizebases[b := sizebase],
       allbase := allbase,
       sizeLists := v.sizeLists[b := Without(v.sizeLists[b], k)],
       allList := Without(v.allList, m))
  }

  /** The links after unlinking the element at k. */
  predicate Unlinked(next: seq<Link>, head: Link, list: seq<nat>, k: nat, next': seq<Link>, head': Link)
    requires k < |list| && list[k] < |next|
  {
    if k == 0 then next' == next && head' == next[list[0]]
    else list[k - 1] < |next| && next' == next[list[k - 1] := next[list[k]]] && head' == head
  }

  ghost predicate Droppable(v: View, i: nat, nextSame: seq<Link>, sizebase: Link, k: nat,
                            nextAll: seq<Link>, allbase: Link, m: nat)
    requires Shape(v)
  {
    && i < NPAGEREFS && v.inuse[i] && v.refs[i].blk < NSIZES
    && (var list := v.sizeLists[v.refs[i].blk];
        k < |list| && list[k] == i && |v.nextSame| > i &&
        Unlinked(v.nextSame, v.sizebases[v.refs[i].blk], list, k, nextSame, sizebase))
    && m < |v.allList| && v.allList[m] == i
    && Unlinked(v.nextAll, v.allbase, v.allList, m, nextAll, allbase)
  }

  lemma DropKeeps(v: View, i: nat, nextSame: seq<Link>, sizebase: Link, k: nat,
                  nextAll: seq<Link>, allbase: Link, m: nat)
    requires Inv(v) && Shape(v) && Droppable(v, i, nextSame, sizebase, k, nextAll, allbase, m)
    requires v.refs[i].nfree == NBlocks(v.refs[i].blk)
    ensures Inv(DropPage(v, i, nextSame, sizebase, k, nextAll, allbase, m))
  {
    hide PagesOk, ApartOk, LiveOk;
    var v' := DropPage(v, i, nextSame, sizebase, k, nextAll, allbase, m);
    DropLists(v, i, nextSame, sizebase, k, nextAll, allbase, m);
    hide ListsOk, Droppable;
    DropRest(v, v', i);
  }

  lemma DropLists(v: View, i: nat, nextSame: seq<Link>, sizebase: Link, k: nat,
                  nextAll: seq<Link>, allbase: Link, m: nat)
    requires ListsOk(v) && Droppable(v, i, nextSame, sizebase, k, nextAll, allbase, m)
    ensures ListsOk(DropPage(v, i, nextSame, sizebase, k, nextAll, allbase, m))
  {
    hide AllListOk, SizeListOk;
    var v' := DropPage(v, i, nextSame, sizebase, k, nextAll, allbase, m);
    DropAllList(v, i, nextSame, sizebase, k, nextAll, allbase, m);
    SameLength(v.nextSame, v.sizebases[v.refs[i].blk], v.sizeLists[v.refs[i].blk], k, nextSame, sizebase);
    assert Shape(v');
    forall c | 0 <= c < NSIZES
      ensures SizeListOk(v', c)
    {
      DropSizeList(v, i, nextSame, sizebase, k, nextAll, allbase, m, c);
    }
  }

  lemma SameLength(next: seq<Link>, head: Link, list: seq<nat>, k: nat, next': seq<Link>, head': Link)
    requires k < |list| && list[k] < |next| && Unlinked(next, head, list, k, next', head')
    ensures |next'| == |next|
  {
  }

  lemma DropAllList(v: View, i: nat, nextSame: seq<Link>, sizebase: Link, k: nat,
                    nextAll: seq<Link>, allbase: Link, m: nat)
    requires Shape(v) && AllListOk(v) && Droppable(v, i, nextSame, sizebase, k, nextAll, allbase, m)
    ensures Shape(DropPage(v, i, nextSame, sizebase, k, nextAll, allbase, m))
    ensures AllListOk(DropPage(v, i, nextSame, sizebase, k, nextAll, allbase, m))
  {
    var v' := DropPage(v, i, nextSame, sizebase, k, nextAll, allbase, m);
    SameLength(v.nextSame, v.sizebases[v.refs[i].blk], v.sizeLists[v.refs[i].blk], k, nextSame, sizebase);
    ChainAfter(v.nextAll, v.allbase, v.allList, m, nextAll, allbase);
    WithoutSet(v.allList, m);
    hide Chain, Distinct, Unlinked;
    forall j | 0 <= j < NPAGEREFS
      ensures j in v'.allList <==> v'.inuse[j]
    {
      assert j in v.allList <==> v.inuse[j];
    }
  }

  lemma DropSizeList(v: View, i: nat, nextSame: seq<Link>, sizebase: Link, k: nat,
                     nextAll: seq<Link>, allbase: Link, m: nat, c: nat)
    requires ListsOk(v) && Droppable(v, i, nextSame, sizebase, k, nextAll, allbase, m) && c < NSIZES
    requires Shape(DropPage(v, i, nextSame, sizebase, k, nextAll, allbase, m))
    ensures SizeListOk(DropPage(v, i, nextSame, sizebase, k, nextAll, allbase, m), c)
  {
    hide AllListOk;
    var v' := DropPage(v, i, nextSame, sizebase, k, nextAll, allbase, m);
    var b := v.refs[i].blk;
    assert SizeListOk(v, c) && SizeListOk(v, b);
    if c == b {
      ChainAfter(v.nextSame, v.sizebases[b], v.sizeLists[b], k, nextSame, sizebase);
      WithoutSet(v.sizeLists[b], k);
    } else if k > 0 {
      var p := v.sizeLists[b][k - 1];
      assert p in v.sizeLists[b] && p < NPAGEREFS;
      assert p !in v.sizeLists[c];
      ChainElsewhere(v.nextSame, v.sizebases[c], v.sizeLists[c], p, v.nextSame[i]);
    }
    hide Chain, Distinct;
    forall j | 0 <= j < NPAGEREFS
      ensures j in v'.sizeLists[c] <==> v'.inuse[j] && v'.refs[j].blk == c
    {
      assert j in v.sizeLists[c] <==> v.inuse[j] && v.refs[j].blk == c;
    }
  }

  lemma ChainAfter(next: seq<Link>, head: Link, list: seq<nat>, k: nat, next': seq<Link>, head': Link)
    requires Chain(next, head, list) && Distinct(list) && k < |list| && list[k] < |next|
    requires Unlinked(next, head, list, k, next', head')
    ensures Chain(next', head', Without(list, k)) && |next'| == |next|
  {
    if k == 0 {
      ChainUnlinkFirst(next, head, list);
    } else {
      ChainUnlink(next, head, list, k);
    }
  }

  /** A page all of whose blocks are free has no live block to lose. */
  lemma DropRest(v: View, v': View, i: nat)
    requires PagesOk(v) && ApartOk(v) && LiveOk(v) && Shape(v) && Shape(v') && i < NPAGEREFS && v.inuse[i]
    requires v.refs[i].blk < NSIZES && v.refs[i].nfree == NBlocks(v.refs[i].blk)
    requires v'.inuse == v.inuse[i := false] && v'.refs == v.refs && v'.free == v.free
    requires v'.mem == v.mem && v'.live == v.live && v'.big == v.big
    ensures PagesOk(v') && ApartOk(v') && LiveOk(v')
  {
    hide PageOk, IsBlock;
    forall j: nat, a: nat | OnPage(v', j, a)
      ensures BlockOk(v', j, a)
    {
      assert OnPage(v, j, a);
      UseBlock(v, j, a);
    }
    forall a | a in v'.live
      ensures a in v'.big || exists j: nat :: OnPage(v', j, a)
    {
      if a !in v.big {
        var j: nat :| OnPage(v, j, a);
        if j == i {
          AllFree(v, i, a);
        }
        assert OnPage(v', j, a);
      }
    }
  }

  /** With as many free blocks as there are blocks, every block is free. */
  lemma AllFree(v: View, i: nat, a: nat)
    requires PagesOk(v) && LiveOk(v) && i < NPAGEREFS && OnPage(v, i, a) && v.refs[i].blk < NSIZES
    requires v.refs[i].nfree == NBlocks(v.refs[i].blk)
    ensures a !in v.live
  {
    UsePage(v, i);
    UseBlock(v, i, a);
    var b, fl, full := v.refs[i].blk, v.free[i], FullList(v.refs[i].blk, NBlocks(v.refs[i].blk));
    FullListOk(b);
    hide IsBlock, PagesOk, LiveOk;
    SameMembers(b, fl, full);
  }

  /** Distinct blocks in full number are all the blocks. */
  lemma SameMembers(b: nat, fl: seq<nat>, full: seq<nat>)
    requires b < NSIZES && Distinct(fl) && Distinct(full) && |fl| == |full|
    requires forall k :: 0 <= k < |fl| ==> IsBlock(b, fl[k])
    requires forall o :: 0 <= o && IsBlock(b, o) ==> o in full
    requires forall k :: 0 <= k < |full| ==> IsBlock(b, full[k])
    ensures forall o :: 0 <= o && IsBlock(b, o) ==> o in fl
  {
    hide IsBlock;
    var s, t := Members(fl), Members(full);
    DistinctSize(fl);
    DistinctSize(full);
    assert s <= t;
    SubsetEqual(s, t);
    forall o | 0 <= o && IsBlock(b, o)
      ensures o in fl
    {
      assert o in t;
    }
  }

  lemma {:induction false} SubsetEqual(s: set<nat>, t: set<nat>)
    requires s <= t && |s| == |t|
    ensures s == t
  {
    if s != t {
      var x :| x in t && x !in s;
      SubsetSize(s, t - {x});
    }
  }

  // ----- whole-page allocations

  lemma AddBigKeeps(v: View, a: nat, n: nat)
    requires Inv(v) && FreshPages(v, a, n)
    ensures Inv(v.(big := v.big[a := n], live := v.live[a := n * PAGE_SIZE]))
    ensures a !in v.live
  {
    hide ListsOk, PagesOk, ApartOk, LiveOk, FreshPages;
    InvShape(v);
    var v' := v.(big := v.big[a := n], live := v.live[a := n * PAGE_SIZE]);
    FreshNotLive(v, a, n);
    ListsKept(v, v');
    PagesSame(v, v');
    AddBigApart(v, a, n);
    AddBigLive(v, a, n);
  }

  lemma PagesSame(v: View, v': View)
    requires PagesOk(v) && v'.mem == v.mem && v'.refs == v.refs && v'.free == v.free && v'.inuse == v.inuse && Shape(v')
    ensures PagesOk(v')
  {
    hide PageOk;
  }

  lemma AddBigApart(v: View, a: nat, n: nat)
    requires ApartOk(v) && FreshPages(v, a, n) && a !in v.big
    ensures ApartOk(v.(big := v.big[a := n], live := v.live[a := n * PAGE_SIZE]))
  {
    hide Apart;
    ApartSymmetric();
  }

  lemma ApartSymmetric()
    ensures forall a: nat, m: nat, c: nat, n: nat :: Apart(a, m, c, n) <==> Apart(c, n, a, m)
  {
  }

  lemma AddBigLive(v: View, a: nat, n: nat)
    requires LiveOk(v) && FreshPages(v, a, n) && a !in v.big && a !in v.live
    ensures LiveOk(v.(big := v.big[a := n], live := v.live[a := n * PAGE_SIZE]))
  {
    hide IsBlock;
    var v' := v.(big := v.big[a := n], live := v.live[a := n * PAGE_SIZE]);
    forall j: nat, c: nat | OnPage(v', j, c)
      ensures BlockOk(v', j, c)
    {
      assert OnPage(v, j, c);
      UseBlock(v, j, c);
      FreshNotOnPage(v, a, n, j);
    }
    hide FreshPages;
    forall c | c in v'.live
      ensures c in v'.big || exists j: nat :: OnPage(v', j, c)
    {
      if c != a && c !in v.big {
        var j: nat :| OnPage(v, j, c);
        assert OnPage(v', j, c);
      }
    }
  }

  lemma FreshNotOnPage(v: View, a: nat, n: nat, j: nat)
    requires FreshPages(v, a, n)
    ensures !OnPage(v, j, a)
  {
  }

  lemma FreshNotLive(v: View, a: nat, n: nat)
    requires Inv(v) && FreshPages(v, a, n)
    ensures a !in v.live && a !in v.big
  {
    FreshNotBig(v, a, n);
    if a in v.live {
      var j: nat :| OnPage(v, j, a);
      FreshNotOnPage(v, a, n, j);
    }
  }

  lemma FreshNotBig(v: View, a: nat, n: nat)
    requires ApartOk(v) && FreshPages(v, a, n)
    ensures a !in v.big
  {
  }

  lemma DropBigKeeps(v: View, a: nat)
    requires Inv(v) && a in v.big
    ensures Inv(v.(big := v.big - {a}, live := v.live - {a}))
  {
    hide ListsOk, PagesOk, ApartOk, LiveOk;
    InvShape(v);
    var v' := v.(big := v.big - {a}, live := v.live - {a});
    ListsKept(v, v');
    PagesSame(v, v');
    DropBigApart(v, a);
    DropBigLive(v, a);
  }

  lemma DropBigApart(v: View, a: nat)
    requires ApartOk(v) && a in v.big
    ensures ApartOk(v.(big := v.big - {a}, live := v.live - {a}))
  {
    hide Apart;
  }

  lemma DropBigLive(v: View, a: nat)
    requires ApartOk(v) && LiveOk(v) && a in v.big
    ensures LiveOk(v.(big := v.big - {a}, live := v.live - {a}))
  {
    hide IsBlock, ApartOk, Partitioned;
    var v' := v.(big := v.big - {a}, live := v.live - {a});
    assert Partitioned(v') by { DropBigPartitioned(v, a); }
    forall c | c in v'.live
      ensures c in v'.big || exists j: nat :: OnPage(v', j, c)
    {
      if c !in v.big {
        var j: nat :| OnPage(v, j, c);
        assert OnPage(v', j, c);
      }
    }
  }

  lemma DropBigPartitioned(v: View, a: nat)
    requires ApartOk(v) && LiveOk(v) && a in v.big
    ensures Partitioned(v.(big := v.big - {a}, live := v.live - {a}))
  {
    hide IsBlock, ApartOk, LiveOk;
    var v' := v.(big := v.big - {a}, live := v.live - {a});
    assert Shape(v') by { LiveShape(v); }
    forall j: nat, c: nat | OnPage(v', j, c)
      ensures BlockOk(v', j, c)
    {
      assert OnPage(v, j, c);
      UseBlock(v, j, c);
      BigNotOnPage(v, a, j);
    }
  }

  lemma LiveShape(v: View)
    requires LiveOk(v)
    ensures Shape(v)
  {
  }

  // ----- every run

  /** One atomic change to the heap, or a client's store into a block it holds. */
  datatype Move =
    | Take(i: nat)
    | Add(i: nat, blk: nat, page: nat, mem: map<nat, nat>)
    | Give(i: nat, a: nat, mem: map<nat, nat>)
    | Drop(i: nat, nextSame: seq<Link>, sizebase: Link, k: nat, nextAll: seq<Link>, allbase: Link, m: nat)
    | AddBig(a: nat, n: nat)
    | DropBig(a: nat)
    | Store(a: nat, mem: map<nat, nat>)

  ghost predicate Makes(v: View, move: Move, v': View)
  {
    Shape(v) &&
    match move
    case Take(i) =>
      i < NPAGEREFS && v.inuse[i] && v.free[i] != [] && v.refs[i].blk < NSIZES && v.refs[i].nfree >= 1 &&
      v' == TakeBlock(v, i)
    case Add(i, b, page, mem') =>
      i < NPAGEREFS && !v.inuse[i] && b < NSIZES && FreshPages(v, page, 1) &&
      WritesOnly(v.mem, mem', page, PAGE_SIZE) && FreeChain(mem', page, FullList(b, NBlocks(b))) &&
      v' == AddPage(v, i, b, page, mem')
    case Give(i, a, mem') =>
      OnPage(v, i, a) && a in v.live && WritesOnly(v.mem, mem', a, v.live[a]) && a in mem' &&
      mem'[a] == (if v.free[i] == [] then 0 else v.refs[i].page + v.free[i][0]) &&
      v' == GiveBlock(v, i, a, mem')
    case Drop(i, nextSame, sizebase, k, nextAll, allbase, m) =>
      Droppable(v, i, nextSame, sizebase, k, nextAll, allbase, m) &&
      v.refs[i].nfree == NBlocks(v.refs[i].blk) &&
      v' == DropPage(v, i, nextSame, sizebase, k, nextAll, allbase, m)
    case AddBig(a, n) => FreshPages(v, a, n) && v' == v.(big := v.big[a := n], live := v.live[a := n * PAGE_SIZE])
    case DropBig(a) => a in v.big && v' == v.(big := v.big - {a}, live := v.live - {a})
    case Store(a, mem') => a in v.live && WritesOnly(v.mem, mem', a, v.live[a]) && v' == v.(mem := mem')
  }

  lemma MoveKeeps(v: View, move: Move, v': View)
    requires Inv(v) && Makes(v, move, v')
    ensures Inv(v')
  {
    hide Inv, FreshPages, WritesOnly, FreeChain, OnPage, Droppable;
    match move
    case Take(i) => TakeKeeps(v, i);
    case Add(i, b, page, mem') => AddKeeps(v, i, b, page, mem');
    case Give(i, a, mem') => GiveKeeps(v, i, a, mem');
    case Drop(i, nextSame, sizebase, k, nextAll, allbase, m) =>
      DropKeeps(v, i, nextSame, sizebase, k, nextAll, allbase, m);
    case AddBig(a, n) => AddBigKeeps(v, a, n);
    case DropBig(a) => DropBigKeeps(v, a);
    case Store(a, mem') => ClientWriteKeeps(v, mem', a, v.live[a]);
  }

  /** The bytes of block a, of size n, are the same in both memories. */
  ghost predicate SameBytes(mem: map<nat, nat>, mem': map<nat, nat>, a: nat, n: nat)
  {
    forall x :: x in mem && a <= x < a + n ==> x in mem' && mem'[x] == mem[x]
  }

  lemma WritesMiss(mem: map<nat, nat>, mem': map<nat, nat>, lo: nat, n: nat, a: nat, m: nat)
    requires WritesOnly(mem, mem', lo, n) && Apart(a, m, lo, n)
    ensures SameBytes(mem, mem', a, m)
  {
  }

  /** Pages nobody has meet no live block. */
  lemma FreshMissesLive(v: View, p: nat, n: nat, a: nat)
    requires Inv(v) && FreshPages(v, p, n) && a in v.live
    ensures Apart(a, v.live[a], p, n * PAGE_SIZE)
  {
    hide ListsOk, PagesOk, ApartOk, Partitioned, Size, IsBlock;
    if a !in v.big {
      var i: nat :| OnPage(v, i, a);
      UseBlock(v, i, a);
      hide Covered;
      BlockInPage(v.refs[i].blk, a - v.refs[i].page);
    }
  }

  /** A move changes no byte of a block that is live before and after it, unless it is
      the client's own store into that block. */
  lemma MoveSparesBlocks(v: View, move: Move, v': View, a: nat)
    requires Inv(v) && Makes(v, move, v') && a in v.live && a in v'.live && !(move.Store? && move.a == a)
    ensures v'.live[a] == v.live[a] && SameBytes(v.mem, v'.mem, a, v.live[a])
  {
    hide Inv, FreshPages, FreeChain, OnPage, Droppable, Size;
    match move
    case Take(i) => TakenWasFree(v, i);
    case Add(i, b, page, mem') =>
      FreshMissesLive(v, page, 1, a);
      WritesMiss(v.mem, mem', page, PAGE_SIZE, a, v.live[a]);
    case Give(i, c, mem') =>
      NonOverlap(v, a, c);
      WritesMiss(v.mem, mem', c, v.live[c], a, v.live[a]);
    case Drop(i, nextSame, sizebase, k, nextAll, allbase, m) =>
    case AddBig(c, n) => FreshNotLive(v, c, n);
    case DropBig(c) =>
    case Store(c, mem') =>
      NonOverlap(v, a, c);
      WritesMiss(v.mem, mem', c, v.live[c], a, v.live[a]);
  }

  lemma TakenWasFree(v: View, i: nat)
    requires Inv(v) && i < |v.inuse| && v.inuse[i] && i < |v.free| && i < |v.refs| && v.free[i] != [] && v.refs[i].blk < NSIZES
    ensures v.refs[i].page + v.free[i][0] !in v.live
  {
    hide ListsOk, PagesOk, ApartOk, LiveOk, Size, IsBlock;
    InvShape(v);
    FreeIsOnPage(v, i, v.free[i][0]);
    UseBlock(v, i, v.refs[i].page + v.free[i][0]);
  }

  ghost predicate IsRun(run: seq<View>, moves: seq<Move>)
  {
    && |run| == |moves| + 1
    && (forall i :: 0 <= i < |moves| ==> Makes(run[i], moves[i], run[i + 1]))
  }

  /** The heap before its first use: static storage is zero. */
  function EmptyHeap(): View
  {
    View(seq(NPAGEREFS, _ => false), seq(NPAGEREFS, _ => Null), seq(NPAGEREFS, _ => Null),
         seq(NPAGEREFS, _ => PageRef(0, 0, 0, 0)), seq(NSIZES, _ => Null), Null, map[],
         seq(NSIZES, _ => []), [], seq(NPAGEREFS, _ => []), map[], map[])
  }

  lemma EmptyHeapOk()
    ensures Inv(EmptyHeap())
  {
  }

  /** From the first use on, over every sequence of allocations, frees and client stores,
      live blocks never overlap. */
  lemma RunsFromEmpty(run: seq<View>, moves: seq<Move>, i: nat)
    requires IsRun(run, moves) && run[0] == EmptyHeap() && i <= |moves|
    ensures Inv(run[i])
    ensures forall a, c :: a in run[i].live && c in run[i].live && a != c ==>
      Apart(a, run[i].live[a], c, run[i].live[c])
  {
    hide Inv, Makes;
    EmptyHeapOk();
    RunsNonOverlap(run, moves, i);
  }

  /** Over every sequence of allocations, frees and client stores, in any
      interleaving of their critical sections, live blocks never overlap. */
  lemma {:induction false} RunsNonOverlap(run: seq<View>, moves: seq<Move>, i: nat)
    requires IsRun(run, moves) && Inv(run[0]) && i <= |moves|
    ensures Inv(run[i])
    ensures forall a, c :: a in run[i].live && c in run[i].live && a != c ==>
      Apart(a, run[i].live[a], c, run[i].live[c])
  {
    hide Inv, Makes;
    if i > 0 {
      RunsNonOverlap(run, moves, i - 1);
      MoveKeeps(run[i - 1], moves[i - 1], run[i]);
    }
    forall a, c | a in run[i].live && c in run[i].live && a != c
      ensures Apart(a, run[i].live[a], c, run[i].live[c])
    {
      NonOverlap(run[i], a, c);
    }
  }
}
