/** The kernel heap's data: page records on two linked lists, and in every page
    a free list threaded through the first word of its free blocks. */
module HeapPages {
  import Digits
  import opened Extents

  const NSIZES := 8
  const NPAGEREFS := 256
  const INVALID_OFFSET := 0xffff

  /** sizes[] */
  function Size(b: nat): (s: nat)
    requires b < NSIZES
    ensures 16 <= s <= 2048 && s % 16 == 0 && PAGE_SIZE % s == 0
  {
    [16, 32, 64, 128, 256, 512, 1024, 2048][b]
  }

  /** The sizes are the powers of two from 16 bytes to half a page. */
  lemma SizesDouble(b: nat)
    requires b < NSIZES
    ensures Size(0) == 16 && 2 * Size(NSIZES - 1) == PAGE_SIZE
    ensures b > 0 ==> Size(b) == 2 * Size(b - 1)
  {
  }

  /** The number of blocks of a page. */
  function NBlocks(b: nat): (n: nat)
    requires b < NSIZES
    ensures n * Size(b) == PAGE_SIZE && 2 <= n <= 256
  {
    PAGE_SIZE / Size(b)
  }

  datatype Link = Null | Ref(index: nat)

  datatype PageRef = PageRef(page: nat, blk: nat, offset: nat, nfree: nat)

  /** Everything kmalloc keeps, with the lists its links spell out and what
      the clients hold: live maps an address to its size, big an address to
      its number of pages. */
  datatype View = View(
    inuse: seq<bool>,
    nextSame: seq<Link>,
    nextAll: seq<Link>,
    refs: seq<PageRef>,
    sizebases: seq<Link>,
    allbase: Link,
    mem: map<nat, nat>,
    sizeLists: seq<seq<nat>>,
    allList: seq<nat>,
    free: seq<seq<nat>>,
    live: map<nat, nat>,
    big: map<nat, nat>)

  // ----- linked lists

  predicate Distinct(list: seq<nat>)
  {
    forall i, j :: 0 <= i < j < |list| ==> list[i] != list[j]
  }

  function LinkAt(list: seq<nat>, k: nat): Link
  {
    if k < |list| then Ref(list[k]) else Null
  }

  /** The links from head spell out the list. */
  predicate Chain(next: seq<Link>, head: Link, list: seq<nat>)
  {
    && head == LinkAt(list, 0)
    && (forall k :: 0 <= k < |list| ==> list[k] < |next| && next[list[k]] == LinkAt(list, k + 1))
  }

  lemma ChainPush(next: seq<Link>, head: Link, list: seq<nat>, i: nat)
    requires Chain(next, head, list) && i < |next| && i !in list
    ensures Chain(next[i := head], Ref(i), [i] + list)
  {
    var next', list' := next[i := head], [i] + list;
    forall k | 0 <= k < |list'|
      ensures list'[k] < |next'| && next'[list'[k]] == LinkAt(list', k + 1)
    {
      if k > 0 {
        assert list'[k] == list[k - 1];
      }
    }
  }

  /** A list without its element at k. */
  function Without(list: seq<nat>, k: nat): seq<nat>
    requires k < |list|
  {
    list[..k] + list[k + 1..]
  }

  lemma ChainUnlinkFirst(next: seq<Link>, head: Link, list: seq<nat>)
    requires Chain(next, head, list) && list != []
    ensures Chain(next, next[list[0]], Without(list, 0))
  {
    var list' := Without(list, 0);
    forall j | 0 <= j < |list'|
      ensures list'[j] < |next| && next[list'[j]] == LinkAt(list', j + 1)
    {
      assert list'[j] == list[j + 1];
    }
  }

  lemma ChainUnlink(next: seq<Link>, head: Link, list: seq<nat>, k: nat)
    requires Chain(next, head, list) && Distinct(list) && 0 < k < |list|
    ensures Chain(next[list[k - 1] := next[list[k]]], head, Without(list, k))
  {
    var list' := Without(list, k);
    var next' := next[list[k - 1] := next[list[k]]];
    WithoutAt(list, k);
    hide Without;
    forall j | 0 <= j < |list'|
      ensures list'[j] < |next'| && next'[list'[j]] == LinkAt(list', j + 1)
    {
      assert j < k - 1 ==> list[j] != list[k - 1];
      assert j > k - 1 ==> list[k - 1] != list[j + 1];
      assert LinkAt(list', j + 1) == if j + 1 < k then LinkAt(list, j + 1) else LinkAt(list, j + 2);
    }
  }

  lemma WithoutAt(list: seq<nat>, k: nat)
    requires k < |list|
    ensures |Without(list, k)| == |list| - 1
    ensures forall j :: 0 <= j < |list| - 1 ==> Without(list, k)[j] == if j < k then list[j] else list[j + 1]
  {
  }

  lemma WithoutSet(list: seq<nat>, k: nat)
    requires Distinct(list) && k < |list|
    ensures Distinct(Without(list, k))
    ensures forall x :: x in Without(list, k) <==> x in list && x != list[k]
  {
    var list' := Without(list, k);
    forall x | x in list && x != list[k]
      ensures x in list'
    {
      var i :| 0 <= i < |list| && list[i] == x;
      assert list'[if i < k then i else i - 1] == x;
    }
  }

  // ----- one page

  predicate IsBlock(b: nat, o: nat)
    requires b < NSIZES
  {
    o % Size(b) == 0 && o < PAGE_SIZE
  }

  /** The words at the free blocks link them up, ending in NULL. */
  predicate FreeChain(mem: map<nat, nat>, page: nat, fl: seq<nat>)
  {
    forall k :: 0 <= k < |fl| ==>
      page + fl[k] in mem && mem[page + fl[k]] == (if k + 1 < |fl| then page + fl[k + 1] else 0)
  }

  predicate PageOk(mem: map<nat, nat>, pr: PageRef, fl: seq<nat>)
  {
    && pr.blk < NSIZES && pr.page > 0 && pr.page % PAGE_SIZE == 0
    && pr.nfree == |fl| && Distinct(fl)
    && (forall k :: 0 <= k < |fl| ==> IsBlock(pr.blk, fl[k]))
    && pr.offset == (if fl == [] then INVALID_OFFSET else fl[0])
    && FreeChain(mem, pr.page, fl)
  }

  /** The free list of a page no block of which is in use: last block first. */
  function FullList(b: nat, n: nat): (fl: seq<nat>)
    requires b < NSIZES
    ensures |fl| == n
  {
    if n == 0 then [] else [(n - 1) * Size(b)] + FullList(b, n - 1)
  }

  lemma {:induction false} FullListAt(b: nat, n: nat, k: nat)
    requires b < NSIZES && k < n
    ensures FullList(b, n)[k] == (n - 1 - k) * Size(b)
  {
    if k > 0 {
      FullListAt(b, n - 1, k - 1);
    }
  }

  /** Blocks of one size overlap only if they are the same. */
  lemma BlocksApart(s: nat, x: nat, y: nat)
    requires s >= 1 && x % s == 0 && y % s == 0 && x < y
    ensures x + s <= y
  {
    var i, j := x / s, y / s;
    assert x == i * s && y == j * s;
    Digits.MulLess(i, j, s);
    Digits.MulStrict(i, j, s);
  }

  lemma FullListOk(b: nat)
    requires b < NSIZES
    ensures var fl := FullList(b, NBlocks(b));
            Distinct(fl) && (forall k :: 0 <= k < |fl| ==> IsBlock(b, fl[k])) &&
            (forall o :: 0 <= o && IsBlock(b, o) ==> o in fl)
  {
    hide Size, NBlocks, FullList, IsBlock;
    var n, fl := NBlocks(b), FullList(b, NBlocks(b));
    forall k | 0 <= k < n
      ensures IsBlock(b, fl[k])
    {
      FullListBlock(b, k);
    }
    forall i, j | 0 <= i < j < n
      ensures fl[i] != fl[j]
    {
      FullListApart(b, n, i, j);
    }
    forall o | 0 <= o && IsBlock(b, o)
      ensures o in fl
    {
      FullListHas(b, o);
    }
  }

  lemma FullListBlock(b: nat, k: nat)
    requires b < NSIZES && k < NBlocks(b)
    ensures IsBlock(b, FullList(b, NBlocks(b))[k])
  {
    hide Size, NBlocks, FullList;
    FullListAt(b, NBlocks(b), k);
    BlockIndex(Size(b), NBlocks(b), NBlocks(b) - 1 - k);
  }

  lemma FullListApart(b: nat, n: nat, i: nat, j: nat)
    requires b < NSIZES && i < j < n
    ensures FullList(b, n)[i] != FullList(b, n)[j]
  {
    hide Size, FullList;
    FullListAt(b, n, i);
    FullListAt(b, n, j);
    Digits.MulStrict(n - 1 - j, n - 1 - i, Size(b));
  }

  lemma FullListHas(b: nat, o: nat)
    requires b < NSIZES && IsBlock(b, o)
    ensures o in FullList(b, NBlocks(b))
  {
    hide Size, NBlocks, FullList;
    var n, q := NBlocks(b), o / Size(b);
    assert o == q * Size(b);
    Digits.MulLess(q, n, Size(b));
    FullListAt(b, n, n - 1 - q);
    assert FullList(b, n)[n - 1 - q] == o;
  }

  lemma BlockIndex(s: nat, n: nat, q: nat)
    requires s >= 1 && q < n
    ensures q * s % s == 0 && q * s < n * s
  {
    Digits.MulStrict(q, n, s);
    Digits.DivModUnique(q * s, s, q, 0);
  }
}
