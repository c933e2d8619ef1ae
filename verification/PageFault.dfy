/** vm_fault: the mapping a fault installs, and the stack page it may add. */
module PageFault {
  import opened Extents
  import opened PageTables
  import opened Coremap
  import opened AddressSpace
  import opened AddressCopy

  const USERSTACK := 0x8000_0000
  const STACK_BASE := 0x7ff0_0000

  datatype FaultType = ReadOnly | Read | Write | Unknown

  datatype Errno = EFAULT | ENOMEM | EINVAL

  datatype Outcome = Installed(paddr: nat) | Failed(errno: Errno)

  /** The address of the page that holds an address. */
  function PageOf(a: nat): (v: nat)
    ensures v % PAGE_SIZE == 0 && v <= a < v + PAGE_SIZE
  {
    a - a % PAGE_SIZE
  }

  function ZeroPage(): (p: Page)
    ensures |p| == PAGE_SIZE && forall i :: 0 <= i < |p| ==> p[i] == 0
  {
    seq(PAGE_SIZE, _ => 0)
  }

  /** An entry can be added without loss: the last table has room, or `end` is the last. */
  ghost predicate AddsSafely(space: AddrSpace)
    requires space.Valid()
    reads space, space.tables
  {
    space.tables[|space.tables| - 1].count < TABLE_SIZE || space.endAt == |space.tables| - 1
  }

  /** vm_fault up to the TLB write. A mapping that is there is installed when its flags
      allow the access. A write to an unmapped stack page takes a free page, clears it
      and maps it, so that from then on the lookup finds it; every other mapping stays if
      and only if an entry could be added without loss. */
  method VmFault(kind: FaultType, address: nat, space: AddrSpace, vstart: nat, mem: Memory, memory: seq<PageEntry>)
    returns (r: Outcome, ghost k: nat)
    requires space.Valid() && mem.frames.Valid() && |memory| == TABLE_SIZE
    modifies space, space.Nodes(), mem`pages, mem.frames`chunks, mem.frames.entries
    ensures space.Valid() && mem.frames.Valid()
    ensures var v := PageOf(address);
            var m := FirstMatch(old(space.Entries()), v);
            && (v < vstart || v >= USERSTACK ==> r == Failed(EFAULT))
            && (vstart <= v < USERSTACK && kind == ReadOnly ==> r == Failed(EFAULT))
            && (vstart <= v < USERSTACK && kind == Unknown ==> r == Failed(EINVAL))
            && (vstart <= v < USERSTACK && kind == Read ==>
                  r == if m.Found? then Installed(m.entry.paddr) else Failed(EFAULT))
            && (vstart <= v < USERSTACK && kind == Write && m.Found? ==>
                  r == if m.entry.write then Installed(m.entry.paddr) else Failed(EFAULT))
            && (vstart <= v < STACK_BASE && kind == Write && m == NoMatch ==> r == Failed(EFAULT))
    ensures var v := PageOf(address);
            var m := FirstMatch(old(space.Entries()), v);
            if kind == Write && m == NoMatch && vstart <= v && STACK_BASE <= v < USERSTACK
               && !Exhausted(old(mem.frames.entries[..]))
            then
              && r == Installed(mem.frames.AddressOf(k)) && k !in old(mem.frames.chunks)
              && mem.frames.chunks == old(mem.frames.chunks)[k := Chunk(1, false)]
              && mem.pages == old(mem.pages)[r.paddr := ZeroPage()]
              && (space.Entries() == old(space.Entries()) + [PageEntry(v, r.paddr, true, true, false)] <==>
                    old(AddsSafely(space)))
              && FirstMatch(space.Entries(), v) == Found(PageEntry(v, r.paddr, true, true, false))
            else
              && (kind == Write && m == NoMatch && vstart <= v && STACK_BASE <= v < USERSTACK ==> r == Failed(ENOMEM))
              && space.Entries() == old(space.Entries()) && mem.pages == old(mem.pages)
              && mem.frames.chunks == old(mem.frames.chunks)
  {
    hide Tiled, FreeRun, Flat, FirstMatch, Linked, Sound, View;
    k := 0;
    var v := PageOf(address);
    if v >= USERSTACK || v < vstart {
      return Failed(EFAULT), k;
    }
    var found := space.Lookup(v);
    match kind
    case ReadOnly =>
      return Failed(EFAULT), k;
    case Read =>
      if found != NoMatch {
        return Installed(found.entry.paddr), k;
      }
      return Failed(EFAULT), k;
    case Write =>
      if found != NoMatch {
        if !found.entry.write {
          return Failed(EFAULT), k;
        }
        return Installed(found.entry.paddr), k;
      } else if STACK_BASE <= v < USERSTACK {
        r, k := GrowStack(v, space, mem, memory);
        return r, k;
      }
      return Failed(EFAULT), k;
    case Unknown =>
      return Failed(EINVAL), k;
  }

  method GrowStack(v: nat, space: AddrSpace, mem: Memory, memory: seq<PageEntry>) returns (r: Outcome, ghost k: nat)
    requires space.Valid() && mem.frames.Valid() && |memory| == TABLE_SIZE
    requires FirstMatch(space.Entries(), v) == NoMatch
    modifies space, space.Nodes(), mem`pages, mem.frames`chunks, mem.frames.entries
    ensures space.Valid() && mem.frames.Valid()
    ensures r == Failed(ENOMEM) <==> Exhausted(old(mem.frames.entries[..]))
    ensures r != Failed(ENOMEM) ==>
      && r == Installed(mem.frames.AddressOf(k)) && k !in old(mem.frames.chunks)
      && mem.frames.chunks == old(mem.frames.chunks)[k := Chunk(1, false)]
      && mem.pages == old(mem.pages)[r.paddr := ZeroPage()]
      && FirstMatch(space.Entries(), v) == Found(PageEntry(v, r.paddr, true, true, false))
      && (space.Entries() == old(space.Entries()) + [PageEntry(v, r.paddr, true, true, false)] <==> old(AddsSafely(space)))
    ensures r == Failed(ENOMEM) ==>
      space.Entries() == old(space.Entries()) && mem.pages == old(mem.pages) && mem.frames.chunks == old(mem.frames.chunks)
  {
    hide Tiled, FreeRun, Flat, FirstMatch, Linked, Sound, View;
    var paddr;
    paddr, k := mem.frames.Alloc(1, false);
    if paddr == 0 {
      return Failed(ENOMEM), k;
    }
    ghost var view, kept := View(space.tables), space.Kept();
    var e := PageEntry(v, paddr, true, true, false);
    space.AddPageEntry(e, memory);
    AddedIsFound(view, kept, e);
    mem.pages := mem.pages[paddr := ZeroPage()];
    r := Installed(paddr);
  }

  /** An entry added for an address that no table maps is what a scan then finds. */
  lemma AddedIsFound(view: seq<seq<PageEntry>>, kept: nat, e: PageEntry)
    requires kept <= |view| && FirstMatch(Flat(view), e.vaddr) == NoMatch
    ensures FirstMatch(Flat(view[..kept]) + [e], e.vaddr) == Found(e)
  {
    hide Flat;
    assert view == view[..kept] + view[kept..];
    FlatConcat(view[..kept], view[kept..]);
    MatchConcat(Flat(view[..kept]), Flat(view[kept..]), e.vaddr);
    MatchConcat(Flat(view[..kept]), [e], e.vaddr);
  }
}
