/** Open files: every thread has a table of pointers to reference-counted handles.
    A null pointer is 0. The tables of all threads, by thread number, are `rows`. */
module FileHandles {
  import opened Counting

  const OPEN_MAX := 128

  datatype Handle = Handle(references: int, file: nat, flags: int, offset: nat)

  datatype Errno = EBADF | ENFILE | ENOMEM | Vfs(code: nat)

  datatype Result = Ok(value: nat) | Err(errno: Errno)

  /** What one step of init_filetable meets: the outcome of vfs_open, the handle kmalloc
      gives (0 for none) and whether lock_create succeeds. */
  datatype Console = Console(vfs: Result, handle: nat, lockOk: bool) {
    predicate Succeeds() {
      vfs.Ok? && handle != 0 && lockOk
    }
  }

  /** vfs_open's own error, or ENOMEM when it succeeded. */
  function Reported(vfs: Result): (r: Result)
    ensures r.Err? && (vfs.Err? ==> r == vfs) && (vfs.Ok? ==> r.errno == ENOMEM)
  {
    if vfs.Err? then vfs else Err(ENOMEM)
  }

  predicate FirstFailing(steps: seq<Console>, k: nat)
    requires k < |steps|
  {
    !steps[k].Succeeds() && forall i :: 0 <= i < k ==> steps[i].Succeeds()
  }

  predicate Separate(c: Console, d: Console) {
    && (c.handle != 0 ==> c.handle != d.handle)
    && (c.vfs.Ok? && d.vfs.Ok? ==> c.vfs.value != d.vfs.value)
  }

  /** The number of table slots, of all threads, that point to h. */
  function Slots(rows: seq<seq<nat>>, h: nat): nat {
    OnLists(rows, h)
  }

  /** Every handle counts exactly the slots that point to it, and every pointer that
      is not null points to a handle that is there. */
  ghost predicate CountsOk(rows: seq<seq<nat>>, handles: map<nat, Handle>) {
    && 0 !in handles
    && (forall h :: h in handles ==> handles[h].references == Slots(rows, h) >= 1)
    && (forall h: nat :: h != 0 && h !in handles ==> Slots(rows, h) == 0)
  }

  ghost predicate RowsOk(rows: seq<seq<nat>>) {
    forall t :: 0 <= t < |rows| ==> |rows[t]| == OPEN_MAX
  }

  /** Every handle holds a file open of its own, and the only other files that are
      open are the leaked ones. */
  ghost predicate FilesOk(handles: map<nat, Handle>, open: set<nat>, leaked: set<nat>) {
    && (forall h :: h in handles ==> handles[h].file in open && handles[h].file !in leaked)
    && (forall h, g :: h in handles && g in handles && h != g ==> handles[h].file != handles[g].file)
    && (forall f :: f in open ==> f in leaked || exists h :: h in handles && handles[h].file == f)
    && leaked <= open
  }

  /** The tables after h is put into a slot. */
  function WithSlot(rows: seq<seq<nat>>, t: nat, i: nat, h: nat): seq<seq<nat>>
    requires t < |rows| && i < |rows[t]|
  {
    var row: seq<nat> := rows[t][i := h];
    rows[t := row]
  }

  /** Changing one slot changes the counts of two handles. */
  lemma SlotsAt(rows: seq<seq<nat>>, t: nat, i: nat, h: nat, g: nat)
    requires t < |rows| && i < |rows[t]|
    ensures Slots(WithSlot(rows, t, i, h), g) ==
      Slots(rows, g) - (if rows[t][i] == g then 1 else 0) + (if h == g then 1 else 0)
  {
    hide On;
    var row: seq<nat> := rows[t][i := h];
    OnListsAt(rows, t, row, g);
    OnUpdate(rows[t], i, h, g);
  }

  lemma OnUpdate(list: seq<nat>, i: nat, x: nat, t: nat)
    requires i < |list|
    ensures On(list[i := x], t) == On(list, t) - (if list[i] == t then 1 else 0) + (if x == t then 1 else 0)
  {
  }

  /** A slot is one of the slots counted. */
  lemma {:induction false} SlotCounts(rows: seq<seq<nat>>, t: nat, i: nat)
    requires t < |rows| && i < |rows[t]|
    ensures Slots(rows, rows[t][i]) >= 1
  {
    if t == 0 {
      assert rows[0][i] in multiset(rows[0]);
    } else {
      SlotCounts(rows[1..], t - 1, i);
    }
  }

  /** A pointer that is not null is good. */
  lemma PointerOk(rows: seq<seq<nat>>, handles: map<nat, Handle>, t: nat, i: nat)
    requires CountsOk(rows, handles) && t < |rows| && i < |rows[t]| && rows[t][i] != 0
    ensures rows[t][i] in handles
  {
    hide Slots;
    SlotCounts(rows, t, i);
  }

  /** The handles after one pointer to h is given up: the last one frees h. */
  function Dropped(handles: map<nat, Handle>, h: nat): map<nat, Handle>
    requires h in handles
  {
    if handles[h].references > 1 then handles[h := handles[h].(references := handles[h].references - 1)]
    else handles - {h}
  }

  /** The files still open then. */
  function StillOpen(handles: map<nat, Handle>, open: set<nat>, h: nat): set<nat>
    requires h in handles
  {
    if handles[h].references > 1 then open else open - {handles[h].file}
  }

  /** What a pointer to h given up changes: with other pointers left only the count,
      without any the handle and its file go; every other handle and file stays. */
  ghost predicate GivenUp(handles: map<nat, Handle>, open: set<nat>, handles': map<nat, Handle>, open': set<nat>, h: nat)
    requires h in handles
  {
    var Handle(references, file, flags, offset) := handles[h];
    && (forall g :: g in handles && g != h ==> g in handles' && handles'[g] == handles[g])
    && handles'.Keys == (if references > 1 then handles.Keys else handles.Keys - {h})
    && (references > 1 ==> handles'[h] == Handle(references - 1, file, flags, offset) && open' == open)
    && (references <= 1 ==> open' == open - {file})
  }

  lemma ReleaseCounts(rows: seq<seq<nat>>, handles: map<nat, Handle>, t: nat, i: nat)
    requires CountsOk(rows, handles) && t < |rows| && i < |rows[t]| && rows[t][i] != 0
    ensures rows[t][i] in handles && CountsOk(WithSlot(rows, t, i, 0), Dropped(handles, rows[t][i]))
  {
    hide Slots, WithSlot;
    PointerOk(rows, handles, t, i);
    forall g: nat
      ensures Slots(WithSlot(rows, t, i, 0), g) ==
        Slots(rows, g) - (if rows[t][i] == g then 1 else 0) + (if 0 == g then 1 else 0)
    {
      SlotsAt(rows, t, i, 0, g);
    }
  }

  lemma ReleaseFiles(handles: map<nat, Handle>, open: set<nat>, leaked: set<nat>, h: nat)
    requires FilesOk(handles, open, leaked) && h in handles
    ensures FilesOk(Dropped(handles, h), StillOpen(handles, open, h), leaked)
  {
    var now := Dropped(handles, h);
    forall f | f in StillOpen(handles, open, h)
      ensures f in leaked || exists g :: g in now && now[g].file == f
    {
      if f !in leaked {
        var g :| g in handles && handles[g].file == f;
        assert g in now && now[g].file == f;
      }
    }
  }

  /** A new handle in an empty slot. */
  lemma NewCounts(rows: seq<seq<nat>>, handles: map<nat, Handle>, t: nat, i: nat, h: nat, x: Handle)
    requires CountsOk(rows, handles) && t < |rows| && i < |rows[t]| && rows[t][i] == 0
    requires h != 0 && h !in handles && x.references == 1
    ensures CountsOk(WithSlot(rows, t, i, h), handles[h := x])
  {
    hide Slots, WithSlot;
    forall g: nat
      ensures Slots(WithSlot(rows, t, i, h), g) ==
        Slots(rows, g) - (if 0 == g then 1 else 0) + (if h == g then 1 else 0)
    {
      SlotsAt(rows, t, i, h, g);
    }
  }

  lemma NewFiles(handles: map<nat, Handle>, open: set<nat>, leaked: set<nat>, h: nat, x: Handle)
    requires FilesOk(handles, open, leaked) && h !in handles && x.file !in open
    ensures FilesOk(handles[h := x], open + {x.file}, leaked)
  {
    var now := handles[h := x];
    forall f | f in open + {x.file}
      ensures f in leaked || exists g :: g in now && now[g].file == f
    {
      if f == x.file {
        assert now[h].file == f;
      } else if f !in leaked {
        var g :| g in handles && handles[g].file == f;
        assert g in now && now[g].file == f;
      }
    }
  }

  /** One more pointer to h, in an empty slot. */
  lemma ShareCounts(rows: seq<seq<nat>>, handles: map<nat, Handle>, t: nat, i: nat, h: nat)
    requires CountsOk(rows, handles) && t < |rows| && i < |rows[t]| && rows[t][i] == 0 && h in handles
    ensures CountsOk(WithSlot(rows, t, i, h), Shared(handles, h))
  {
    hide Slots, WithSlot;
    forall g: nat
      ensures Slots(WithSlot(rows, t, i, h), g) ==
        Slots(rows, g) - (if 0 == g then 1 else 0) + (if h == g then 1 else 0)
    {
      SlotsAt(rows, t, i, h, g);
    }
  }

  function Shared(handles: map<nat, Handle>, h: nat): map<nat, Handle>
    requires h in handles
  {
    handles[h := handles[h].(references := handles[h].references + 1)]
  }

  lemma SharedFiles(handles: map<nat, Handle>, open: set<nat>, leaked: set<nat>, h: nat)
    requires FilesOk(handles, open, leaked) && h in handles
    ensures FilesOk(Shared(handles, h), open, leaked)
  {
    var now := Shared(handles, h);
    forall f | f in open
      ensures f in leaked || exists g :: g in now && now[g].file == f
    {
      if f !in leaked {
        var g :| g in handles && handles[g].file == f;
        assert g in now && now[g].file == f;
      }
    }
  }

  lemma SlotTwice(rows: seq<seq<nat>>, t: nat, i: nat, h: nat, g: nat)
    requires t < |rows| && i < |rows[t]|
    ensures WithSlot(WithSlot(rows, t, i, h), t, i, g) == WithSlot(rows, t, i, g)
  {
    assert WithSlot(WithSlot(rows, t, i, h), t, i, g)[t] == WithSlot(rows, t, i, g)[t];
  }

  /** A file that is opened and never closed is a leaked one. */
  lemma LeakFiles(handles: map<nat, Handle>, open: set<nat>, leaked: set<nat>, f: nat)
    requires FilesOk(handles, open, leaked) && f !in open
    ensures FilesOk(handles, open + {f}, leaked + {f})
  {
  }

  /** The counts while a thread forks: the pointers in `extra` are counted already, but
      the child's table is not there yet. */
  ghost predicate CountsAhead(rows: seq<seq<nat>>, handles: map<nat, Handle>, extra: seq<nat>) {
    && 0 !in handles
    && (forall h :: h in handles ==> handles[h].references == Slots(rows, h) + On(extra, h) && Slots(rows, h) >= 1)
    && (forall h: nat :: h != 0 && h !in handles ==> Slots(rows, h) == 0)
  }

  lemma AheadStart(rows: seq<seq<nat>>, handles: map<nat, Handle>)
    requires CountsOk(rows, handles)
    ensures CountsAhead(rows, handles, [])
  {
    hide Slots;
  }

  lemma AheadStep(rows: seq<seq<nat>>, handles: map<nat, Handle>, t: nat, i: nat)
    requires t < |rows| && i < |rows[t]| && CountsAhead(rows, handles, rows[t][..i])
    ensures rows[t][i] == 0 ==> CountsAhead(rows, handles, rows[t][..i + 1])
    ensures rows[t][i] != 0 ==>
      rows[t][i] in handles && CountsAhead(rows, Shared(handles, rows[t][i]), rows[t][..i + 1])
  {
    hide Slots, On;
    SlotCounts(rows, t, i);
    assert rows[t][..i + 1] == rows[t][..i] + [rows[t][i]];
    forall h: nat
      ensures On(rows[t][..i + 1], h) == On(rows[t][..i], h) + if rows[t][i] == h then 1 else 0
    {
      OnAppend(rows[t][..i], rows[t][i], h);
    }
  }

  lemma AheadEnd(rows: seq<seq<nat>>, handles: map<nat, Handle>, t: nat)
    requires t < |rows| && CountsAhead(rows, handles, rows[t])
    ensures CountsOk(rows + [rows[t]], handles)
  {
    hide On, Slots;
    var row := rows[t];
    forall h: nat
      ensures Slots(rows + [row], h) == Slots(rows, h) + On(row, h) && On(row, h) <= Slots(rows, h)
    {
      SlotsSnoc(rows, row, h);
      RowWithin(rows, t, h);
    }
  }

  /** The handles differ in nothing but their reference counts. */
  ghost predicate SameBut(was: map<nat, Handle>, now: map<nat, Handle>) {
    was.Keys == now.Keys && forall h :: h in was ==> now[h] == was[h].(references := now[h].references)
  }

  lemma SharedSame(was: map<nat, Handle>, now: map<nat, Handle>, h: nat)
    requires SameBut(was, now) && h in now
    ensures Shared(now, h) == now[h := now[h].(references := now[h].references + 1)]
    ensures SameBut(was, Shared(now, h))
  {
  }

  lemma ForkedHandles(rows: seq<seq<nat>>, was: map<nat, Handle>, now: map<nat, Handle>, t: nat)
    requires t < |rows| && SameBut(was, now) && CountsOk(rows, was) && CountsAhead(rows, now, rows[t])
    ensures forall h :: h in now ==> now[h] == was[h].(references := was[h].references + On(rows[t], h))
  {
    hide On, Slots;
  }

  lemma {:induction false} SlotsSnoc(rows: seq<seq<nat>>, row: seq<nat>, h: nat)
    ensures Slots(rows + [row], h) == Slots(rows, h) + On(row, h)
    decreases |rows|
  {
    hide On;
    if rows == [] {
      assert (rows + [row])[1..] == [];
    } else {
      SlotsSnoc(rows[1..], row, h);
      assert (rows + [row])[1..] == rows[1..] + [row];
    }
  }

  /** A row of one of the tables has no pointer that is in none of the tables. */
  lemma {:induction false} RowWithin(rows: seq<seq<nat>>, t: nat, h: nat)
    requires t < |rows|
    ensures On(rows[t], h) <= Slots(rows, h)
  {
    hide On;
    if t > 0 {
      RowWithin(rows[1..], t - 1, h);
    }
  }

  function Nulls(): (r: seq<nat>)
    ensures |r| == OPEN_MAX && forall i :: 0 <= i < OPEN_MAX ==> r[i] == 0
  {
    seq(OPEN_MAX, _ => 0)
  }

  lemma NullRow(rows: seq<seq<nat>>, handles: map<nat, Handle>)
    requires CountsOk(rows, handles)
    ensures CountsOk(rows + [Nulls()], handles)
  {
    forall h: nat
      ensures Slots(rows + [Nulls()], h) == Slots(rows, h) + On(Nulls(), h)
    {
      SlotsSnoc(rows, Nulls(), h);
    }
    assert forall h: nat :: h != 0 ==> On(Nulls(), h) == 0;
  }

  lemma WithoutNew(handles: map<nat, Handle>, open: set<nat>, h: nat, file: nat, x: Handle)
    requires h !in handles && file !in open
    ensures handles[h := x] - {h} == handles && open + {file} - {file} == open
  {
  }

  const O_RDONLY := 0
  const O_WRONLY := 1
  const O_APPEND := 32

  predicate Full(row: seq<nat>) {
    forall i :: 0 <= i < |row| ==> row[i] != 0
  }

  /** The handles that are left differ in nothing but their reference counts. */
  ghost predicate NoneAltered(was: map<nat, Handle>, now: map<nat, Handle>) {
    forall h :: h in now ==> h in was && now[h] == was[h].(references := now[h].references)
  }

  class FileTables {
    var rows: seq<seq<nat>>
    var handles: map<nat, Handle>
    var open: set<nat>
    ghost var leaked: set<nat>

    ghost predicate Valid()
      reads this
    {
      RowsOk(rows) && CountsOk(rows, handles) && FilesOk(handles, open, leaked)
    }

    constructor ()
      ensures Valid() && rows == [] && handles == map[] && open == {} && leaked == {}
    {
      rows, handles, open, leaked := [], map[], {}, {};
    }

    /** What sys_close and thread_exit do with the pointer in a slot that is given up:
        the last reference closes the file and frees the handle. */
    method Release(t: nat, fd: nat)
      requires Valid() && t < |rows| && fd < OPEN_MAX && rows[t][fd] != 0
      modifies this
      ensures Valid() && leaked == old(leaked)
      ensures rows == WithSlot(old(rows), t, fd, 0)
      ensures old(rows)[t][fd] in old(handles)
      ensures handles == Dropped(old(handles), old(rows)[t][fd])
      ensures open == StillOpen(old(handles), old(open), old(rows)[t][fd])
      ensures GivenUp(old(handles), old(open), handles, open, old(rows)[t][fd])
    {
      hide CountsOk, FilesOk;
      var h := rows[t][fd];
      ReleaseCounts(rows, handles, t, fd);
      ReleaseFiles(handles, open, leaked, h);
      if handles[h].references > 1 {
        handles := handles[h := handles[h].(references := handles[h].references - 1)];
      } else {
        open := open - {handles[h].file};
        handles := handles - {h};
      }
      rows := WithSlot(rows, t, fd, 0);
    }

    /** sys_close */
    method Close(t: nat, fd: int) returns (r: Result)
      requires Valid() && t < |rows|
      modifies this
      ensures Valid() && leaked == old(leaked)
      ensures r == Err(EBADF) <==> !(0 <= fd < OPEN_MAX && old(rows)[t][fd] != 0)
      ensures r != Err(EBADF) ==>
        && r == Ok(0) && rows == WithSlot(old(rows), t, fd, 0)
        && old(rows)[t][fd] in old(handles)
        && handles == Dropped(old(handles), old(rows)[t][fd])
        && open == StillOpen(old(handles), old(open), old(rows)[t][fd])
        && GivenUp(old(handles), old(open), handles, open, old(rows)[t][fd])
      ensures r == Err(EBADF) ==> rows == old(rows) && handles == old(handles) && open == old(open)
    {
      hide CountsOk, FilesOk, WithSlot, Dropped, StillOpen;
      if fd < 0 || fd >= OPEN_MAX || rows[t][fd] == 0 {
        return Err(EBADF);
      }
      Release(t, fd);
      r := Ok(0);
    }

    /** sys_dup2: afterwards both descriptors point to the handle that oldfd pointed to,
        whatever newfd pointed to before. */
    method Dup2(t: nat, oldfd: int, newfd: int) returns (r: Result)
      requires Valid() && t < |rows|
      modifies this
      ensures Valid() && leaked == old(leaked)
      ensures r == Err(EBADF) <==>
        !(0 <= newfd < OPEN_MAX && 0 <= oldfd < OPEN_MAX && old(rows)[t][oldfd] != 0)
      ensures r == Err(EBADF) || oldfd == newfd ==> rows == old(rows) && handles == old(handles) && open == old(open)
      ensures r != Err(EBADF) ==> r == Ok(newfd)
      ensures r != Err(EBADF) && oldfd != newfd ==> rows == WithSlot(old(rows), t, newfd, old(rows)[t][oldfd])
      ensures NoneAltered(old(handles), handles)
    {
      hide CountsOk, FilesOk;
      if newfd < 0 || oldfd < 0 || newfd >= OPEN_MAX || oldfd >= OPEN_MAX || rows[t][oldfd] == 0 {
        return Err(EBADF);
      }
      if oldfd != newfd {
        if rows[t][newfd] != 0 {
          var _ := Close(t, newfd);
        }
        var h := rows[t][oldfd];
        PointerOk(rows, handles, t, oldfd);
        ShareCounts(rows, handles, t, newfd, h);
        SharedFiles(handles, open, leaked, h);
        SlotTwice(old(rows), t, newfd, 0, h);
        rows := WithSlot(rows, t, newfd, h);
        handles := handles[h := handles[h].(references := handles[h].references + 1)];
      }
      r := Ok(newfd);
    }

    /** The slot sys_open takes: the first one that is null. */
    method FirstNull(t: nat) returns (index: nat)
      requires RowsOk(rows) && t < |rows|
      ensures index <= OPEN_MAX && (forall i :: 0 <= i < index ==> rows[t][i] != 0)
      ensures index < OPEN_MAX ==> rows[t][index] == 0
    {
      index := 0;
      while index < OPEN_MAX && rows[t][index] != 0
        invariant index <= OPEN_MAX && (forall i :: 0 <= i < index ==> rows[t][i] != 0)
      {
        index := index + 1;
      }
    }

    /** sys_open, from the search for a slot on. h is what kmalloc gives, 0 for nothing;
        vfs is the outcome of vfs_open, stat that of VOP_STAT. A call that fails leaves
        tables and handles as they were, but a file that was opened stays open when
        VOP_STAT fails. */
    method Open(t: nat, flags: int, h: nat, lockOk: bool, vfs: Result, stat: Result) returns (r: Result)
      requires Valid() && t < |rows| && h !in handles && (vfs.Ok? ==> vfs.value !in open)
      modifies this
      ensures Valid()
      ensures Full(old(rows)[t]) ==> r == Err(ENFILE)
      ensures !Full(old(rows)[t]) && (h == 0 || !lockOk) ==> r == Err(ENOMEM)
      ensures !Full(old(rows)[t]) && h != 0 && lockOk ==>
        r.Ok? || r == (if vfs.Err? then vfs else stat)
      ensures r.Ok? ==>
        && h != 0 && lockOk && vfs.Ok? && (flags == O_APPEND ==> stat.Ok?)
        && r.value < OPEN_MAX && old(rows)[t][r.value] == 0 && (forall i :: 0 <= i < r.value ==> old(rows)[t][i] != 0)
        && rows == WithSlot(old(rows), t, r.value, h) && open == old(open) + {vfs.value} && leaked == old(leaked)
        && handles == old(handles)[h := Handle(1, vfs.value, flags, if flags == O_APPEND then stat.value else 0)]
      ensures r.Err? ==> rows == old(rows) && handles == old(handles)
      ensures r.Err? ==>
        if !Full(old(rows)[t]) && h != 0 && lockOk && vfs.Ok? && flags == O_APPEND && stat.Err?
        then open == old(open) + {vfs.value} && leaked == old(leaked) + {vfs.value}
        else open == old(open) && leaked == old(leaked)
    {
      hide CountsOk, FilesOk, WithSlot;
      var index := FirstNull(t);
      if index >= OPEN_MAX {
        return Err(ENFILE);
      }
      assert rows[t][index] == 0;
      if h == 0 {
        return Err(ENOMEM);
      }
      if !lockOk {
        return Err(ENOMEM);
      }
      if vfs.Err? {
        return vfs;
      }
      var offset := 0;
      if flags == O_APPEND {
        if stat.Err? {
          LeakFiles(handles, open, leaked, vfs.value);
          open, leaked := open + {vfs.value}, leaked + {vfs.value};
          return stat;
        }
        offset := stat.value;
      }
      Install(t, index, h, Handle(1, vfs.value, flags, offset));
      r := Ok(index);
    }

    /** thread_fork by the kernel, with init_filetable: the new thread's descriptors
        0, 1 and 2 get handles of their own, unless one of the three steps fails; then
        everything that was opened and allocated on the way is given back and no thread
        starts. The offsets are not set: memory says what they are. */
    method StartThread(steps: seq<Console>, memory: nat -> nat) returns (r: Result)
      requires Valid() && |steps| == 3
      requires forall i :: 0 <= i < 3 ==> steps[i].handle !in handles && (steps[i].vfs.Ok? ==> steps[i].vfs.value !in open)
      requires forall i, j :: 0 <= i < j < 3 ==> Separate(steps[i], steps[j])
      modifies this
      ensures Valid() && leaked == old(leaked)
      ensures r.Ok? <==> forall i :: 0 <= i < 3 ==> steps[i].vfs.Ok? && steps[i].handle != 0 && steps[i].lockOk
      ensures r.Ok? ==>
        && r.value == |old(rows)|
        && rows == old(rows) + [[steps[0].handle, steps[1].handle, steps[2].handle] + Nulls()[3..]]
        && open == old(open) + {steps[0].vfs.value, steps[1].vfs.value, steps[2].vfs.value}
        && handles == old(handles)[steps[0].handle := Handle(1, steps[0].vfs.value, O_RDONLY, memory(0))]
                                  [steps[1].handle := Handle(1, steps[1].vfs.value, O_WRONLY, memory(1))]
                                  [steps[2].handle := Handle(1, steps[2].vfs.value, O_WRONLY, memory(2))]
      ensures r.Err? ==> rows == old(rows) && handles == old(handles) && open == old(open)
      ensures r.Err? ==> exists k :: 0 <= k < 3 && FirstFailing(steps, k) && r == Reported(steps[k].vfs)
    {
      hide CountsOk, FilesOk, Nulls;
      var child := |rows|;
      ghost var rows0, handles0, open0 := rows, handles, open;
      NullRow(rows, handles);
      rows := rows + [Nulls()];
      if !steps[0].Succeeds() {
        rows := rows[..child];
        assert rows == rows0;
        assert FirstFailing(steps, 0);
        return Reported(steps[0].vfs);
      }
      Install(child, 0, steps[0].handle, Handle(1, steps[0].vfs.value, O_RDONLY, memory(0)));
      if !steps[1].Succeeds() {
        WithoutNew(handles0, open0, steps[0].handle, steps[0].vfs.value, handles[steps[0].handle]);
        rows, handles, open := rows[..child], handles - {steps[0].handle}, open - {steps[0].vfs.value};
        assert rows == rows0;
        assert FirstFailing(steps, 1);
        return Reported(steps[1].vfs);
      }
      ghost var handles1, open1 := handles, open;
      Install(child, 1, steps[1].handle, Handle(1, steps[1].vfs.value, O_WRONLY, memory(1)));
      if !steps[2].Succeeds() {
        WithoutNew(handles1, open1, steps[1].handle, steps[1].vfs.value, handles[steps[1].handle]);
        WithoutNew(handles0, open0, steps[0].handle, steps[0].vfs.value, handles1[steps[0].handle]);
        rows, handles, open := rows[..child], handles - {steps[1].handle} - {steps[0].handle},
          open - {steps[1].vfs.value} - {steps[0].vfs.value};
        assert rows == rows0;
        assert FirstFailing(steps, 2);
        return Reported(steps[2].vfs);
      }
      Install(child, 2, steps[2].handle, Handle(1, steps[2].vfs.value, O_WRONLY, memory(2)));
      assert rows[child] == [steps[0].handle, steps[1].handle, steps[2].handle] + Nulls()[3..];
      assert rows == rows0 + [[steps[0].handle, steps[1].handle, steps[2].handle] + Nulls()[3..]];
      r := Ok(child);
    }

    method Install(t: nat, i: nat, h: nat, x: Handle)
      requires Valid() && t < |rows| && i < OPEN_MAX && rows[t][i] == 0
      requires h != 0 && h !in handles && x.references == 1 && x.file !in open
      modifies this
      ensures Valid() && leaked == old(leaked)
      ensures rows == WithSlot(old(rows), t, i, h) && handles == old(handles)[h := x] && open == old(open) + {x.file}
    {
      hide CountsOk, FilesOk;
      NewCounts(rows, handles, t, i, h, x);
      NewFiles(handles, open, leaked, h, x);
      rows, handles, open := WithSlot(rows, t, i, h), handles[h := x], open + {x.file};
    }

    /** thread_fork by a user thread: the child gets a copy of the table. */
    method Fork(t: nat) returns (child: nat)
      requires Valid() && t < |rows|
      modifies this
      ensures Valid() && child == |old(rows)| && rows == old(rows) + [old(rows)[t]]
      ensures open == old(open) && leaked == old(leaked) && handles.Keys == old(handles).Keys
      ensures forall h :: h in handles ==>
        handles[h] == old(handles)[h].(references := old(handles)[h].references + On(old(rows)[t], h))
    {
      hide FilesOk, On, Slots, CountsOk, CountsAhead, Shared;
      ghost var was := handles;
      AheadStart(rows, handles);
      var i := 0;
      assert rows[t][..0] == [];
      while i < OPEN_MAX
        invariant 0 <= i <= OPEN_MAX && rows == old(rows) && open == old(open) && leaked == old(leaked)
        invariant CountsAhead(rows, handles, rows[t][..i]) && FilesOk(handles, open, leaked) && SameBut(was, handles)
      {
        AheadStep(rows, handles, t, i);
        if rows[t][i] != 0 {
          var h := rows[t][i];
          SharedFiles(handles, open, leaked, h);
          SharedSame(was, handles, h);
          handles := handles[h := handles[h].(references := handles[h].references + 1)];
        }
        i := i + 1;
      }
      assert rows[t][..OPEN_MAX] == rows[t];
      AheadEnd(rows, handles, t);
      ForkedHandles(rows, was, handles, t);
      child := |rows|;
      rows := rows + [rows[t]];
    }

    /** thread_exit: gives up every pointer, two pointers to one handle one by one. The
        thread's table is never looked at again; it reads null here. */
    method Exit(t: nat)
      requires Valid() && t < |rows|
      modifies this
      ensures Valid() && leaked == old(leaked) && rows == old(rows)[t := Nulls()]
      ensures NoneAltered(old(handles), handles)
    {
      hide CountsOk, FilesOk, StillOpen;
      var i := 0;
      while i < OPEN_MAX
        invariant 0 <= i <= OPEN_MAX && Valid() && leaked == old(leaked) && |rows| == |old(rows)|
        invariant forall u :: 0 <= u < |rows| && u != t ==> rows[u] == old(rows)[u]
        invariant forall k :: 0 <= k < i ==> rows[t][k] == 0
        invariant NoneAltered(old(handles), handles)
      {
        if rows[t][i] != 0 {
          Release(t, i);
        }
        i := i + 1;
      }
      assert rows[t] == Nulls();
      assert rows == old(rows)[t := Nulls()];
    }
  }

  /** Once every thread has exited, every handle has been freed and every file that
      did not leak has been closed. */
  lemma AllGone(rows: seq<seq<nat>>, handles: map<nat, Handle>, open: set<nat>, leaked: set<nat>)
    requires CountsOk(rows, handles) && FilesOk(handles, open, leaked)
    requires forall t :: 0 <= t < |rows| ==> rows[t] == Nulls()
    ensures handles == map[] && open == leaked
  {
    forall h: nat | h != 0
      ensures h !in handles
    {
      NoSlots(rows, h);
    }
  }

  lemma {:induction false} NoSlots(rows: seq<seq<nat>>, h: nat)
    requires h != 0 && forall t :: 0 <= t < |rows| ==> rows[t] == Nulls()
    ensures Slots(rows, h) == 0
    decreases |rows|
  {
    if rows != [] {
      assert rows[0] == Nulls();
      NoSlots(rows[1..], h);
    }
  }
}
