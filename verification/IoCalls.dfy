/** The system calls that move references: kernel/syscall.c, and fork and exit of kernel/process.c. */
module IoCalls {
  import opened Base
  import opened IoRefs

  /** The kernel's own references are what they were. */
  ghost predicate SameHeld(a: map<nat, nat>, b: map<nat, nat>) {
    forall o: nat :: HeldOf(a, o) == HeldOf(b, o)
  }

  predicate ValidFd(fd: int) {
    0 <= fd < IOMAX
  }

  /** Close what a slot holds and empty it. */
  method CloseSlot(k: Kernel, p: nat, fd: nat)
    requires k.Valid() && p < NPROC && k.procs[p].Some? && fd < IOMAX && k.procs[p].value[fd].Some?
    modifies k
    ensures k.Valid() && k.procs == SetFd(old(k.procs), p, fd, None) && SameHeld(old(k.held), k.held)
    ensures k.refcnt.Keys == old(k.refcnt.Keys)
  {
    var o := k.procs[p].value[fd].value;
    k.SetSlot(p, fd, None);
    k.Close(o);
  }

  /** install_io: the kernel's reference to io goes into the slot, what was there is closed. */
  method InstallIo(k: Kernel, cur: Option<nat>, fd: int, io: nat) returns (rc: int)
    requires k.Valid() && (cur.Some? ==> cur.value < NPROC && k.procs[cur.value].Some?) && HeldOf(k.held, io) > 0
    modifies k
    ensures k.Valid() && k.refcnt.Keys == old(k.refcnt.Keys)
    ensures rc == if ValidFd(fd) && cur.Some? then 0 else -EINVAL
    ensures rc != 0 ==> k.procs == old(k.procs) && SameHeld(old(k.held), k.held)
    ensures rc == 0 ==> k.procs == SetFd(old(k.procs), cur.value, fd, Some(io))
    ensures rc == 0 ==> forall o: nat :: HeldOf(k.held, o) + One(Some(io), o) == HeldOf(old(k.held), o)
  {
    if !ValidFd(fd) || cur.None? {
      return -EINVAL;
    }
    var p := cur.value;
    SetFdTwice(k.procs, p, fd, None, Some(io));
    if k.procs[p].value[fd].Some? {
      CloseSlot(k, p, fd);
    }
    k.SetSlot(p, fd, Some(io));
    return 0;
  }

  /** The first empty slot, or -EMFILE. */
  method FindFreeFd(t: IoTab, but: int) returns (fd: int)
    requires |t| == IOMAX
    ensures fd == -EMFILE || (ValidFd(fd) && t[fd].None? && fd != but)
    ensures fd == -EMFILE <==> forall i :: 0 <= i < IOMAX && i != but ==> t[i].Some?
    ensures fd >= 0 ==> forall i :: 0 <= i < fd && i != but ==> t[i].Some?
  {
    var i := 0;
    while i < IOMAX
      invariant 0 <= i <= IOMAX && forall j :: 0 <= j < i && j != but ==> t[j].Some?
    {
      if i != but && t[i].None? {
        return i;
      }
      i := i + 1;
    }
    return -EMFILE;
  }

  /** The kernel gave up its reference to io. */
  ghost predicate GaveUp(before: map<nat, nat>, after: map<nat, nat>, io: nat) {
    forall o: nat :: HeldOf(after, o) + One(Some(io), o) == HeldOf(before, o)
  }

  lemma DropGivesUp(h: map<nat, nat>, h': map<nat, nat>, io: nat)
    requires SameHeld(h, h') && HeldOf(h, io) > 0
    ensures GaveUp(h, Drop(h', Some(io)), io)
  {
  }

  lemma GiveAndUp(h0: map<nat, nat>, h1: map<nat, nat>, h2: map<nat, nat>, io: nat)
    requires h1 == Give(h0, Some(io)) && GaveUp(h1, h2, io)
    ensures SameHeld(h0, h2)
  {
  }

  /** The lowest empty slot of a table. */
  predicate FirstFree(t: IoTab, fd: int) {
    0 <= fd < |t| && t[fd].None? && forall i :: 0 <= i < fd ==> t[i].Some?
  }

  predicate Full(t: IoTab) {
    forall i :: 0 <= i < |t| ==> t[i].Some?
  }

  /** The second half of sysdevopen and sysfsopen: the new reference ends up in a slot or is closed again. */
  method PlaceIo(k: Kernel, cur: Option<nat>, fd: int, io: nat) returns (rc: int)
    requires k.Valid() && (cur.Some? ==> cur.value < NPROC && k.procs[cur.value].Some?) && HeldOf(k.held, io) > 0
    modifies k
    ensures k.Valid() && GaveUp(old(k.held), k.held, io)
    ensures rc < 0 ==> k.procs == old(k.procs)
    ensures rc >= 0 ==> cur.Some? && ValidFd(rc) && (fd >= 0 ==> rc == fd) && k.procs == SetFd(old(k.procs), cur.value, rc, Some(io))
    ensures cur.Some? && ValidFd(fd) ==> rc == fd
    ensures cur.None? || fd >= IOMAX ==> rc == -EINVAL
    ensures cur.Some? && fd < 0 ==> if Full(old(k.procs)[cur.value].value) then rc == -EMFILE else FirstFree(old(k.procs)[cur.value].value, rc)
  {
    hide Refs;
    var at := fd;
    DropGivesUp(k.held, k.held, io);
    if fd < 0 {
      if cur.None? {
        k.Close(io);
        return -EINVAL;
      }
      at := FindFreeFd(k.procs[cur.value].value, -1);
      if at < 0 {
        k.Close(io);
        return -EMFILE;
      }
    }
    rc := InstallIo(k, cur, at, io);
    if rc != 0 {
      DropGivesUp(old(k.held), k.held, io);
      k.Close(io);
      return rc;
    }
    return at;
  }

  /** sysdevopen and sysfsopen: whatever goes wrong, the reference the open gave is not lost. */
  method OpenCall(k: Kernel, cur: Option<nat>, fd: int, opened_: Opened) returns (rc: int, ghost io: nat)
    requires k.Valid() && (cur.Some? ==> cur.value < NPROC && k.procs[cur.value].Some?)
    requires opened_.Failed? ==> opened_.rc < 0
    requires opened_.Device? ==> opened_.o in k.refcnt
    modifies k
    ensures k.Valid() && SameHeld(old(k.held), k.held)
    ensures opened_.Failed? ==> rc == opened_.rc
    ensures rc < 0 ==> k.procs == old(k.procs)
    ensures rc >= 0 ==> cur.Some? && ValidFd(rc) && (fd >= 0 ==> rc == fd) && k.procs == SetFd(old(k.procs), cur.value, rc, Some(io))
    ensures rc >= 0 ==> if opened_.Device? then io == opened_.o else io !in old(k.refcnt)
    ensures !opened_.Failed? && cur.Some? && ValidFd(fd) ==> rc == fd
    ensures !opened_.Failed? && (cur.None? || fd >= IOMAX) ==> rc == -EINVAL
    ensures !opened_.Failed? && cur.Some? && fd < 0 ==>
      if Full(old(k.procs)[cur.value].value) then rc == -EMFILE else FirstFree(old(k.procs)[cur.value].value, rc)
  {
    hide Refs;
    var obj;
    io := 0;
    match opened_ {
      case Failed(e) => return e, 0;
      case Fresh => obj := k.NewIo();
      case Device(o) => obj := o; k.AddRef(o);
    }
    io := obj;
    ghost var h1 := k.held;
    rc := PlaceIo(k, cur, fd, obj);
    GiveAndUp(old(k.held), h1, k.held, obj);
  }

  /** sysclose */
  method CloseCall(k: Kernel, cur: Option<nat>, fd: int) returns (rc: int)
    requires k.Valid() && (cur.Some? ==> cur.value < NPROC && k.procs[cur.value].Some?)
    modifies k
    ensures k.Valid() && SameHeld(old(k.held), k.held)
    ensures rc == if ValidFd(fd) && cur.Some? && old(k.procs)[cur.value].value[fd].Some? then 0 else -EINVAL
    ensures rc != 0 ==> k.procs == old(k.procs)
    ensures rc == 0 ==> k.procs == SetFd(old(k.procs), cur.value, fd, None)
  {
    if !ValidFd(fd) {
      return -EINVAL;
    }
    if cur.None? || k.procs[cur.value].value[fd].None? {
      return -EINVAL;
    }
    CloseSlot(k, cur.value, fd);
    return 0;
  }

  predicate Empty(t: IoTab, fd: int) {
    0 <= fd < |t| && t[fd].None?
  }

  /** A slot chosen for the caller is the lowest empty one other than the slot `but`. */
  predicate Lowest(t: IoTab, asked: int, fd: int, but: int) {
    asked < 0 ==> forall i :: 0 <= i < fd && i < |t| && i != but ==> t[i].Some?
  }

  /** The slots asked for cannot be had: one is taken or out of range, both are the same, or the writer's own
      choice is the slot named for the reader. */
  ghost predicate BadSlots(t: IoTab, wfd: int, rfd: int) {
    || (wfd >= 0 && !Empty(t, wfd))
    || (rfd >= 0 && !Empty(t, rfd))
    || (rfd >= 0 && (rfd == wfd || (wfd < 0 && FirstFree(t, rfd))))
  }

  /** At most one slot is empty. */
  ghost predicate NoTwo(t: IoTab) {
    forall i, j :: 0 <= i < j < |t| ==> t[i].Some? || t[j].Some?
  }

  /** What the choice of slots comes to. The writer's slot is looked at first. */
  ghost function SlotsAnswer(t: IoTab, wfd: int, rfd: int): int {
    if wfd < 0 && Full(t) then -EMFILE
    else if wfd >= 0 && !Empty(t, wfd) then -EBADFD
    else if rfd < 0 && NoTwo(t) then -EMFILE
    else if rfd >= 0 && (!Empty(t, rfd) || rfd == wfd || (wfd < 0 && FirstFree(t, rfd))) then -EBADFD
    else 0
  }

  /** The slot a caller named for a pipe end, or a free one. */
  method PipeSlot(t: IoTab, fd: int, but: int) returns (r: int)
    requires |t| == IOMAX
    ensures r >= 0 ==> ValidFd(r) && t[r].None? && (fd >= 0 ==> r == fd)
    ensures fd >= 0 && r < 0 ==> r == -EBADFD && !Empty(t, fd)
    ensures fd < 0 && r >= 0 ==> r != but && forall i :: 0 <= i < r && i != but ==> t[i].Some?
    ensures fd < 0 && r < 0 ==> r == -EMFILE && forall i :: 0 <= i < IOMAX && i != but ==> t[i].Some?
  {
    if fd < 0 {
      r := FindFreeFd(t, but);
    } else if !ValidFd(fd) || t[fd].Some? {
      r := -EBADFD;
    } else {
      r := fd;
    }
  }

  /** The choice of slots in syspipe. */
  method PipeSlots(t: IoTab, wfd: int, rfd: int) returns (rc: int, w: int, r: int)
    requires |t| == IOMAX
    ensures rc == 0 || rc == -EBADFD || rc == -EMFILE
    ensures rc == 0 ==> Empty(t, w) && Empty(t, r) && w != r && (wfd >= 0 ==> w == wfd) && (rfd >= 0 ==> r == rfd)
    ensures rc == 0 ==> !BadSlots(t, wfd, rfd) && Lowest(t, wfd, w, -1) && Lowest(t, rfd, r, w)
    ensures rc == SlotsAnswer(t, wfd, rfd)
    ensures rc == -EBADFD ==> BadSlots(t, wfd, rfd)
    ensures rc == -EMFILE ==> NoTwo(t) && (wfd < 0 || rfd < 0)
  {
    w := PipeSlot(t, wfd, -1);
    if w < 0 {
      return w, wfd, rfd;
    }
    r := PipeSlot(t, rfd, w);
    if r < 0 {
      return r, wfd, rfd;
    }
    return if w == r then -EBADFD else 0, w, r;
  }

  /** syspipe: two new objects, in two slots that were empty. */
  method PipeCall(k: Kernel, cur: Option<nat>, wfd: int, rfd: int, memory: bool) returns (rc: int, w: int, r: int)
    requires k.Valid() && (cur.Some? ==> cur.value < NPROC && k.procs[cur.value].Some?)
    modifies k
    ensures k.Valid() && SameHeld(old(k.held), k.held)
    ensures rc == if cur.None? then -EINVAL else
      var chosen := SlotsAnswer(old(k.procs)[cur.value].value, wfd, rfd); if chosen != 0 then chosen else if memory then 0 else -ENOMEM
    ensures rc == 0 ==> cur.Some? && memory && !BadSlots(old(k.procs)[cur.value].value, wfd, rfd)
    ensures rc == -EBADFD ==> cur.Some? && BadSlots(old(k.procs)[cur.value].value, wfd, rfd)
    ensures rc == -EMFILE ==> cur.Some? && NoTwo(old(k.procs)[cur.value].value) && (wfd < 0 || rfd < 0)
    ensures rc != 0 ==> w == wfd && r == rfd
    ensures rc == 0 ==> (wfd >= 0 ==> w == wfd) && (rfd >= 0 ==> r == rfd)
    ensures rc == 0 ==> Lowest(old(k.procs)[cur.value].value, wfd, w, -1) && Lowest(old(k.procs)[cur.value].value, rfd, r, w)
    ensures rc != 0 ==> k.procs == old(k.procs)
    ensures rc == 0 ==> cur.Some? && ValidFd(w) && ValidFd(r) && w != r && k.procs[cur.value].Some? && |k.procs[cur.value].value| == IOMAX
    ensures rc == 0 ==> old(k.procs)[cur.value].value[w].None? && old(k.procs)[cur.value].value[r].None?
    ensures rc == 0 ==>
      var t := k.procs[cur.value].value;
      && t[w].Some? && t[r].Some? && t[w] != t[r] && t[w].value !in old(k.refcnt) && t[r].value !in old(k.refcnt)
      && k.procs == SetFd(SetFd(old(k.procs), cur.value, w, t[w]), cur.value, r, t[r])
  {
    if cur.None? {
      return -EINVAL, wfd, rfd;
    }
    rc, w, r := PipeSlots(k.procs[cur.value].value, wfd, rfd);
    if rc != 0 {
      return rc, wfd, rfd;
    }
    if !memory {
      return -ENOMEM, wfd, rfd;
    }
    hide BadSlots, NoTwo, Lowest, SetFd, Refs, SlotsAnswer;
    ghost var wio, rio := PlacePipe(k, cur.value, w, r);
    TwoSlots(old(k.procs), cur.value, w, wio, r, rio);
    return 0, w, r;
  }

  lemma TwoSlots(procs: seq<Option<IoTab>>, p: nat, w: nat, x: nat, r: nat, y: nat)
    requires p < |procs| && procs[p].Some? && |procs[p].value| == IOMAX && w < IOMAX && r < IOMAX && w != r
    ensures var q := SetFd(SetFd(procs, p, w, Some(x)), p, r, Some(y));
      |q| == |procs| && q[p].Some? && |q[p].value| == IOMAX && q[p].value[w] == Some(x) && q[p].value[r] == Some(y)
  {
  }

  /** create_pipe and the two slots. */
  method PlacePipe(k: Kernel, p: nat, w: nat, r: nat) returns (ghost wio: nat, ghost rio: nat)
    requires k.Valid() && p < NPROC && k.procs[p].Some? && w < IOMAX && r < IOMAX && w != r
    requires k.procs[p].value[w].None? && k.procs[p].value[r].None?
    modifies k
    ensures k.Valid() && SameHeld(old(k.held), k.held) && wio != rio && wio !in old(k.refcnt) && rio !in old(k.refcnt)
    ensures k.procs == SetFd(SetFd(old(k.procs), p, w, Some(wio)), p, r, Some(rio))
  {
    hide Refs;
    var x := k.NewIo();
    var y := k.NewIo();
    k.SetSlot(p, w, Some(x));
    k.SetSlot(p, r, Some(y));
    return x, y;
  }

  /** The last lines of sysiodup. */
  method CopySlot(k: Kernel, p: nat, oldfd: nat, newfd: nat)
    requires k.Valid() && p < NPROC && k.procs[p].Some? && oldfd < IOMAX && newfd < IOMAX && oldfd != newfd && k.procs[p].value[oldfd].Some?
    modifies k
    ensures k.Valid() && SameHeld(old(k.held), k.held)
    ensures k.procs == SetFd(old(k.procs), p, newfd, old(k.procs)[p].value[oldfd])
  {
    hide Refs;
    SetFdTwice(k.procs, p, newfd, None, k.procs[p].value[oldfd]);
    if k.procs[p].value[newfd].Some? {
      CloseSlot(k, p, newfd);
    }
    var o := k.procs[p].value[oldfd].value;
    SlotCounts(k.procs, p, oldfd, o);
    assert k.Balanced(o);
    k.AddRef(o);
    k.SetSlot(p, newfd, Some(o));
  }

  /** sysiodup */
  method DupCall(k: Kernel, cur: Option<nat>, oldfd: int, newfd: int) returns (rc: int)
    requires k.Valid() && (cur.Some? ==> cur.value < NPROC && k.procs[cur.value].Some?)
    modifies k
    ensures k.Valid() && SameHeld(old(k.held), k.held)
    ensures rc < 0 ==> k.procs == old(k.procs)
    ensures rc >= 0 ==> cur.Some? && ValidFd(oldfd) && ValidFd(rc) && old(k.procs)[cur.value].value[oldfd].Some?
    ensures cur.None? ==> rc == -EINVAL
    ensures cur.Some? && (!ValidFd(oldfd) || old(k.procs)[cur.value].value[oldfd].None? || newfd >= IOMAX) ==> rc == -EBADFD
    ensures rc >= 0 ==> k.procs == SetFd(old(k.procs), cur.value, rc, old(k.procs)[cur.value].value[oldfd])
    ensures newfd >= 0 ==> (rc >= 0 <==> cur.Some? && ValidFd(oldfd) && old(k.procs)[cur.value].value[oldfd].Some? && ValidFd(newfd))
    ensures rc >= 0 && newfd >= 0 ==> rc == newfd
    ensures newfd < 0 && cur.Some? && ValidFd(oldfd) && old(k.procs)[cur.value].value[oldfd].Some? ==>
      if Full(old(k.procs)[cur.value].value) then rc == -EMFILE else FirstFree(old(k.procs)[cur.value].value, rc)
  {
    if cur.None? {
      return -EINVAL;
    }
    var p := cur.value;
    if !ValidFd(oldfd) || k.procs[p].value[oldfd].None? {
      return -EBADFD;
    }
    var at := newfd;
    if newfd < 0 {
      at := FindFreeFd(k.procs[p].value, -1);
      if at < 0 {
        return at;
      }
    } else if !ValidFd(newfd) {
      return -EBADFD;
    }
    SetFdTwice(k.procs, p, at, None, k.procs[p].value[oldfd]);
    if oldfd != at {
      CopySlot(k, p, oldfd, at);
    }
    return at;
  }

  // ---- fork and exit ----

  lemma {:induction false} TabTake(t: IoTab, i: nat, o: nat)
    requires i < |t|
    ensures TabRefs(t[..i + 1], o) == TabRefs(t[..i], o) + One(t[i], o)
  {
    assert t[..i + 1] == t[..i] + [t[i]];
    TabSnoc(t[..i], t[i], o);
  }

  /** The child's table: every object of the parent with one more reference. */
  method CloneTab(k: Kernel, p: nat) returns (child: IoTab)
    requires k.Valid() && p < NPROC && k.procs[p].Some?
    modifies k
    ensures k.Valid() && k.procs == old(k.procs) && child == k.procs[p].value && HoldsTab(old(k.held), k.held, child)
  {
    hide Refs, TabRefs;
    child := [];
    ghost var t := k.procs[p].value;
    EmptyStart(k.held);
    for i := 0 to IOMAX
      invariant k.Valid() && k.procs == old(k.procs) && child == t[..i] && HoldsTab(old(k.held), k.held, t[..i])
    {
      var x := k.procs[p].value[i];
      forall o: nat ensures TabRefs(t[..i + 1], o) == TabRefs(t[..i], o) + One(x, o) {
        TabTake(t, i, o);
      }
      if x.Some? {
        SlotCounts(k.procs, p, i, x.value);
        assert k.Balanced(x.value);
        k.AddRef(x.value);
      }
      child := child + [x];
    }
    assert t[..IOMAX] == t;
  }

  lemma EmptyStart(h: map<nat, nat>)
    ensures forall t: IoTab :: t == [] ==> HoldsTab(h, h, t)
  {
  }

  /** The rollback loop of process_fork. */
  method CloseTab(k: Kernel, t: IoTab, ghost h: map<nat, nat>)
    requires k.Valid() && |t| == IOMAX && HoldsTab(h, k.held, t)
    modifies k
    ensures k.Valid() && k.procs == old(k.procs) && SameHeld(h, k.held)
  {
    hide Refs, TabRefs;
    assert t[..IOMAX] == t;
    TabStart(t);
    for i := 0 to IOMAX
      invariant k.Valid() && k.procs == old(k.procs)
      invariant forall o: nat :: HeldOf(k.held, o) + TabRefs(t[..i], o) == HeldOf(h, o) + TabRefs(t, o)
    {
      forall o: nat ensures TabRefs(t[..i + 1], o) == TabRefs(t[..i], o) + One(t[i], o) {
        TabTake(t, i, o);
      }
      if t[i].Some? {
        TabMore(t, i + 1, t[i].value);
        k.Close(t[i].value);
      }
    }
  }

  lemma TabStart(t: IoTab)
    ensures forall o: nat :: TabRefs(t[..0], o) == 0
  {
  }

  lemma {:induction false} TabMore(t: IoTab, i: nat, o: nat)
    requires i <= |t|
    ensures TabRefs(t[..i], o) <= TabRefs(t, o)
    decreases |t| - i
  {
    if i < |t| {
      TabTake(t, i, o);
      TabMore(t, i + 1, o);
    } else {
      assert t[..i] == t;
    }
  }

  /** The lowest process slot that is free, main's aside. */
  predicate FirstProc(procs: seq<Option<IoTab>>, idx: nat) {
    1 <= idx < |procs| && procs[idx].None? && forall i :: 1 <= i < idx ==> procs[i].Some?
  }

  /** What a fork comes to. */
  ghost function ForkAnswer(procs: seq<Option<IoTab>>, memory: bool, cloned: bool, tid: int): int {
    if forall i :: 1 <= i < |procs| ==> procs[i].Some? then -EMPROC
    else if !memory || !cloned then -ENOMEM
    else if tid <= 0 then -EMTHR
    else tid
  }

  /** process_fork: the child gets its parent's table with every count one higher; if the address space cannot
      be cloned or the thread cannot be spawned, every count is as it was. The results of the allocation, of
      clone_active_mspace and of thread_spawn are parameters. */
  method ForkCall(k: Kernel, cur: Option<nat>, memory: bool, cloned: bool, tid: int) returns (rc: int, ghost idx: nat)
    requires k.Valid() && (cur.Some? ==> cur.value < NPROC && k.procs[cur.value].Some?)
    modifies k
    ensures k.Valid() && SameHeld(old(k.held), k.held)
    ensures rc == if cur.None? then -EINVAL else ForkAnswer(old(k.procs), memory, cloned, tid)
    ensures rc != 0 && (rc < 0 ==> k.procs == old(k.procs))
    ensures rc > 0 ==> cur.Some? && FirstProc(old(k.procs), idx) && k.procs == old(k.procs)[idx := old(k.procs)[cur.value]]
  {
    hide Refs, TabRefs;
    idx := 0;
    if cur.None? {
      return -EINVAL, 0;
    }
    var slot := 1;
    while slot < NPROC && k.procs[slot].Some?
      invariant 1 <= slot <= NPROC && forall i :: 1 <= i < slot ==> k.procs[i].Some?
    {
      slot := slot + 1;
    }
    idx := slot;
    if slot == NPROC {
      return -EMPROC, idx;
    }
    if !memory {
      return -ENOMEM, idx;
    }
    ghost var h := k.held;
    var child := CloneTab(k, cur.value);
    if !cloned {
      CloseTab(k, child, h);
      return -ENOMEM, idx;
    }
    k.AddProcess(slot, child, h);
    if tid <= 0 {
      k.RemoveProcess(slot);
      assert k.procs == old(k.procs);
      CloseTab(k, child, h);
      return -EMTHR, idx;
    }
    return tid, idx;
  }

  /** process_exit: every reference of the process is given up. */
  method ExitCall(k: Kernel, p: nat)
    requires k.Valid() && p < NPROC && k.procs[p].Some?
    modifies k
    ensures k.Valid() && SameHeld(old(k.held), k.held)
    ensures k.procs == old(k.procs)[p := if p > 0 then None else Some(EmptyTab())]
  {
    hide Refs, TabRefs;
    for i := 0 to IOMAX
      invariant k.Valid() && SameHeld(old(k.held), k.held)
      invariant |k.procs| == NPROC && k.procs[p].Some? && k.procs == old(k.procs)[p := k.procs[p]]
      invariant forall j :: 0 <= j < i ==> k.procs[p].value[j].None?
    {
      if k.procs[p].value[i].Some? {
        CloseSlot(k, p, i);
      }
    }
    assert k.procs[p].value == EmptyTab();
    if p > 0 {
      forall o: nat ensures TabRefs(k.procs[p].value, o) == 0 {
        EmptyRefs(k.procs[p].value, o);
      }
      k.RemoveProcess(p);
    }
  }

  // ---- every run ----

  datatype Call =
    | Open(fd: int, result: Opened)
    | CloseFd(fd: int)
    | Pipe(wfd: int, rfd: int, memory: bool)
    | Dup(oldfd: int, newfd: int)
    | Fork(memory: bool, cloned: bool, tid: int)
    | Exit

  /** The call can be made: the process exists, and so does the object of a device that is opened. */
  predicate Happens(procs: seq<Option<IoTab>>, known: set<nat>, p: nat, c: Call) {
    && p < |procs| && procs[p].Some?
    && (c.Open? && c.result.Failed? ==> c.result.rc < 0) && (c.Open? && c.result.Device? ==> c.result.o in known)
  }

  /** An open put io into the slot rc, or failed. */
  ghost predicate OpenDone(procs: seq<Option<IoTab>>, known: set<nat>, p: nat, fd: int, result: Opened, rc: int, procs': seq<Option<IoTab>>)
    requires p < |procs| && procs[p].Some? && |procs[p].value| == IOMAX
  {
    var t := procs[p].value;
    if result.Failed? then rc == result.rc && procs' == procs
    else if fd >= IOMAX then rc == -EINVAL && procs' == procs
    else if fd < 0 && Full(t) then rc == -EMFILE && procs' == procs
    else
      && (if fd < 0 then FirstFree(t, rc) else rc == fd)
      && exists io: nat :: (if result.Device? then io == result.o else io !in known) && procs' == SetFd(procs, p, rc, Some(io))
  }

  /** A pipe put two new objects into two slots, or failed. */
  ghost predicate PipeDone(procs: seq<Option<IoTab>>, known: set<nat>, p: nat, wfd: int, rfd: int, memory: bool, rc: int, procs': seq<Option<IoTab>>)
    requires p < |procs| && procs[p].Some? && |procs[p].value| == IOMAX
  {
    var t := procs[p].value;
    && rc == (if SlotsAnswer(t, wfd, rfd) != 0 then SlotsAnswer(t, wfd, rfd) else if memory then 0 else -ENOMEM)
    && (rc != 0 ==> procs' == procs)
    && (rc == 0 ==> exists w, r, x: nat, y: nat ::
          && Empty(t, w) && Empty(t, r) && w != r && (wfd >= 0 ==> w == wfd) && (rfd >= 0 ==> r == rfd)
          && Lowest(t, wfd, w, -1) && Lowest(t, rfd, r, w)
          && x !in known && y !in known && x != y && procs' == SetFd(SetFd(procs, p, w, Some(x)), p, r, Some(y)))
  }

  ghost predicate DupDone(procs: seq<Option<IoTab>>, p: nat, oldfd: int, newfd: int, rc: int, procs': seq<Option<IoTab>>)
    requires p < |procs| && procs[p].Some? && |procs[p].value| == IOMAX
  {
    var t := procs[p].value;
    if !ValidFd(oldfd) || t[oldfd].None? || newfd >= IOMAX then rc == -EBADFD && procs' == procs
    else if newfd < 0 && Full(t) then rc == -EMFILE && procs' == procs
    else (if newfd < 0 then FirstFree(t, rc) else rc == newfd) && procs' == SetFd(procs, p, rc, t[oldfd])
  }

  ghost predicate ForkDone(procs: seq<Option<IoTab>>, p: nat, memory: bool, cloned: bool, tid: int, rc: int, procs': seq<Option<IoTab>>)
    requires p < |procs|
  {
    && rc == ForkAnswer(procs, memory, cloned, tid)
    && if rc < 0 then procs' == procs else exists idx: nat :: FirstProc(procs, idx) && procs' == procs[idx := procs[p]]
  }

  /** What one call does to the descriptor tables. */
  ghost predicate Effect(procs: seq<Option<IoTab>>, known: set<nat>, p: nat, c: Call, rc: int, procs': seq<Option<IoTab>>)
    requires p < |procs| && procs[p].Some? && |procs[p].value| == IOMAX
  {
    var t := procs[p].value;
    match c
    case Open(fd, result) => OpenDone(procs, known, p, fd, result, rc, procs')
    case CloseFd(fd) =>
      if ValidFd(fd) && t[fd].Some? then rc == 0 && procs' == SetFd(procs, p, fd, None) else rc == -EINVAL && procs' == procs
    case Pipe(wfd, rfd, memory) => PipeDone(procs, known, p, wfd, rfd, memory, rc, procs')
    case Dup(oldfd, newfd) => DupDone(procs, p, oldfd, newfd, rc, procs')
    case Fork(memory, cloned, tid) => ForkDone(procs, p, memory, cloned, tid, rc, procs')
    case Exit => rc == 0 && procs' == procs[p := if p > 0 then None else Some(EmptyTab())]
  }

  /** One call. */
  method Do(k: Kernel, p: nat, c: Call) returns (rc: int)
    requires k.Valid() && Happens(k.procs, k.refcnt.Keys, p, c)
    modifies k
    ensures k.Valid() && SameHeld(old(k.held), k.held) && TablesOk(old(k.procs))
    ensures Effect(old(k.procs), old(k.refcnt.Keys), p, c, rc, k.procs)
  {
    hide Refs, SameHeld, OpenDone, PipeDone, DupDone, ForkDone;
    match c {
      case Open(fd, result) => rc := DoOpen(k, p, fd, result);
      case CloseFd(fd) => rc := CloseCall(k, Some(p), fd);
      case Pipe(wfd, rfd, memory) => rc := DoPipe(k, p, wfd, rfd, memory);
      case Dup(oldfd, newfd) => rc := DoDup(k, p, oldfd, newfd);
      case Fork(memory, cloned, tid) => rc := DoFork(k, p, memory, cloned, tid);
      case Exit =>
        ExitCall(k, p);
        rc := 0;
    }
  }

  method DoOpen(k: Kernel, p: nat, fd: int, result: Opened) returns (rc: int)
    requires k.Valid() && Happens(k.procs, k.refcnt.Keys, p, Open(fd, result))
    modifies k
    ensures k.Valid() && SameHeld(old(k.held), k.held) && OpenDone(old(k.procs), old(k.refcnt.Keys), p, fd, result, rc, k.procs)
  {
    hide Refs, SameHeld;
    ghost var io;
    rc, io := OpenCall(k, Some(p), fd, result);
  }

  method DoPipe(k: Kernel, p: nat, wfd: int, rfd: int, memory: bool) returns (rc: int)
    requires k.Valid() && p < NPROC && k.procs[p].Some?
    modifies k
    ensures k.Valid() && SameHeld(old(k.held), k.held) && PipeDone(old(k.procs), old(k.refcnt.Keys), p, wfd, rfd, memory, rc, k.procs)
  {
    hide Refs, SameHeld, SlotsAnswer, BadSlots, NoTwo, Lowest;
    var w, r;
    rc, w, r := PipeCall(k, Some(p), wfd, rfd, memory);
    if rc == 0 {
      ghost var t := k.procs[p].value;
      ghost var x, y := t[w].value, t[r].value;
      assert k.procs == SetFd(SetFd(old(k.procs), p, w, Some(x)), p, r, Some(y));
    }
  }

  method DoDup(k: Kernel, p: nat, oldfd: int, newfd: int) returns (rc: int)
    requires k.Valid() && p < NPROC && k.procs[p].Some?
    modifies k
    ensures k.Valid() && SameHeld(old(k.held), k.held) && DupDone(old(k.procs), p, oldfd, newfd, rc, k.procs)
  {
    hide Refs, SameHeld;
    rc := DupCall(k, Some(p), oldfd, newfd);
  }

  method DoFork(k: Kernel, p: nat, memory: bool, cloned: bool, tid: int) returns (rc: int)
    requires k.Valid() && p < NPROC && k.procs[p].Some?
    modifies k
    ensures k.Valid() && SameHeld(old(k.held), k.held) && ForkDone(old(k.procs), p, memory, cloned, tid, rc, k.procs)
  {
    hide Refs, SameHeld;
    ghost var idx;
    rc, idx := ForkCall(k, Some(p), memory, cloned, tid);
  }

  /** Call i of a run: what it did, or that it could not be made. */
  ghost predicate CallDone(ps: seq<seq<Option<IoTab>>>, known: seq<set<nat>>, calls: seq<(nat, Call)>, rcs: seq<Option<int>>, i: nat)
    requires i < |calls| && |calls| < |ps| && |calls| < |known| && |calls| <= |rcs|
  {
    var (p, c) := calls[i];
    if Happens(ps[i], known[i], p, c)
    then rcs[i].Some? && |ps[i][p].value| == IOMAX && Effect(ps[i], known[i], p, c, rcs[i].value, ps[i + 1])
    else rcs[i].None? && ps[i + 1] == ps[i]
  }

  /** Whatever processes do, in any order, every count stays the number of references, and every call has on the
      descriptor tables the effect and the result stated. A call by a process that does not exist, or an open of a
      device that does not exist, does not happen. */
  method Run(k: Kernel, calls: seq<(nat, Call)>) returns (rcs: seq<Option<int>>, ghost ps: seq<seq<Option<IoTab>>>, ghost known: seq<set<nat>>)
    requires k.Valid()
    modifies k
    ensures k.Valid() && SameHeld(old(k.held), k.held)
    ensures |rcs| == |calls| && |ps| == |known| == |calls| + 1 && ps[0] == old(k.procs) && ps[|calls|] == k.procs
    ensures known[0] == old(k.refcnt.Keys) && known[|calls|] == k.refcnt.Keys
    ensures forall i: nat :: i < |calls| ==> CallDone(ps, known, calls, rcs, i)
  {
    hide Happens, Effect;
    rcs, ps, known := [], [k.procs], [k.refcnt.Keys];
    for i := 0 to |calls|
      invariant k.Valid() && SameHeld(old(k.held), k.held)
      invariant |rcs| == i && |ps| == |known| == i + 1 && ps[0] == old(k.procs) && ps[i] == k.procs
      invariant known[0] == old(k.refcnt.Keys) && known[i] == k.refcnt.Keys
      invariant forall j: nat :: j < i ==> CallDone(ps, known, calls[..i], rcs, j)
    {
      var (p, c) := calls[i];
      ghost var ps0, known0, rcs0 := ps, known, rcs;
      if Happens(k.procs, k.refcnt.Keys, p, c) {
        HappensIn(k.procs, k.refcnt.Keys, p, c);
        var rc := Do(k, p, c);
        rcs := rcs + [Some(rc)];
      } else {
        rcs := rcs + [None];
      }
      ps, known := ps + [k.procs], known + [k.refcnt.Keys];
      ghost var done := calls[..i + 1];
      forall j: nat | j < i + 1 ensures CallDone(ps, known, done, rcs, j) {
        if j < i {
          assert CallDone(ps0, known0, calls[..i], rcs0, j);
        }
      }
    }
    assert calls[..|calls|] == calls;
  }

  lemma HappensIn(procs: seq<Option<IoTab>>, known: set<nat>, p: nat, c: Call)
    requires Happens(procs, known, p, c) && TablesOk(procs)
    ensures p < NPROC && procs[p].Some? && |procs[p].value| == IOMAX
  {
  }

  /** An object that has been closed as often as it came into use is referred to by no slot and no kernel code;
      any other has a reference, and its close operation is still to run. */
  lemma ClosedMeaning(k: Kernel, o: nat)
    requires k.Valid() && o in k.refcnt
    ensures k.closes[o] == k.opens[o] || k.closes[o] + 1 == k.opens[o]
    ensures k.closes[o] == k.opens[o] <==> Refs(k.procs, o) == 0 && HeldOf(k.held, o) == 0
    ensures k.closes[o] == k.opens[o] ==> forall p, fd :: 0 <= p < NPROC && k.procs[p].Some? && 0 <= fd < IOMAX ==> k.procs[p].value[fd] != Some(o)
  {
    hide Refs;
    assert k.Balanced(o);
    forall p, fd | 0 <= p < NPROC && k.procs[p].Some? && 0 <= fd < IOMAX && k.procs[p].value[fd] == Some(o) ensures Refs(k.procs, o) >= 1 {
      SlotCounts(k.procs, p, fd, o);
    }
  }
}
