/** Reference counts of I/O objects across descriptor tables, fork and exit: kernel/io.c, kernel/syscall.c and
    kernel/process.c. Objects are named by number; what an object does when it is opened is a parameter. */
module IoRefs {
  import opened Base

  const IOMAX: nat := 16
  const NPROC: nat := 16

  type IoTab = seq<Option<nat>>

  // ---- counting references ----

  function One(x: Option<nat>, o: nat): nat {
    if x == Some(o) then 1 else 0
  }

  /** How many slots of a descriptor table refer to o. */
  function TabRefs(t: IoTab, o: nat): nat {
    if t == [] then 0 else TabRefs(t[..|t| - 1], o) + One(t[|t| - 1], o)
  }

  function ProcTab(p: Option<IoTab>): IoTab {
    if p.Some? then p.value else []
  }

  /** How many slots of all live processes refer to o. */
  function Refs(procs: seq<Option<IoTab>>, o: nat): nat {
    if procs == [] then 0 else Refs(procs[..|procs| - 1], o) + TabRefs(ProcTab(procs[|procs| - 1]), o)
  }

  lemma {:induction false} TabSlot(t: IoTab, i: nat, x: Option<nat>, o: nat)
    requires i < |t|
    ensures TabRefs(t[i := x], o) + One(t[i], o) == TabRefs(t, o) + One(x, o)
  {
    var u := t[i := x];
    var n := |t| - 1;
    if i == n {
      assert u[..n] == t[..n];
    } else {
      assert u[..n] == t[..n][i := x] && u[n] == t[n];
      TabSlot(t[..n], i, x, o);
    }
  }

  lemma {:induction false} ProcSlot(procs: seq<Option<IoTab>>, p: nat, q: Option<IoTab>, o: nat)
    requires p < |procs|
    ensures Refs(procs[p := q], o) + TabRefs(ProcTab(procs[p]), o) == Refs(procs, o) + TabRefs(ProcTab(q), o)
  {
    hide TabRefs, ProcTab;
    var u := procs[p := q];
    var n := |procs| - 1;
    if p == n {
      assert u[..n] == procs[..n];
    } else {
      assert u[..n] == procs[..n][p := q] && u[n] == procs[n];
      ProcSlot(procs[..n], p, q, o);
    }
  }

  /** Slot fd of process p set to x. */
  function SetFd(procs: seq<Option<IoTab>>, p: nat, fd: nat, x: Option<nat>): (r: seq<Option<IoTab>>)
    requires p < |procs| && procs[p].Some? && fd < |procs[p].value|
    ensures |r| == |procs| && r[p].Some? && |r[p].value| == |procs[p].value| && r[p].value[fd] == x
  {
    procs[p := Some(procs[p].value[fd := x])]
  }

  lemma SetFdTwice(procs: seq<Option<IoTab>>, p: nat, fd: nat, x: Option<nat>, y: Option<nat>)
    requires p < |procs| && procs[p].Some? && fd < |procs[p].value|
    ensures SetFd(SetFd(procs, p, fd, x), p, fd, y) == SetFd(procs, p, fd, y)
    ensures SetFd(procs, p, fd, procs[p].value[fd]) == procs
  {
    assert procs[p].value[fd := x][fd := y] == procs[p].value[fd := y];
    assert procs[p].value[fd := procs[p].value[fd]] == procs[p].value;
  }

  /** Changing one slot of one process. */
  lemma SlotChange(procs: seq<Option<IoTab>>, p: nat, fd: nat, x: Option<nat>, o: nat)
    requires p < |procs| && procs[p].Some? && fd < |procs[p].value|
    ensures Refs(SetFd(procs, p, fd, x), o) + One(procs[p].value[fd], o) == Refs(procs, o) + One(x, o)
  {
    hide TabRefs, Refs;
    TabSlot(procs[p].value, fd, x, o);
    ProcSlot(procs, p, Some(procs[p].value[fd := x]), o);
  }

  lemma TabSnoc(t: IoTab, x: Option<nat>, o: nat)
    ensures TabRefs(t + [x], o) == TabRefs(t, o) + One(x, o)
  {
    assert (t + [x])[..|t|] == t;
  }

  lemma {:induction false} EmptyRefs(t: IoTab, o: nat)
    requires forall i :: 0 <= i < |t| ==> t[i] == None
    ensures TabRefs(t, o) == 0
  {
    if t != [] {
      EmptyRefs(t[..|t| - 1], o);
    }
  }

  /** A slot of a live process counts. */
  lemma SlotCounts(procs: seq<Option<IoTab>>, p: nat, fd: nat, o: nat)
    requires p < |procs| && procs[p].Some? && fd < |procs[p].value| && procs[p].value[fd] == Some(o)
    ensures Refs(procs, o) >= 1
  {
    SlotChange(procs, p, fd, None, o);
  }

  /** References the kernel's own code holds. */
  function HeldOf(held: map<nat, nat>, o: nat): nat {
    if o in held then held[o] else 0
  }

  function Give(held: map<nat, nat>, x: Option<nat>): map<nat, nat> {
    if x.Some? then held[x.value := HeldOf(held, x.value) + 1] else held
  }

  function Drop(held: map<nat, nat>, x: Option<nat>): map<nat, nat> {
    if x.Some? && HeldOf(held, x.value) > 0 then held[x.value := HeldOf(held, x.value) - 1] else held
  }

  /** What an open gives back: an error, a new object, or the object of a device. */
  datatype Opened = Failed(rc: int) | Fresh | Device(o: nat)

  function EmptyTab(): (t: IoTab)
    ensures |t| == IOMAX && forall i :: 0 <= i < IOMAX ==> t[i] == None
  {
    seq(IOMAX, i => None)
  }

  /** Nothing but empty tables: no references. */
  lemma {:induction false} NoRefs(procs: seq<Option<IoTab>>, o: nat)
    requires forall p :: 0 <= p < |procs| ==> procs[p].None? || procs[p] == Some(EmptyTab())
    ensures Refs(procs, o) == 0
  {
    if procs != [] {
      var n := |procs| - 1;
      NoRefs(procs[..n], o);
      EmptyRefs(ProcTab(procs[n]), o);
    }
  }

  // ---- the objects ----

  class Kernel {
    /** The reference count of every object. */
    var refcnt: map<nat, nat>
    /** How often each object came into use and how often its close operation ran. */
    var opens: map<nat, nat>
    var closes: map<nat, nat>
    /** The descriptor tables of the live processes; process 0 always exists. */
    var procs: seq<Option<IoTab>>
    /** The number of the next object to be allocated. */
    var next: nat
    /** References that kernel code holds outside the tables. */
    ghost var held: map<nat, nat>

    /** Every count is the number of slots plus the kernel's own references, and an object has been closed once
        for every time it came into use, except while somebody still refers to it. */
    ghost predicate Valid()
      reads this
    {
      && TablesOk(procs)
      && refcnt.Keys == opens.Keys == closes.Keys
      && (forall o :: o in refcnt ==> o < next)
      && forall o: nat :: Balanced(o)
    }

    ghost predicate Balanced(o: nat)
      reads this
    {
      if o in refcnt && o in opens && o in closes then
        && refcnt[o] == Refs(procs, o) + HeldOf(held, o)
        && opens[o] == closes[o] + if refcnt[o] > 0 then 1 else 0
      else Refs(procs, o) == 0 && HeldOf(held, o) == 0
    }

    /** The state after procmgr_init: the main process with an empty table, and device objects nobody has opened. */
    constructor (devices: set<nat>, first: nat)
      requires forall o :: o in devices ==> o < first
      ensures Valid() && held == map[] && procs[0] == Some(EmptyTab()) && forall p :: 1 <= p < NPROC ==> procs[p].None?
      ensures refcnt == map o | o in devices :: 0
    {
      var none := map o | o in devices :: 0;
      refcnt, opens, closes := none, none, none;
      procs := [Some(EmptyTab())] + seq(NPROC - 1, i => None);
      next, held := first, map[];
      new;
      forall o: nat ensures Balanced(o) {
        NoRefs(procs, o);
      }
    }

    /** ioaddref */
    method AddRef(o: nat)
      requires Valid() && o in refcnt
      modifies this`refcnt, this`opens, this`held
      ensures Valid() && refcnt == old(refcnt)[o := old(refcnt)[o] + 1] && held == Give(old(held), Some(o))
    {
      hide Refs;
      assert Balanced(o);
      if refcnt[o] == 0 {
        opens := opens[o := opens[o] + 1];
      }
      refcnt := refcnt[o := refcnt[o] + 1];
      held := Give(held, Some(o));
      forall x: nat ensures Balanced(x) {
        assert old(Balanced(x));
      }
    }

    /** ioclose: the count cannot be zero here, and the close operation runs exactly when it becomes zero. */
    method Close(o: nat)
      requires Valid() && HeldOf(held, o) > 0
      modifies this`refcnt, this`closes, this`held
      ensures Valid() && held == Drop(old(held), Some(o))
      ensures o in old(refcnt) && old(refcnt)[o] > 0 && refcnt == old(refcnt)[o := old(refcnt)[o] - 1]
      ensures closes == if refcnt[o] == 0 then old(closes)[o := old(closes)[o] + 1] else old(closes)
    {
      hide Refs;
      assert Balanced(o);
      refcnt := refcnt[o := refcnt[o] - 1];
      if refcnt[o] == 0 {
        closes := closes[o := closes[o] + 1];
      }
      held := Drop(held, Some(o));
      forall x: nat ensures Balanced(x) {
        assert old(Balanced(x));
      }
    }

    /** A new object with one reference, as ioinit1 makes it. */
    method NewIo() returns (o: nat)
      requires Valid()
      modifies this`refcnt, this`opens, this`closes, this`held, this`next
      ensures Valid() && o !in old(refcnt) && refcnt == old(refcnt)[o := 1] && held == Give(old(held), Some(o))
    {
      hide Refs;
      assert Balanced(next);
      o := next;
      next := next + 1;
      refcnt, opens, closes := refcnt[o := 1], opens[o := 1], closes[o := 0];
      held := Give(held, Some(o));
      forall x: nat ensures Balanced(x) {
        assert old(Balanced(x));
      }
    }

    /** Store a reference the kernel holds, or nothing, in a slot; what the slot held is the kernel's now. */
    method SetSlot(p: nat, fd: nat, x: Option<nat>)
      requires Valid() && p < NPROC && procs[p].Some? && fd < IOMAX && (x.Some? ==> HeldOf(held, x.value) > 0)
      modifies this`procs, this`held
      ensures Valid() && procs == SetFd(old(procs), p, fd, x)
      ensures held == Give(Drop(old(held), x), old(procs)[p].value[fd])
    {
      hide Refs;
      var t := procs[p].value;
      procs := procs[p := Some(t[fd := x])];
      held := Give(Drop(held, x), t[fd]);
      forall o: nat ensures Balanced(o) {
        assert old(Balanced(o));
        SlotChange(old(procs), p, fd, x, o);
      }
    }

    /** Process p starts with a table whose references the kernel holds. */
    method AddProcess(p: nat, t: IoTab, ghost h: map<nat, nat>)
      requires Valid() && p < NPROC && procs[p].None? && |t| == IOMAX && HoldsTab(h, held, t)
      modifies this`procs, this`held
      ensures Valid() && procs == old(procs)[p := Some(t)] && held == h
    {
      hide Refs, TabRefs;
      procs := procs[p := Some(t)];
      held := h;
      forall o: nat ensures Balanced(o) {
        assert old(Balanced(o));
        NewTable(old(procs), p, t, o);
      }
    }

    /** Process p is gone; the kernel holds what its table referred to. */
    method RemoveProcess(p: nat)
      requires Valid() && 0 < p < NPROC && procs[p].Some?
      modifies this`procs, this`held
      ensures Valid() && procs == old(procs)[p := None] && HoldsTab(old(held), held, old(procs)[p].value)
    {
      hide Refs, TabRefs;
      ghost var t := procs[p].value;
      procs := procs[p := None];
      held := map o | o in held.Keys + Objects(t) :: HeldOf(held, o) + TabRefs(t, o);
      forall o: nat ensures HeldOf(held, o) == HeldOf(old(held), o) + TabRefs(t, o) {
        if o !in Objects(t) {
          NoObject(t, o);
        }
      }
      forall o: nat ensures Balanced(o) {
        assert old(Balanced(o));
        OldTable(old(procs), p, o);
      }
    }
  }

  lemma NewTable(procs: seq<Option<IoTab>>, p: nat, t: IoTab, o: nat)
    requires p < |procs| && procs[p].None?
    ensures Refs(procs[p := Some(t)], o) == Refs(procs, o) + TabRefs(t, o)
  {
    ProcSlot(procs, p, Some(t), o);
    assert TabRefs([], o) == 0;
  }

  lemma OldTable(procs: seq<Option<IoTab>>, p: nat, o: nat)
    requires p < |procs| && procs[p].Some?
    ensures Refs(procs[p := None], o) + TabRefs(procs[p].value, o) == Refs(procs, o)
  {
    ProcSlot(procs, p, None, o);
    assert TabRefs([], o) == 0;
  }

  /** The objects a table refers to. */
  function Objects(t: IoTab): set<nat> {
    set i | 0 <= i < |t| && t[i].Some? :: t[i].value
  }

  lemma {:induction false} NoObject(t: IoTab, o: nat)
    requires o !in Objects(t)
    ensures TabRefs(t, o) == 0
  {
    if t != [] {
      var n := |t| - 1;
      assert t[n] != Some(o);
      forall i | 0 <= i < n && t[..n][i].Some? ensures t[..n][i].value != o {
        assert t[i] == t[..n][i];
      }
      NoObject(t[..n], o);
    }
  }

  /** The kernel's references are those of h and those of table t. */
  ghost predicate HoldsTab(h: map<nat, nat>, h': map<nat, nat>, t: IoTab) {
    forall o: nat :: HeldOf(h', o) == HeldOf(h, o) + TabRefs(t, o)
  }

  ghost predicate TablesOk(procs: seq<Option<IoTab>>) {
    && |procs| == NPROC && procs[0].Some?
    && forall p :: 0 <= p < NPROC && procs[p].Some? ==> |procs[p].value| == IOMAX
  }
}
