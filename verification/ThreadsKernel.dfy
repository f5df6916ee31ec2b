/** The loops of kernel/thread.c, each proved to do what its step of the model says. */
module ThreadsKernel {
  import opened Base
  import opened Threads
  import opened ThreadsInv
  import opened ThreadsKin
  import opened ThreadsRun
  import opened ThreadsFamily
  import opened ThreadsLocks

  // ---- thread lists ----

  /** A thread as the lists see it: all lists share its one link. */
  class ThreadNode {
    const id: nat
    var listNext: ThreadNode?

    constructor (id: nat)
      ensures this.id == id && listNext == null
    {
      this.id, listNext := id, null;
    }
  }

  function Ids(c: seq<ThreadNode>): (r: seq<nat>)
    ensures |r| == |c| && forall i :: 0 <= i < |c| ==> r[i] == c[i].id
  {
    seq(|c|, i requires 0 <= i < |c| => c[i].id)
  }

  ghost function Follower(c: seq<ThreadNode>, i: nat): ThreadNode? {
    if i + 1 < |c| then c[i + 1] else null
  }

  /** struct thread_list with the operations on it. */
  class ThreadList {
    var head: ThreadNode?
    var tail: ThreadNode?
    ghost var contents: seq<ThreadNode>

    ghost predicate Valid()
      reads this, contents
    {
      && (forall i, j :: 0 <= i < j < |contents| ==> contents[i] != contents[j])
      && (if contents == [] then head == null && tail == null else head == contents[0] && tail == contents[|contents| - 1])
      && forall i :: 0 <= i < |contents| ==> contents[i].listNext == Follower(contents, i)
    }

    /** tlclear */
    constructor ()
      ensures Valid() && contents == []
    {
      head, tail, contents := null, null, [];
    }

    /** tlinsert: at the end. */
    method Insert(thr: ThreadNode)
      requires Valid() && thr !in contents
      modifies this, thr, contents
      ensures Valid() && contents == old(contents) + [thr]
      ensures forall n :: n in old(contents) && n != old(tail) ==> n.listNext == old(n.listNext)
    {
      thr.listNext := null;
      if tail != null {
        assert head != null;
        tail.listNext := thr;
      } else {
        assert head == null;
        head := thr;
      }
      tail := thr;
      contents := contents + [thr];
    }

    /** tlremove: the head, which is then linked to nothing. */
    method Remove() returns (thr: ThreadNode?)
      requires Valid()
      modifies this, contents
      ensures Valid()
      ensures thr == null <==> old(contents) == []
      ensures thr == null ==> contents == []
      ensures thr != null ==> old(contents) == [thr] + contents && thr.listNext == null
    {
      thr := head;
      if thr == null {
        return;
      }
      assert contents != [] && thr == contents[0];
      assert contents[0].listNext == Follower(contents, 0);
      ghost var rest := contents[1..];
      assert forall i :: 0 <= i < |rest| ==> rest[i] == contents[i + 1] && rest[i] != thr;
      assert thr.listNext == if rest == [] then null else rest[0];
      head := thr.listNext;
      if head != null {
        thr.listNext := null;
      } else {
        tail := null;
      }
      thr.listNext := null;
      contents := rest;
      assert forall i :: 0 <= i < |rest| ==> rest[i].listNext == old(rest[i].listNext);
    }
  }

  /** No thread is on both lists. */
  ghost predicate Apart(a: ThreadList, b: ThreadList)
    reads a, b
  {
    a != b && forall n :: n in a.contents ==> n !in b.contents
  }

  /** tlremove on one list leaves any other alone. */
  method TakeFrom(wait: ThreadList, ghost other: ThreadList) returns (thr: ThreadNode?)
    requires wait.Valid() && other.Valid() && Apart(wait, other)
    modifies wait, wait.contents
    ensures wait.Valid() && other.Valid() && Apart(wait, other) && other.contents == old(other.contents)
    ensures thr == null ==> old(wait.contents) == [] == wait.contents
    ensures thr != null ==> old(wait.contents) == [thr] + wait.contents && thr !in wait.contents && thr !in other.contents && thr in old(wait.contents)
  {
    ListDistinct(wait);
    hide ThreadList.Valid;
    thr := wait.Remove();
    assert thr != null ==> thr == old(wait.contents)[0] && wait.contents == old(wait.contents)[1..];
    forall n | n in other.contents ensures n.listNext == old(n.listNext) {
      assert n !in old(wait.contents);
    }
    Untouched(other);
  }

  /** A list is what it was when its threads are linked as they were. */
  twostate lemma Untouched(l: ThreadList)
    requires old(l.Valid()) && l.contents == old(l.contents) && l.head == old(l.head) && l.tail == old(l.tail)
    requires forall n :: n in l.contents ==> n.listNext == old(n.listNext)
    ensures l.Valid()
  {
  }

  /** tlinsert on one list leaves any other alone. */
  method GiveTo(ready: ThreadList, thr: ThreadNode, ghost other: ThreadList)
    requires ready.Valid() && other.Valid() && Apart(ready, other) && thr !in ready.contents && thr !in other.contents
    modifies ready, thr, ready.contents
    ensures ready.Valid() && other.Valid() && Apart(ready, other) && other.contents == old(other.contents)
    ensures ready.contents == old(ready.contents) + [thr]
  {
    hide ThreadList.Valid;
    ready.Insert(thr);
    forall n | n in other.contents ensures n.listNext == old(n.listNext) {
      assert n !in old(ready.contents);
    }
    Untouched(other);
  }

  /** One turn of the loop of condition_broadcast on the linked lists. */
  method MoveOne(wait: ThreadList, ready: ThreadList) returns (moved: bool)
    requires wait.Valid() && ready.Valid() && Apart(wait, ready) && Apart(ready, wait)
    modifies wait, ready, wait.contents, ready.contents
    ensures wait.Valid() && ready.Valid() && Apart(wait, ready) && Apart(ready, wait)
    ensures moved <==> old(wait.contents) != []
    ensures !moved ==> wait.contents == [] && ready.contents == old(ready.contents)
    ensures moved ==> wait.contents == old(wait.contents)[1..] && ready.contents == old(ready.contents) + [old(wait.contents)[0]]
  {
    hide ThreadList.Valid;
    var t := TakeFrom(wait, ready);
    moved := t != null;
    if t != null {
      GiveTo(ready, t, wait);
    }
  }

  lemma ListDistinct(l: ThreadList)
    requires l.Valid()
    ensures l.contents != [] ==> l.contents[0] !in l.contents[1..]
  {
  }

  /** The loop of condition_broadcast on the linked lists: the waiters go to the end of the ready list in order,
      although both lists are linked through the same field. */
  method DrainTo(wait: ThreadList, ready: ThreadList, ghost s: State, ghost c: Cond)
    requires wait.Valid() && ready.Valid() && Apart(wait, ready) && Apart(ready, wait)
    requires Ids(ready.contents) == s.ready && Ids(wait.contents) == Waiters(s, c)
    modifies wait, ready, wait.contents, ready.contents
    ensures wait.Valid() && ready.Valid() && Apart(wait, ready) && Apart(ready, wait)
    ensures Ids(ready.contents) == Broadcast(s, c).ready && Ids(wait.contents) == Waiters(Broadcast(s, c), c)
  {
    hide ThreadList.Valid;
    ghost var w, r, k := wait.contents, ready.contents, 0;
    var moved := true;
    assert w[0..] == w && w[..0] == [] && r + [] == r;
    while moved
      invariant 0 <= k <= |w| && (!moved ==> k == |w|)
      invariant wait.Valid() && ready.Valid() && Apart(wait, ready) && Apart(ready, wait)
      invariant wait.contents == w[k..] && ready.contents == r + w[..k]
      decreases |w| - k, moved
    {
      moved := MoveOne(wait, ready);
      if moved {
        assert w[..k + 1] == w[..k] + [w[k]] && w[k..][1..] == w[k + 1..];
        k := k + 1;
      }
    }
    IdsAppend(r, w);
    assert w[..|w|] == w;
  }

  lemma IdsAppend(a: seq<ThreadNode>, b: seq<ThreadNode>)
    ensures Ids(a + b) == Ids(a) + Ids(b)
  {
  }

  // ---- the manager ----

  /** A list with the first k waiters moved over. */
  function WokenBy(thr: map<nat, Thread>, w: seq<nat>): map<nat, Thread> {
    map u | u in thr :: if u in w then thr[u].(st := Ready, cond := None) else thr[u]
  }

  class Manager {
    var thr: map<nat, Thread>
    var tab: seq<Option<nat>>
    var ready: seq<nat>
    var waits: map<Cond, seq<nat>>
    var locks: map<nat, Lock>
    var tp: nat
    var births: nat

    function Now(): State
      reads this
    {
      State(thr, tab, ready, waits, locks, tp, births)
    }

    /** condition_broadcast */
    method BroadcastCond(c: Cond)
      requires forall u :: u in Waiters(Now(), c) ==> u in thr
      requires NoDup(Waiters(Now(), c))
      modifies this`thr, this`ready, this`waits
      ensures Now() == Broadcast(old(Now()), c)
    {
      ghost var w, k := Waiters(Now(), c), 0;
      waits := waits[c := Waiters(Now(), c)];
      assert WokenBy(thr, w[..0]) == thr;
      while waits[c] != []
        invariant 0 <= k <= |w| && c in waits && waits == old(waits)[c := w[k..]]
        invariant ready == old(ready) + w[..k] && thr == WokenBy(old(thr), w[..k])
        decreases |w| - k
      {
        var t := waits[c][0];
        assert t == w[k] && w[k..][1..] == w[k + 1..] && w[..k + 1] == w[..k] + [t];
        waits := waits[c := waits[c][1..]];
        thr := thr[t := thr[t].(cond := None, st := Ready)];
        ready := ready + [t];
        k := k + 1;
      }
      assert w[..k] == w;
    }

    /** The slot search of create_thread; NTHR stands for none. */
    method FindSlot() returns (tid: nat)
      requires |tab| == NTHR
      ensures FreeSlot(tab, 1) == if tid == NTHR then None else Some(tid)
    {
      tid := 1;
      while tid < NTHR && tab[tid].Some?
        invariant 1 <= tid <= NTHR && FreeSlot(tab, 1) == FreeSlot(tab, tid)
      {
        tid := tid + 1;
      }
    }

    /** create_thread, and thread_spawn up to the insertion: the child's slot number, or -EMTHR when all are taken. */
    method CreateThread() returns (rc: int)
      requires Inv(Now()) && Enabled(Now(), DoSpawn)
      modifies this`thr, this`tab, this`births
      ensures Now() == Step(old(Now()), DoSpawn)
      ensures rc == -EMTHR <==> forall i :: 1 <= i < NTHR ==> old(tab)[i].Some?
      ensures rc == -EMTHR ==> Now() == old(Now())
      ensures rc != -EMTHR ==> 1 <= rc < NTHR && old(tab)[rc].None? && forall i :: 1 <= i < rc ==> old(tab)[i].Some?
    {
      hide Inv, TableOk, ParentsOk, StatesOk, FreeSlot, Enabled;
      ghost var s := Now();
      InvParts(s);
      TableLength(s);
      NotBorn(s);
      var tid := FindSlot();
      SlotFound(tab, tid);
      SpawnBranches(s, tid);
      hide Step;
      if tid == NTHR {
        return -EMTHR;
      }
      thr := thr[births := Thread(tid, Ready, None, Some(tp), Code(Caller), [])];
      thr := thr[tp := thr[tp].(pc := SpawnMarked(births))];
      tab := tab[tid := Some(births)];
      births := births + 1;
      return tid;
    }

    /** The scan of thread_join: an exited match if there is one, and whether anything matches at all. */
    method ScanChildren(tid: nat) returns (exited: Option<nat>, hasMatch: bool)
      requires |tab| == NTHR
      ensures exited == FirstReapable(Now(), tp, tid, 1)
      ensures exited.None? ==> hasMatch == AnyMatch(Now(), tp, tid)
    {
      hasMatch := false;
      var i := 1;
      while i < NTHR
        invariant 1 <= i <= NTHR && FirstReapable(Now(), tp, tid, 1) == FirstReapable(Now(), tp, tid, i)
        invariant hasMatch <==> exists j :: 1 <= j < i && Matches(Now(), tp, tid, j)
      {
        if tab[i].Some? && tab[i].value in thr && thr[tab[i].value].parent == Some(tp) && (tid == 0 || i == tid) {
          assert Matches(Now(), tp, tid, i);
          hasMatch := true;
          if thr[tab[i].value].st == Exited {
            return Some(i), true;
          }
        }
        i := i + 1;
      }
      exited := None;
    }

    /** thread_reclaim: the children go to the parent, the slot becomes free. */
    method ReclaimThread(tid: nat)
      requires TableOk(Now()) && 0 < tid < NTHR && tab[tid].Some? && tab[tid].value in thr && thr[MAIN].parent == None
      modifies this`thr, this`tab
      ensures Now() == Reclaim(old(Now()), tid)
    {
      hide TableOk;
      TableLength(Now());
      var u := tab[tid].value;
      ghost var s0 := Now();
      var parent := thr[u].parent;
      AdoptStart(s0, u);
      var ctid := 1;
      while ctid < NTHR
        invariant 1 <= ctid <= NTHR == |tab| && tab == s0.tab && thr == AdoptedBelow(s0, u, ctid)
      {
        AdoptNext(s0, u, ctid);
        if tab[ctid].Some? && tab[ctid].value in thr {
          var v := tab[ctid].value;
          if thr[v].parent == Some(u) {
            thr := thr[v := thr[v].(parent := parent)];
          }
        }
        ctid := ctid + 1;
      }
      AllAdopted(s0, u);
      thr := thr - {u};
      tab := tab[tid := None];
    }

    /** One round of the loop of thread_join. No result means that the caller waits and will come round again. */
    method JoinRound(tid: nat) returns (rc: Option<int>)
      requires Inv(Now()) && Enabled(Now(), DoJoin(tid))
      modifies this`thr, this`tab
      ensures Now() == Step(old(Now()), DoJoin(tid)) && Inv(Now())
      ensures forall c :: FirstExited(old(Now()), tp, tid, c) ==> rc == Some(old(thr)[c].id)
      ensures rc == Some(-EINVAL) <==> forall c :: !Child(old(Now()), tp, tid, c)
      ensures rc.None? <==> (exists c :: Child(old(Now()), tp, tid, c)) && forall c :: Child(old(Now()), tp, tid, c) ==> old(thr)[c].st != Exited
    {
      hide Inv, TableOk, ParentsOk, StatesOk, FirstReapable, AnyMatch, Reclaim, Join;
      ghost var s := Now();
      InvParts(s);
      StepInv(s, DoJoin(tid));
      assert Step(s, DoJoin(tid)) == Join(s, tid);
      ScanFinds(s, tp, tid);
      NoMatch(s, tp, tid);
      TableLength(s);
      MainAlone(s);
      var exited, hasMatch := ScanChildren(tid);
      JoinBranches(s, tid, exited, hasMatch);
      if exited.Some? {
        assert tab[exited.value].value in thr;
        OneExited(s, tp, tid, tab[exited.value].value);
        thr := thr[tp := thr[tp].(pc := Code(Caller))];
        SameTable(s, Now());
        ReclaimThread(exited.value);
        return Some(exited.value);
      }
      if !hasMatch {
        thr := thr[tp := thr[tp].(pc := Code(Caller))];
        return Some(-EINVAL);
      }
      thr := thr[tp := thr[tp].(st := Waiting, cond := Some(ChildExit(tp)), pc := WaitMarked(Joining(tid)))];
      return None;
    }

    /** lock_release */
    method ReleaseLock(l: nat)
      requires Inv(Now()) && l in locks && thr[tp].pc == Code(Caller)
      modifies this`thr, this`ready, this`waits, this`locks
      ensures Now() == Release(old(Now()), l) && Inv(Now())
    {
      hide Inv, Release;
      InvTp(Now());
      ReleaseInv(Now(), l);
      ghost var s0 := Now();
      if locks[l].owner != Some(tp) {
        ReleaseCases(s0, l);
        return;
      }
      if locks[l].count > 1 {
        locks := locks[l := Lock(Some(tp), locks[l].count - 1)];
        ReleaseCases(s0, l);
        return;
      }
      var held := UnlinkLock(thr[tp].locks, l);
      thr := thr[tp := thr[tp].(locks := held)];
      locks := locks[l := Lock(None, 0)];
      DroppedWaiters(s0, l);
      BroadcastCond(LockCv(l));
      ReleaseCases(s0, l);
    }

    /** The loop at the start of thread_exit: it ends, because every round gives up one recursion level of one
        lock, and then nothing is held. It does nothing but release. */
    method DrainLocks() returns (ghost acts: seq<Action>)
      requires Inv(Now()) && thr[tp].pc == Code(Caller) && tp != IDLE
      modifies this`thr, this`ready, this`waits, this`locks
      ensures Inv(Now()) && tp in thr && thr[tp].locks == [] && thr[tp].pc == Code(Caller)
      ensures Possible(old(Now()), acts) && Now() == After(old(Now()), acts) && forall i :: 0 <= i < |acts| ==> acts[i].DoRelease?
    {
      hide Inv, Release, Possible, After;
      InvTp(Now());
      acts := [];
      NoSteps(Now());
      while thr[tp].locks != []
        invariant Inv(Now()) && tp in thr && thr[tp].pc == Code(Caller)
        invariant Possible(old(Now()), acts) && Now() == After(old(Now()), acts) && forall i :: 0 <= i < |acts| ==> acts[i].DoRelease?
        decreases Depth(locks, thr[tp].locks)
      {
        DrainStep(Now());
        var l := thr[tp].locks[0];
        assert Step(Now(), DoRelease(l)) == Release(Now(), l);
        OneStepMore(old(Now()), acts, DoRelease(l));
        ReleaseLock(l);
        acts := acts + [DoRelease(l)];
      }
    }
  }

  lemma NoSteps(s: State)
    ensures Possible(s, []) && After(s, []) == s
  {
  }

  lemma {:induction false} OneStepMore(s: State, acts: seq<Action>, a: Action)
    requires Possible(s, acts) && After(s, acts).tp in After(s, acts).thr && Enabled(After(s, acts), a)
    ensures Possible(s, acts + [a]) && After(s, acts + [a]) == Step(After(s, acts), a)
    decreases |acts|
  {
    if acts == [] {
      assert [] + [a] == [a] && [a][1..] == [];
    } else {
      assert (acts + [a])[1..] == acts[1..] + [a];
      hide Step, Enabled;
      OneStepMore(Step(s, acts[0]), acts[1..], a);
    }
  }

  lemma SpawnBranches(s: State, tid: nat)
    requires s.tp in s.thr && Enabled(s, DoSpawn) && FreeSlot(s.tab, 1) == (if tid == NTHR then None else Some(tid))
    ensures tid == NTHR ==> Step(s, DoSpawn) == s
    ensures tid != NTHR ==>
      var born := s.thr[s.births := Thread(tid, Ready, None, Some(s.tp), Code(Caller), [])];
      tid < |s.tab| && Step(s, DoSpawn) ==
        s.(thr := born[s.tp := s.thr[s.tp].(pc := SpawnMarked(s.births))], tab := s.tab[tid := Some(s.births)], births := s.births + 1)
  {
    hide FreeSlot;
  }

  lemma SlotFound(tab: seq<Option<nat>>, tid: nat)
    requires |tab| == NTHR && FreeSlot(tab, 1) == if tid == NTHR then None else Some(tid)
    ensures tid == NTHR <==> forall i :: 1 <= i < NTHR ==> tab[i].Some?
    ensures tid != NTHR ==> 1 <= tid < NTHR && tab[tid].None? && forall i :: 1 <= i < tid ==> tab[i].Some?
  {
    AllTaken(tab, 1);
  }

  lemma {:induction false} AllTaken(tab: seq<Option<nat>>, k: nat)
    ensures var r := FreeSlot(tab, k);
      if r.None? then forall i :: k <= i < |tab| ==> tab[i].Some? else forall i :: k <= i < r.value ==> tab[i].Some?
    decreases |tab| - k
  {
    if k < |tab| {
      AllTaken(tab, k + 1);
    }
  }

  lemma MainAlone(s: State)
    requires ParentsOk(s)
    ensures MAIN in s.thr && s.thr[MAIN].parent == None
  {
  }

  /** A thread that moves on in its code leaves the table as it is. */
  lemma SameTable(s: State, s': State)
    requires TableOk(s) && ParentsOk(s) && s' == Put(s, s.tp, s.thr[s.tp].(pc := Code(Caller)))
    ensures TableOk(s') && s'.thr[MAIN].parent == None
  {
    KinTable(s, s');
  }

  lemma OneExited(s: State, u: nat, tid: nat, c: nat)
    requires TableOk(s) && FirstExited(s, u, tid, c)
    ensures forall d :: FirstExited(s, u, tid, d) ==> d == c
  {
    forall d | FirstExited(s, u, tid, d) ensures d == c {
      SameSlot(s, u, tid, c, d);
    }
  }

  lemma JoinBranches(s: State, tid: nat, exited: Option<nat>, hasMatch: bool)
    requires s.tp in s.thr && exited == FirstReapable(s, s.tp, tid, 1) && (exited.None? ==> hasMatch == AnyMatch(s, s.tp, tid))
    ensures exited.Some? ==> 1 <= exited.value < |s.tab| && s.tab[exited.value].Some? && s.tab[exited.value].value in s.thr
    ensures var s1 := Put(s, s.tp, s.thr[s.tp].(pc := Code(Caller)));
      Join(s, tid) == if exited.Some? then Reclaim(s1, exited.value) else if !hasMatch then s1 else MarkWait(s, ChildExit(s.tp), Joining(tid))
  {
    hide AnyMatch, Reclaim;
  }

  /** The unlinking loop of lock_release. */
  method UnlinkLock(ls: seq<nat>, l: nat) returns (r: seq<nat>)
    ensures r == Unlink(ls, l)
  {
    hide Unlink;
    assert ls[..0] == [] && ls[0..] == ls && [] + Unlink(ls, l) == Unlink(ls, l);
    var i := 0;
    while i < |ls| && ls[i] != l
      invariant 0 <= i <= |ls| && Unlink(ls, l) == ls[..i] + Unlink(ls[i..], l)
    {
      UnlinkHead(ls, l, i);
      i := i + 1;
    }
    UnlinkHead(ls, l, i);
    if i < |ls| {
      r := ls[..i] + ls[i + 1..];
    } else {
      assert ls[..i] == ls && ls + [] == ls;
      r := ls;
    }
  }

  lemma UnlinkHead(ls: seq<nat>, l: nat, i: nat)
    requires i <= |ls|
    ensures i == |ls| ==> Unlink(ls[i..], l) == []
    ensures i < |ls| && ls[i] == l ==> Unlink(ls[i..], l) == ls[i + 1..]
    ensures i < |ls| && ls[i] != l ==> ls[..i] + Unlink(ls[i..], l) == ls[..i + 1] + Unlink(ls[i + 1..], l)
  {
    if i < |ls| {
      assert ls[i..][0] == ls[i] && ls[i..][1..] == ls[i + 1..] && ls[..i + 1] == ls[..i] + [ls[i]];
      var rest := Unlink(ls[i + 1..], l);
      assert ls[..i] + ([ls[i]] + rest) == ls[..i] + [ls[i]] + rest;
    }
  }

  /** Thread v after the scan of thread_reclaim has passed the slots below n. */
  function AdoptOne(s: State, u: nat, v: nat, n: nat): Thread
    requires u in s.thr && v in s.thr
  {
    if s.thr[v].parent == Some(u) && s.thr[v].id < n then s.thr[v].(parent := s.thr[u].parent) else s.thr[v]
  }

  function AdoptedBelow(s: State, u: nat, n: nat): map<nat, Thread>
    requires u in s.thr
  {
    map v | v in s.thr :: AdoptOne(s, u, v, n)
  }

  lemma TableLength(s: State)
    requires TableOk(s)
    ensures |s.tab| == NTHR
  {
  }

  /** Slot 0 is main's, which has no parent. */
  lemma AdoptStart(s: State, u: nat)
    requires TableOk(s) && u in s.thr && s.thr[MAIN].parent == None
    ensures AdoptedBelow(s, u, 1) == s.thr
  {
    forall v | v in s.thr ensures AdoptOne(s, u, v, 1) == s.thr[v] {
      assert ThreadSlot(s, v) && ThreadSlot(s, MAIN);
    }
  }

  lemma AdoptNext(s: State, u: nat, i: nat)
    requires TableOk(s) && u in s.thr && i < NTHR
    ensures s.tab[i].Some? && s.tab[i].value in s.thr ==>
      && AdoptedBelow(s, u, i)[s.tab[i].value] == s.thr[s.tab[i].value]
      && (s.thr[s.tab[i].value].parent == Some(u) ==>
            AdoptedBelow(s, u, i + 1) == AdoptedBelow(s, u, i)[s.tab[i].value := s.thr[s.tab[i].value].(parent := s.thr[u].parent)])
      && (s.thr[s.tab[i].value].parent != Some(u) ==> AdoptedBelow(s, u, i + 1) == AdoptedBelow(s, u, i))
    ensures !(s.tab[i].Some? && s.tab[i].value in s.thr) ==> AdoptedBelow(s, u, i + 1) == AdoptedBelow(s, u, i)
  {
    assert SlotThread(s, i);
    forall w | w in s.thr ensures s.thr[w].id == i ==> s.tab[i] == Some(w) {
      assert ThreadSlot(s, w);
    }
    hide TableOk;
    if s.tab[i].Some? && s.tab[i].value in s.thr && s.thr[s.tab[i].value].parent == Some(u) {
      assert AdoptedBelow(s, u, i + 1) == AdoptedBelow(s, u, i)[s.tab[i].value := s.thr[s.tab[i].value].(parent := s.thr[u].parent)];
    } else {
      assert AdoptedBelow(s, u, i + 1) == AdoptedBelow(s, u, i);
    }
  }

  lemma AllAdopted(s: State, u: nat)
    requires TableOk(s) && u in s.thr
    ensures AdoptedBelow(s, u, NTHR) - {u} == Adopted(s, u)
  {
    forall v | v in s.thr ensures s.thr[v].id < NTHR {
      assert ThreadSlot(s, v);
    }
    hide TableOk;
    assert AdoptedBelow(s, u, NTHR) - {u} == Adopted(s, u);
  }

  lemma ReleaseCases(s: State, l: nat)
    requires s.tp in s.thr && l in s.locks
    ensures s.locks[l].owner != Some(s.tp) ==> Release(s, l) == s
    ensures s.locks[l].owner == Some(s.tp) && s.locks[l].count > 1 ==>
      Release(s, l) == s.(locks := s.locks[l := Lock(Some(s.tp), s.locks[l].count - 1)])
    ensures s.locks[l].owner == Some(s.tp) && s.locks[l].count <= 1 ==> Release(s, l) == Broadcast(Dropped(s, l), LockCv(l))
  {
    hide Broadcast, Unlink;
  }

  lemma DroppedWaiters(s: State, l: nat)
    requires Inv(s) && l in s.locks
    ensures s.tp in s.thr
    ensures forall u :: u in Waiters(Dropped(s, l), LockCv(l)) ==> u in s.thr
    ensures NoDup(Waiters(Dropped(s, l), LockCv(l)))
  {
    hide StatesOk, JoinsOk, LocksOk, ParentsOk, NoDup;
    assert Waiters(Dropped(s, l), LockCv(l)) == Waiters(s, LockCv(l));
    hide Waiters;
  }

  /** How many releases it takes to give up these locks. */
  ghost function Depth(locks: map<nat, Lock>, ls: seq<nat>): nat {
    if ls == [] then 0
    else (if ls[0] in locks then locks[ls[0]].count else 0) + Depth(locks, ls[1..])
  }

  lemma {:induction false} DepthSame(a: map<nat, Lock>, b: map<nat, Lock>, ls: seq<nat>, l: nat)
    requires l !in ls && forall k :: k != l ==> (k in a <==> k in b) && (k in a ==> a[k] == b[k])
    ensures Depth(a, ls) == Depth(b, ls)
  {
    if ls != [] {
      assert ls[0] != l;
      DepthSame(a, b, ls[1..], l);
    }
  }

  /** Releasing the head of the list costs one. */
  lemma DrainStep(s: State)
    requires Inv(s) && s.tp in s.thr && s.thr[s.tp].locks != [] && s.thr[s.tp].pc == Code(Caller)
    ensures s.thr[s.tp].locks[0] in s.locks
    ensures var s' := Release(s, s.thr[s.tp].locks[0]);
      s'.tp in s'.thr && s'.tp == s.tp && s'.thr[s.tp].pc == Code(Caller) && Depth(s'.locks, s'.thr[s.tp].locks) < Depth(s.locks, s.thr[s.tp].locks)
  {
    hide Inv, Waiters, Unlink, NoDup;
    var ls := s.thr[s.tp].locks;
    var l := ls[0];
    HeldFacts(s, l);
    TailDistinct(ls);
    UnlinkFirst(ls);
    var s' := Release(s, l);
    DepthSame(s.locks, s'.locks, ls[1..], l);
  }

  lemma UnlinkFirst(ls: seq<nat>)
    requires ls != []
    ensures Unlink(ls, ls[0]) == ls[1..]
  {
  }

  /** What the invariant says about a lock on the running thread's list. */
  lemma HeldFacts(s: State, l: nat)
    requires Inv(s) && s.tp in s.thr && l in s.thr[s.tp].locks && s.thr[s.tp].pc == Code(Caller)
    ensures l in s.locks && s.locks[l].owner == Some(s.tp) && s.locks[l].count >= 1 && NoDup(s.thr[s.tp].locks)
    ensures forall k :: k in s.thr[s.tp].locks ==> k in s.locks
    ensures s.tp !in Waiters(s, LockCv(l))
  {
    SelfUnlisted(s);
    hide TableOk, ListsOk, StatesOk, IdleOk, ParentsOk, JoinsOk, Waiters;
    assert HoldsOk(s, s.tp) && LockOk(s, l);
  }
}
