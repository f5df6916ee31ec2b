/** What every step of the thread manager keeps. */
module ThreadsInv {
  import opened Base
  import opened Threads

  /** A thread is in the slot its id names. */
  ghost predicate ThreadSlot(s: State, u: nat)
    requires u in s.thr
  {
    u < s.births && s.thr[u].id < |s.tab| && s.tab[s.thr[u].id] == Some(u)
  }

  ghost predicate SlotThread(s: State, i: nat) {
    i < |s.tab| && s.tab[i].Some? ==> s.tab[i].value in s.thr && s.thr[s.tab[i].value].id == i
  }

  /** The table and the threads match. */
  ghost predicate TableOk(s: State) {
    && |s.tab| == NTHR && s.tp in s.thr && MAIN in s.thr && IDLE in s.thr
    && s.thr[MAIN].id == 0
    && (forall u :: u in s.thr ==> ThreadSlot(s, u))
    && forall i: nat :: SlotThread(s, i)
  }

  /** A listed thread has the state its list stands for, so it is on one list only and once. */
  ghost predicate ListsOk(s: State) {
    && NoDup(s.ready) && (forall c :: NoDup(Waiters(s, c)))
    && (forall u :: u in s.ready ==> u in s.thr && s.thr[u].st == Ready)
    && forall c, u :: u in Waiters(s, c) ==> u in s.thr && s.thr[u].st == Waiting && s.thr[u].cond == Some(c)
  }

  /** A ready thread is on the ready list, a waiting one on the list of its condition, except in the short
      windows of thread_spawn and condition_wait. */
  ghost predicate PlacedOk(s: State, u: nat)
    requires s.tp in s.thr && u in s.thr
  {
    match s.thr[u].st
    case Ready => u in s.ready || s.thr[s.tp].pc == SpawnMarked(u)
    case Waiting => s.thr[u].cond.Some? && (u in Waiters(s, s.thr[u].cond.value) || (u == s.tp && s.thr[s.tp].pc.WaitMarked?))
    case Self => u == s.tp
    case Exited => s.thr[u].pc == ExitMarked && s.thr[u].locks == []
  }

  /** The running thread's state follows from where it is; any other thread waits to continue. */
  ghost predicate PcOk(s: State, u: nat)
    requires s.tp in s.thr && u in s.thr
  {
    var t := s.thr[u];
    if u == s.tp then
      match t.pc
      case Code(_) => t.st == Self
      case SpawnMarked(c) => t.st == Self && c in s.thr && c != u && s.thr[c].st == Ready && c !in s.ready && s.thr[c].pc == Code(Caller)
      case WaitMarked(_) => t.st == Waiting && t.cond.Some? && u !in Waiters(s, t.cond.value)
      case WaitListed(_) => t.st == Waiting || t.st == Ready
      case ExitMarked => t.st == Exited
    else if t.st == Exited then t.pc == ExitMarked else t.pc.Code?
  }

  ghost predicate StatesOk(s: State)
    requires s.tp in s.thr
  {
    forall u :: u in s.thr ==> PlacedOk(s, u) && PcOk(s, u)
  }

  /** The idle thread is running or ready. */
  ghost predicate IdleOk(s: State) {
    && IDLE in s.thr && (s.thr[IDLE].st == Self || s.thr[IDLE].st == Ready) && s.thr[IDLE].pc == Code(Caller)
    && (s.tp in s.thr ==> s.thr[s.tp].pc != SpawnMarked(IDLE))
  }

  /** Parents come before their children, so the parent pointers form a tree with main at its root, and none
      leads out of the table. */
  ghost predicate ParentsOk(s: State) {
    && MAIN in s.thr && s.thr[MAIN].parent == None
    && forall u :: u in s.thr && u != MAIN ==> s.thr[u].parent.Some? && s.thr[u].parent.value < u && s.thr[u].parent.value in s.thr
  }

  function ContOf(pc: Pc): Cont {
    match pc
    case Code(k) => k
    case WaitMarked(k) => k
    case WaitListed(k) => k
    case _ => Caller
  }

  /** c is a child of u that join(tid) is about and that has not exited. */
  ghost predicate LiveChild(s: State, u: nat, tid: nat, c: nat) {
    c in s.thr && s.thr[c].parent == Some(u) && (tid == 0 || s.thr[c].id == tid) && s.thr[c].st != Exited
  }

  /** A thread that waits for a child waits on its own condition, and some matching child is still alive. */
  ghost predicate JoinOk(s: State, u: nat)
    requires u in s.thr
  {
    s.thr[u].st == Waiting && s.thr[u].cond.Some? && s.thr[u].cond.value.ChildExit? ==>
      && s.thr[u].cond.value.thread == u
      && ContOf(s.thr[u].pc).Joining?
      && exists c :: LiveChild(s, u, ContOf(s.thr[u].pc).tid, c)
  }

  ghost predicate JoinsOk(s: State) {
    forall u :: u in s.thr ==> JoinOk(s, u)
  }

  /** A held lock is on its owner's list, a free one has nobody waiting for it. */
  ghost predicate LockOk(s: State, l: nat)
    requires l in s.locks
  {
    var k := s.locks[l];
    if k.owner.Some? then k.count >= 1 && k.owner.value in s.thr && l in s.thr[k.owner.value].locks
    else k.count == 0 && Waiters(s, LockCv(l)) == []
  }

  /** A thread's list holds exactly the locks it owns, each once. */
  ghost predicate HoldsOk(s: State, u: nat)
    requires u in s.thr
  {
    NoDup(s.thr[u].locks) && forall l :: l in s.thr[u].locks ==> l in s.locks && s.locks[l].owner == Some(u)
  }

  ghost predicate LocksOk(s: State) {
    && (forall l :: l in s.locks ==> LockOk(s, l))
    && (forall u :: u in s.thr ==> HoldsOk(s, u))
    && (forall l :: Waiters(s, LockCv(l)) != [] ==> l in s.locks)
    && (s.tp in s.thr && s.thr[s.tp].pc.WaitMarked? && s.thr[s.tp].cond.Some? && s.thr[s.tp].cond.value.LockCv? ==>
          s.thr[s.tp].cond.value.lock in s.locks && s.locks[s.thr[s.tp].cond.value.lock].owner.Some?)
  }

  ghost predicate Inv(s: State) {
    TableOk(s) && ListsOk(s) && StatesOk(s) && IdleOk(s) && ParentsOk(s) && JoinsOk(s) && LocksOk(s)
  }

  // ---- waking ----

  lemma NoDupAppend(a: seq<nat>, b: seq<nat>)
    requires NoDup(a) && NoDup(b) && forall x :: x in b ==> x !in a
    ensures NoDup(a + b)
  {
    forall i, j | 0 <= i < j < |a + b| ensures (a + b)[i] != (a + b)[j] {
      if i < |a| <= j {
        assert (a + b)[j] == b[j - |a|] && b[j - |a|] in b;
      }
    }
  }

  lemma WaitersAfter(s: State, c: Cond, d: Cond)
    ensures Waiters(Broadcast(s, c), d) == if d == c then [] else Waiters(s, d)
  {
  }

  lemma BroadcastTable(s: State, c: Cond)
    requires TableOk(s)
    ensures TableOk(Broadcast(s, c))
  {
    hide Waiters;
    var s' := Broadcast(s, c);
    forall u | u in s'.thr ensures ThreadSlot(s', u) {
      assert ThreadSlot(s, u);
    }
    forall i: nat ensures SlotThread(s', i) {
      assert SlotThread(s, i);
    }
  }

  lemma BroadcastLists(s: State, c: Cond)
    requires ListsOk(s)
    ensures ListsOk(Broadcast(s, c))
  {
    var s' := Broadcast(s, c);
    forall d ensures Waiters(s', d) == if d == c then [] else Waiters(s, d) {
      WaitersAfter(s, c, d);
    }
    hide Waiters;
    NoDupAppend(s.ready, Waiters(s, c));
    hide NoDup;
    assert NoDup([]) by { NoDupNil(); }
  }

  lemma NoDupNil()
    ensures NoDup([])
  {
  }

  lemma BroadcastStates(s: State, c: Cond)
    requires s.tp in s.thr && ListsOk(s) && StatesOk(s)
    ensures StatesOk(Broadcast(s, c))
  {
    var s' := Broadcast(s, c);
    forall u | u in s'.thr ensures PlacedOk(s', u) && PcOk(s', u) {
      hide ListsOk, StatesOk;
      BroadcastPlaced(s, c, u);
      BroadcastPc(s, c, u);
    }
  }

  lemma BroadcastPlaced(s: State, c: Cond, u: nat)
    requires s.tp in s.thr && ListsOk(s) && StatesOk(s) && u in s.thr
    ensures PlacedOk(Broadcast(s, c), u)
  {
    hide NoDup;
    var s' := Broadcast(s, c);
    assert PlacedOk(s, u) && PcOk(s, s.tp);
    if s.thr[u].cond.Some? {
      WaitersAfter(s, c, s.thr[u].cond.value);
    }
    hide Waiters, ListsOk, StatesOk;
  }

  lemma BroadcastPc(s: State, c: Cond, u: nat)
    requires s.tp in s.thr && ListsOk(s) && StatesOk(s) && u in s.thr
    ensures PcOk(Broadcast(s, c), u)
  {
    hide NoDup, PlacedOk;
    var s' := Broadcast(s, c);
    assert PcOk(s, u);
    if s.thr[u].cond.Some? {
      WaitersAfter(s, c, s.thr[u].cond.value);
    }
    assert u in Waiters(s, c) ==> s.thr[u].st == Waiting && s.thr[u].cond == Some(c);
  }

  lemma BroadcastTree(s: State, c: Cond)
    requires ListsOk(s) && IdleOk(s) && ParentsOk(s)
    ensures IdleOk(Broadcast(s, c)) && ParentsOk(Broadcast(s, c))
  {
    hide NoDup;
    assert IDLE !in Waiters(s, c);
    hide ListsOk, Waiters;
    BroadcastIdle(s, c);
    hide IdleOk;
    BroadcastParents(s, c);
  }

  lemma BroadcastIdle(s: State, c: Cond)
    requires IdleOk(s) && IDLE !in Waiters(s, c)
    ensures IdleOk(Broadcast(s, c))
  {
    hide Waiters;
  }

  lemma BroadcastParents(s: State, c: Cond)
    requires ParentsOk(s)
    ensures ParentsOk(Broadcast(s, c))
  {
    hide Waiters;
    var s' := Broadcast(s, c);
    assert s'.thr.Keys == s.thr.Keys && forall u :: u in s.thr ==> s'.thr[u].parent == s.thr[u].parent;
    hide Broadcast;
  }

  /** Joins hold after a broadcast if they held for everybody it did not wake. */
  lemma BroadcastJoins(s: State, c: Cond)
    requires forall u :: u in s.thr && u !in Waiters(s, c) ==> JoinOk(s, u)
    requires ListsOk(s)
    ensures JoinsOk(Broadcast(s, c))
  {
    hide Waiters, NoDup;
    var s' := Broadcast(s, c);
    forall u | u in s'.thr ensures JoinOk(s', u) {
      if u !in Waiters(s, c) {
        assert JoinOk(s, u) && s'.thr[u] == s.thr[u];
        forall tid, d | LiveChild(s, u, tid, d) ensures LiveChild(s', u, tid, d) {
          assert d in Waiters(s, c) ==> s.thr[d].st == Waiting;
        }
      }
    }
  }

  /** Locks hold after a broadcast if they held but for the waiters it woke. */
  lemma BroadcastLocks(s: State, c: Cond)
    requires s.tp in s.thr && ListsOk(s)
    requires forall l :: l in s.locks ==> LockOk(s, l) || (c == LockCv(l) && s.locks[l] == Lock(None, 0))
    requires forall u :: u in s.thr ==> HoldsOk(s, u)
    requires forall l :: Waiters(s, LockCv(l)) != [] ==> l in s.locks
    requires s.thr[s.tp].pc.WaitMarked? && s.thr[s.tp].cond.Some? && s.thr[s.tp].cond.value.LockCv? ==>
      s.thr[s.tp].cond.value.lock in s.locks && s.locks[s.thr[s.tp].cond.value.lock].owner.Some?
    ensures LocksOk(Broadcast(s, c))
  {
    hide NoDup;
    var s' := Broadcast(s, c);
    forall d ensures Waiters(s', d) == if d == c then [] else Waiters(s, d) {
      WaitersAfter(s, c, d);
    }
    hide Waiters;
    forall u | u in s'.thr ensures s'.thr[u].locks == s.thr[u].locks && s'.thr[u].pc == s.thr[u].pc && HoldsOk(s', u) {
      assert HoldsOk(s, u);
    }
    forall l | l in s'.locks ensures LockOk(s', l) {
      assert LockOk(s, l) || c == LockCv(l);
    }
  }

  lemma BroadcastInv(s: State, c: Cond)
    requires Inv(s)
    ensures Inv(Broadcast(s, c))
  {
    hide ListsOk, StatesOk, IdleOk, ParentsOk, LockOk, HoldsOk, JoinOk;
    BroadcastTable(s, c);
    BroadcastLists(s, c);
    BroadcastStates(s, c);
    BroadcastTree(s, c);
    BroadcastJoins(s, c);
    BroadcastLocks(s, c);
  }

  // ---- frames ----

  /** Same threads with the same ids and parents, and nobody newly exited. */
  ghost predicate SameKin(s: State, s': State) {
    && s'.thr.Keys == s.thr.Keys && s'.tab == s.tab && s'.births == s.births
    && forall u :: u in s.thr ==>
         && s'.thr[u].id == s.thr[u].id && s'.thr[u].parent == s.thr[u].parent
         && (s'.thr[u].st == Exited ==> s.thr[u].st == Exited)
  }

  /** Whoever waits afterwards waited for the same before, except x. */
  ghost predicate SameWaits(s: State, s': State, x: nat) {
    forall u :: u in s.thr && u in s'.thr && u != x && s'.thr[u].st == Waiting ==>
      s.thr[u].st == Waiting && s'.thr[u].cond == s.thr[u].cond && ContOf(s'.thr[u].pc) == ContOf(s.thr[u].pc)
  }

  lemma KinTable(s: State, s': State)
    requires TableOk(s) && ParentsOk(s) && SameKin(s, s') && s'.tp in s.thr
    ensures TableOk(s') && ParentsOk(s')
  {
    forall u | u in s'.thr ensures ThreadSlot(s', u) {
      assert ThreadSlot(s, u);
    }
    forall i: nat ensures SlotThread(s', i) {
      assert SlotThread(s, i);
    }
  }

  lemma KinJoins(s: State, s': State, x: nat)
    requires JoinsOk(s) && SameKin(s, s') && SameWaits(s, s', x) && (x in s'.thr ==> JoinOk(s', x))
    ensures JoinsOk(s')
  {
    forall u, tid, d | LiveChild(s, u, tid, d) ensures LiveChild(s', u, tid, d) {
    }
    forall u | u in s'.thr && u != x ensures JoinOk(s', u) {
      assert JoinOk(s, u);
    }
  }

  /** Nobody waits for a lock that nobody holds, in s'. */
  ghost predicate LockWaits(s: State, s': State) {
    && (forall l :: Waiters(s', LockCv(l)) != [] ==> l in s.locks && s.locks[l].owner.Some?)
    && (s'.tp in s'.thr && s'.thr[s'.tp].pc.WaitMarked? && s'.thr[s'.tp].cond.Some? && s'.thr[s'.tp].cond.value.LockCv? ==>
          s'.thr[s'.tp].cond.value.lock in s.locks && s.locks[s'.thr[s'.tp].cond.value.lock].owner.Some?)
  }

  ghost predicate SameLocks(s: State, s': State) {
    s'.locks == s.locks && s'.thr.Keys == s.thr.Keys && forall u :: u in s.thr ==> s'.thr[u].locks == s.thr[u].locks
  }

  lemma KinLocks(s: State, s': State)
    requires LocksOk(s) && SameLocks(s, s') && LockWaits(s, s')
    ensures LocksOk(s')
  {
    hide Waiters, NoDup;
    forall u | u in s'.thr ensures HoldsOk(s', u) {
      assert HoldsOk(s, u);
    }
    forall l | l in s'.locks ensures LockOk(s', l) {
      assert LockOk(s, l);
    }
  }

  /** As long as nobody new waits for a lock. */
  lemma OldLockWaits(s: State, s': State)
    requires LocksOk(s)
    requires forall l :: Waiters(s', LockCv(l)) == Waiters(s, LockCv(l))
    requires s'.tp in s'.thr && !s'.thr[s'.tp].pc.WaitMarked?
    ensures LockWaits(s, s')
  {
    forall l | Waiters(s, LockCv(l)) != [] ensures l in s.locks && s.locks[l].owner.Some? {
      assert LockOk(s, l);
    }
  }

  // ---- waiting ----

  /** A thread that executes its own code is on no list. */
  lemma SelfUnlisted(s: State)
    requires s.tp in s.thr && ListsOk(s) && StatesOk(s) && (s.thr[s.tp].pc.Code? || s.thr[s.tp].pc.SpawnMarked?)
    ensures s.thr[s.tp].st == Self && s.tp !in s.ready && forall c :: s.tp !in Waiters(s, c)
  {
    hide NoDup, Waiters, PlacedOk;
    assert PcOk(s, s.tp);
  }

  /** A wait may be marked when somebody will end it: the holder of the lock, or a child still alive. */
  ghost predicate MayWait(s: State, c: Cond, k: Cont)
    requires s.tp in s.thr
  {
    match c
    case Event(_) => true
    case LockCv(l) => l in s.locks && s.locks[l].owner.Some?
    case ChildExit(u) => u == s.tp && k.Joining? && exists d :: LiveChild(s, s.tp, k.tid, d)
  }

  lemma MarkWaitInv(s: State, c: Cond, k: Cont)
    requires Inv(s) && s.thr[s.tp].pc.Code? && s.tp != IDLE && MayWait(s, c, k)
    ensures Inv(MarkWait(s, c, k))
  {
    hide TableOk, ListsOk, StatesOk, IdleOk, ParentsOk, JoinsOk, LocksOk, JoinOk;
    TpIn(s);
    var s' := MarkWait(s, c, k);
    SelfUnlisted(s);
    assert forall d :: Waiters(s', d) == Waiters(s, d);
    hide Waiters;
    KinTable(s, s');
    MarkWaitStates(s, c, k);
    MarkWaitJoin(s, c, k);
    KinJoins(s, s', s.tp);
    MarkWaitLocks(s, c, k);
    KinLocks(s, s');
  }

  lemma TpIn(s: State)
    requires TableOk(s)
    ensures s.tp in s.thr
  {
  }

  lemma MarkWaitStates(s: State, c: Cond, k: Cont)
    requires s.tp in s.thr && s.tp != IDLE && ListsOk(s) && StatesOk(s) && IdleOk(s) && s.thr[s.tp].pc.Code?
    requires s.tp !in s.ready && (forall d :: s.tp !in Waiters(s, d))
    ensures ListsOk(MarkWait(s, c, k)) && StatesOk(MarkWait(s, c, k)) && IdleOk(MarkWait(s, c, k))
  {
    var s' := MarkWait(s, c, k);
    assert forall d :: Waiters(s', d) == Waiters(s, d);
    hide Waiters, NoDup;
    forall u | u in s'.thr ensures PlacedOk(s', u) && PcOk(s', u) {
      assert PlacedOk(s, u) && PcOk(s, u);
    }
  }

  lemma MarkWaitJoin(s: State, c: Cond, k: Cont)
    requires s.tp in s.thr && MayWait(s, c, k)
    ensures JoinOk(MarkWait(s, c, k), s.tp)
  {
    var s' := MarkWait(s, c, k);
    forall u, tid, d | LiveChild(s, u, tid, d) ensures LiveChild(s', u, tid, d) {
    }
  }

  lemma MarkWaitLocks(s: State, c: Cond, k: Cont)
    requires s.tp in s.thr && MayWait(s, c, k) && LocksOk(s)
    ensures LockWaits(s, MarkWait(s, c, k))
  {
    var s' := MarkWait(s, c, k);
    forall l | Waiters(s', LockCv(l)) != [] ensures l in s.locks && s.locks[l].owner.Some? {
      assert LockOk(s, l);
    }
  }

  lemma ListWaitInv(s: State)
    requires Inv(s) && s.thr[s.tp].pc.WaitMarked? && s.thr[s.tp].cond.Some?
    ensures Inv(ListWait(s))
  {
    hide TableOk, ListsOk, StatesOk, IdleOk, ParentsOk, JoinsOk, LocksOk, JoinOk;
    TpIn(s);
    var s' := ListWait(s);
    ListWaitStates(s);
    ListWaitLocks(s);
    hide Waiters;
    KinTable(s, s');
    JoinOne(s, s', s.tp);
    KinJoins(s, s', s.tp);
    KinLocks(s, s');
  }

  /** A thread whose wait does not change still has a live child. */
  lemma JoinOne(s: State, s': State, u: nat)
    requires u in s.thr && JoinsOk(s) && SameKin(s, s')
    requires s'.thr[u].st == Waiting ==> s.thr[u].st == Waiting && s'.thr[u].cond == s.thr[u].cond && ContOf(s'.thr[u].pc) == ContOf(s.thr[u].pc)
    ensures JoinOk(s', u)
  {
    assert JoinOk(s, u);
    forall tid, d | LiveChild(s, u, tid, d) ensures LiveChild(s', u, tid, d) {
    }
  }

  lemma ListWaitStates(s: State)
    requires s.tp in s.thr && ListsOk(s) && StatesOk(s) && IdleOk(s) && s.thr[s.tp].pc.WaitMarked? && s.thr[s.tp].cond.Some?
    ensures ListsOk(ListWait(s)) && StatesOk(ListWait(s)) && IdleOk(ListWait(s))
  {
    var s' := ListWait(s);
    var c := s.thr[s.tp].cond.value;
    assert PcOk(s, s.tp) && PlacedOk(s, s.tp);
    forall d ensures Waiters(s', d) == if d == c then Waiters(s, c) + [s.tp] else Waiters(s, d) {
    }
    hide Waiters;
    ListWaitLists(s, s', c);
    hide NoDup, ListsOk;
    forall u | u in s'.thr ensures PlacedOk(s', u) && PcOk(s', u) {
      assert PlacedOk(s, u) && PcOk(s, u);
    }
  }

  lemma ListWaitLocks(s: State)
    requires s.tp in s.thr && LocksOk(s) && s.thr[s.tp].pc.WaitMarked? && s.thr[s.tp].cond.Some?
    ensures LockWaits(s, ListWait(s))
  {
    var s' := ListWait(s);
    var c := s.thr[s.tp].cond.value;
    forall l | Waiters(s', LockCv(l)) != [] ensures l in s.locks && s.locks[l].owner.Some? {
      if LockCv(l) != c {
        assert Waiters(s, LockCv(l)) != [];
        assert LockOk(s, l);
      }
    }
  }

  lemma ListWaitLists(s: State, s': State, c: Cond)
    requires ListsOk(s) && s.tp in s.thr && s.thr[s.tp].st == Waiting && s.thr[s.tp].cond == Some(c) && s.tp !in Waiters(s, c)
    requires forall d :: Waiters(s', d) == if d == c then Waiters(s, c) + [s.tp] else Waiters(s, d)
    requires s'.ready == s.ready && s'.thr.Keys == s.thr.Keys
    requires forall u :: u in s.thr ==> s'.thr[u].st == s.thr[u].st && s'.thr[u].cond == s.thr[u].cond
    ensures ListsOk(s')
  {
    hide Waiters;
    NoDupAppend(Waiters(s, c), [s.tp]);
  }

  // ---- switching ----

  ghost predicate MaySuspend(s: State)
    requires s.tp in s.thr
  {
    s.thr[s.tp].pc == Code(Caller) || s.thr[s.tp].pc.WaitListed? || s.thr[s.tp].pc.ExitMarked?
  }

  /** The assertion of running_thread_suspend: there is always a thread to run. */
  lemma SomeoneReady(s: State)
    requires s.tp in s.thr && ListsOk(s) && StatesOk(s) && IdleOk(s) && MaySuspend(s)
    ensures HasNext(s)
  {
    hide Waiters;
    assert PcOk(s, s.tp) && PlacedOk(s, IDLE) && PlacedOk(s, s.tp);
    if s.thr[s.tp].st == Self {
      NoDupAppend(s.ready, [s.tp]);
    } else {
      assert IDLE in s.ready;
    }
  }

  /** There is a next thread, and it is ready. */
  ghost predicate HasNext(s: State)
    requires s.tp in s.thr
  {
    && Requeue(s).ready != [] && Requeue(s).ready[0] in s.thr && NoDup(Requeue(s).ready)
    && forall u :: u in Requeue(s).ready ==> u in s.thr && Requeue(s).thr[u].st == Ready
  }

  lemma SuspendInv(s: State)
    requires Inv(s) && MaySuspend(s)
    ensures Inv(Suspend(s))
  {
    hide TableOk, ListsOk, StatesOk, IdleOk, ParentsOk, JoinsOk, LocksOk, JoinOk, Suspend, Requeue, Waiters, NoDup, HasNext, SameKin, SameWaits, SameLocks, MaySuspend;
    TpIn(s);
    SomeoneReady(s);
    var s' := Suspend(s);
    SuspendKin(s);
    SuspendStates(s);
    SuspendIn(s);
    KinTable(s, s');
    JoinOne(s, s', s.tp);
    KinJoins(s, s', s.tp);
    OldLockWaits(s, s');
    KinLocks(s, s');
  }

  lemma SuspendIn(s: State)
    requires s.tp in s.thr && SameKin(s, Suspend(s)) && Suspend(s).tp in s.thr
    ensures Suspend(s).tp in Suspend(s).thr && s.tp in Suspend(s).thr
  {
  }

  /** What suspending does to one thread. */
  lemma SuspendThread(s: State, u: nat)
    requires s.tp in s.thr && Requeue(s).ready != [] && Requeue(s).ready[0] in s.thr && u in s.thr
    ensures Suspend(s).tp == Requeue(s).ready[0] && u in Suspend(s).thr
    ensures Suspend(s).thr[u] == s.thr[u].(
      st := if u == Suspend(s).tp then Self else if u == s.tp && s.thr[u].st == Self then Ready else s.thr[u].st,
      pc := if u == s.tp then Resume(s.thr[u].pc) else s.thr[u].pc)
  {
  }

  lemma SuspendRest(s: State)
    requires s.tp in s.thr && Requeue(s).ready != [] && Requeue(s).ready[0] in s.thr
    ensures Suspend(s).thr.Keys == s.thr.Keys && Suspend(s).locks == s.locks && Suspend(s).tab == s.tab && Suspend(s).births == s.births
    ensures Suspend(s).tp in s.thr && Suspend(s).waits == s.waits
  {
  }

  lemma NextIn(s: State)
    requires s.tp in s.thr && HasNext(s)
    ensures Requeue(s).ready != [] && Requeue(s).ready[0] in s.thr
  {
  }

  lemma SuspendKin(s: State)
    requires s.tp in s.thr && MaySuspend(s) && HasNext(s) && StatesOk(s)
    ensures SameKin(s, Suspend(s)) && SameWaits(s, Suspend(s), s.tp) && Suspend(s).tp in s.thr && SameLocks(s, Suspend(s))
    ensures forall d :: Waiters(Suspend(s), d) == Waiters(s, d)
    ensures Suspend(s).thr[Suspend(s).tp].pc.Code?
    ensures Suspend(s).thr[s.tp].st == Waiting ==>
      s.thr[s.tp].st == Waiting && Suspend(s).thr[s.tp].cond == s.thr[s.tp].cond && ContOf(Suspend(s).thr[s.tp].pc) == ContOf(s.thr[s.tp].pc)
  {
    hide StatesOk, NoDup, HasNext, Requeue, Suspend;
    NextIn(s);
    SuspendPc(s);
    SuspendRest(s);
    forall u | u in s.thr ensures Suspend(s).thr[u] == s.thr[u].(
      st := if u == Suspend(s).tp then Self else if u == s.tp && s.thr[u].st == Self then Ready else s.thr[u].st,
      pc := if u == s.tp then Resume(s.thr[u].pc) else s.thr[u].pc)
    {
      SuspendThread(s, u);
    }
  }

  lemma SuspendPc(s: State)
    requires s.tp in s.thr && StatesOk(s) && MaySuspend(s) && HasNext(s)
    ensures Suspend(s).thr[Suspend(s).tp].pc.Code?
  {
    hide NoDup, Waiters;
    var next := Requeue(s).ready[0];
    assert PcOk(s, next) && PcOk(s, s.tp);
    hide StatesOk;
  }

  lemma SuspendStates(s: State)
    requires s.tp in s.thr && ListsOk(s) && StatesOk(s) && IdleOk(s) && MaySuspend(s) && HasNext(s)
    ensures ListsOk(Suspend(s)) && StatesOk(Suspend(s)) && IdleOk(Suspend(s))
  {
    SuspendLists(s);
    SuspendIdle(s);
    hide ListsOk, HasNext, IdleOk, MaySuspend;
    var s' := Suspend(s);
    SuspendPc(s);
    forall u | u in s'.thr ensures PlacedOk(s', u) && PcOk(s', u) {
      hide PlacedOk, PcOk, StatesOk;
      SuspendOne(s, u);
    }
  }

  lemma SuspendIdle(s: State)
    requires s.tp in s.thr && StatesOk(s) && IdleOk(s) && MaySuspend(s) && HasNext(s)
    ensures IdleOk(Suspend(s))
  {
    SuspendPc(s);
    assert PlacedOk(s, IDLE) && PcOk(s, IDLE);
    hide StatesOk, NoDup;
  }

  lemma SuspendLists(s: State)
    requires s.tp in s.thr && ListsOk(s) && StatesOk(s) && MaySuspend(s) && HasNext(s)
    ensures ListsOk(Suspend(s))
  {
    var s1, s' := Requeue(s), Suspend(s);
    assert PcOk(s, s.tp);
    NextIn(s);
    SuspendRest(s);
    assert s'.ready == s1.ready[1..];
    assert forall c :: Waiters(s', c) == Waiters(s, c);
    TailDistinct(s1.ready);
    hide Waiters, StatesOk, PcOk, PlacedOk, NoDup;
    SuspendReady(s);
    SuspendWaits(s);
    hide Suspend, Requeue, HasNext;
  }

  lemma SuspendReady(s: State)
    requires s.tp in s.thr && HasNext(s) && Suspend(s).ready == Requeue(s).ready[1..]
    requires ListsOk(s) && (s.thr[s.tp].st == Self ==> s.tp !in s.ready) && NoDup(Requeue(s).ready)
    ensures forall u :: u in Suspend(s).ready ==> u in Suspend(s).thr && Suspend(s).thr[u].st == Ready
  {
    var s1, s' := Requeue(s), Suspend(s);
    TailDistinct(s1.ready);
    hide Waiters, NoDup;
    forall u | u in s'.ready ensures u in s'.thr && s'.thr[u].st == Ready {
      assert u in s1.ready;
    }
  }

  lemma SuspendWaits(s: State)
    requires s.tp in s.thr && ListsOk(s) && StatesOk(s) && MaySuspend(s) && HasNext(s)
    ensures forall c, u :: u in Waiters(s, c) ==> u in Suspend(s).thr && Suspend(s).thr[u].st == Waiting && Suspend(s).thr[u].cond == Some(c)
  {
    var s1, s' := Requeue(s), Suspend(s);
    assert s1.thr[s1.ready[0]].st == Ready;
    hide Waiters, StatesOk, NoDup, HasNext;
    forall c, u | u in Waiters(s, c) ensures u in s'.thr && s'.thr[u].st == Waiting && s'.thr[u].cond == Some(c) {
      assert u in s.thr && s.thr[u].st == Waiting && s1.thr[u].st == Waiting;
      SuspendThread(s, u);
    }
  }

  lemma TailDistinct(r: seq<nat>)
    requires NoDup(r) && r != []
    ensures NoDup(r[1..]) && r[0] !in r[1..]
  {
  }

  lemma SuspendOne(s: State, u: nat)
    requires s.tp in s.thr && StatesOk(s) && MaySuspend(s) && u in s.thr && HasNext(s)
    ensures PlacedOk(Suspend(s), u) && PcOk(Suspend(s), u)
  {
    var s1, s' := Requeue(s), Suspend(s);
    var next := s1.ready[0];
    assert PlacedOk(s, u) && PcOk(s, u) && PcOk(s, s.tp) && PlacedOk(s, s.tp) && PcOk(s, next) && PlacedOk(s, next);
    assert forall d :: Waiters(s', d) == Waiters(s, d);
    hide Waiters, StatesOk, NoDup;
    assert u in s1.ready ==> u == next || u in s1.ready[1..];
  }
}
