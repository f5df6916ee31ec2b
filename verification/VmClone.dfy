/** clone_pt, free_user_pt and the operations on whole address spaces of kernel/memory.c. */
module VmClone {
  import opened Base
  import opened Pages
  import opened Sv39
  import opened Sv39Edit
  import opened Sv39Ops
  import opened Sv39Copy
  import opened Sv39Size
  import opened Vm

  /** Only pages that were free have changed. */
  ghost predicate OnlyFresh(m: Mem, m': Mem, free: set<nat>) {
    forall v :: v !in free ==> Agree(m, m', v)
  }

  /** The allocator handed out exactly these pages. */
  ghost predicate Took(pages: PagePool, live: set<nat>, free: set<nat>, taken: set<nat>)
    reads pages
  {
    taken <= free && FreeSet(pages.chunks) == free - taken && pages.live == live + taken
  }

  lemma TookMore(pages: PagePool, live: set<nat>, free: set<nat>, taken: set<nat>, more: set<nat>, both: set<nat>)
    requires taken <= free && Took(pages, live + taken, free - taken, more) && both == taken + more
    ensures Took(pages, live, free, both)
  {
  }

  /** How many pages there are in s. */
  ghost function Count(s: set<nat>): nat {
    |s|
  }

  lemma EmptyCount(own: map<nat, seq<nat>>)
    requires own == map[]
    ensures Count(own.Keys) == 0
  {
  }

  lemma CountBoth(a: set<nat>, b: set<nat>)
    requires a !! b
    ensures Count(a + b) == Count(a) + Count(b)
  {
  }

  lemma NoneLeft(s: set<nat>)
    ensures s == {} <==> Count(s) == 0
  {
  }

  /** Writing a page that is not free and in no address space. */
  lemma LooseWrite(m: Mem, roots: set<nat>, owner: map<nat, Node>, kernel: set<nat>, main: nat, all: set<nat>, live: set<nat>, f: nat, x: Frame)
    requires MemOk(m, roots, owner, kernel, main, all, live) && f in m && f !in owner && f !in kernel && f !in all - live
    ensures MemOk(m[f := x], roots, owner, kernel, main, all, live)
  {
    ScratchPage(m, roots, owner, kernel, f, x);
    hide Spaces;
  }

  /** Owned pages are not free. */
  lemma OwnedNotFree(vm: Memory)
    requires vm.Sound()
    ensures vm.owner.Keys !! FreeSet(vm.pages.chunks) && vm.kernel !! FreeSet(vm.pages.chunks)
  {
    hide Spaces;
  }

  lemma LiveNotKernel(vm: Memory, f: nat)
    requires vm.Sound() && f in vm.pages.live
    ensures f !in vm.kernel && f in vm.mem && f !in vm.pages.all - vm.pages.live
  {
    hide Spaces;
  }

  /** The copy of one leaf page. */
  method ClonePage(vm: Memory, old_pp: nat) returns (pp: Option<nat>)
    requires vm.Sound() && old_pp in vm.mem && vm.mem[old_pp].Page? && old_pp !in FreeSet(vm.pages.chunks)
    modifies vm`mem, vm.pages
    ensures vm.Sound() && vm.pages.all == old(vm.pages.all) && OnlyFresh(old(vm.mem), vm.mem, old(FreeSet(vm.pages.chunks)))
    ensures pp.Some? <==> Count(old(FreeSet(vm.pages.chunks))) >= 1
    ensures pp.Some? ==> Count({pp.value}) == 1
    ensures pp.None? ==> FreeSet(vm.pages.chunks) == {}
    ensures pp.Some? ==> Copy(vm.mem, old_pp, pp.value, 0) && Exact(vm.mem, pp.value, map[pp.value := []])
    ensures pp.Some? ==> Took(vm.pages, old(vm.pages.live), old(FreeSet(vm.pages.chunks)), {pp.value})
  {
    hide MemOk, FreeSet;
    pp := vm.AllocPhysPage();
    if pp.Some? {
      var f := pp.value;
      LooseWrite(vm.mem, vm.roots, vm.owner, vm.kernel, vm.main, vm.pages.all, vm.pages.live, f, vm.mem[old_pp]);
      vm.mem := vm.mem[f := vm.mem[old_pp]];
      PageExact(vm.mem, f);
    }
  }

  lemma PageExact(m: Mem, f: nat)
    requires f in m && m[f].Page?
    ensures Exact(m, f, map[f := []])
  {
    forall p ensures Ref(m, f, p) == if p == [] then Some(f) else None {
    }
  }

  lemma ZeroExact(m: Mem, f: nat)
    requires f in m && m[f] == ZeroTable()
    ensures Exact(m, f, map[f := []])
  {
    forall p ensures Ref(m, f, p) == if p == [] then Some(f) else None {
      ZeroChildless(m, f);
      ChildlessRef(m, f, p);
    }
  }

  /** clone_pt: a deep copy in fresh pages, global entries shared. Nothing else changes, even when memory runs
      out half way. */
  method ClonePt(vm: Memory, t: nat, h: nat) returns (r: Option<nat>, ghost own: map<nat, seq<nat>>)
    requires vm.Sound() && 0 < h <= LEVELS && Tree(vm.mem, t, h, vm.kernel) && Settled(vm.mem, t, vm.owner)
    modifies vm`mem, vm.pages
    ensures vm.Sound() && vm.pages.all == old(vm.pages.all) && OnlyFresh(old(vm.mem), vm.mem, old(FreeSet(vm.pages.chunks)))
    ensures r.Some? <==> Size(old(vm.mem), t, h) <= Count(old(FreeSet(vm.pages.chunks)))
    ensures r.None? ==> FreeSet(vm.pages.chunks) == {}
    ensures r.Some? ==> Copy(vm.mem, t, r.value, h) && Exact(vm.mem, r.value, own) && Count(own.Keys) == Size(old(vm.mem), t, h)
    ensures r.Some? ==> Took(vm.pages, old(vm.pages.live), old(FreeSet(vm.pages.chunks)), own.Keys)
    decreases h, 2
  {
    hide MemOk, FreeSet, Tree, Exact, Settled, PartCopy, Copy, SameBelow, Sizes, Count;
    own := map[];
    OwnedNotFree(vm);
    r := vm.AllocPhysPage();
    NoneLeft(old(FreeSet(vm.pages.chunks)));
    if r.None? {
      return;
    }
    var f := r.value;
    ghost var free := old(FreeSet(vm.pages.chunks));
    LooseWrite(vm.mem, vm.roots, vm.owner, vm.kernel, vm.main, vm.pages.all, vm.pages.live, f, ZeroTable());
    vm.mem := vm.mem[f := ZeroTable()];
    ZeroExact(vm.mem, f);
    own := map[f := []];
    StartCopy(old(vm.mem), vm.mem, t, f, h, vm.owner, vm.kernel);
    NoneYet(old(vm.mem), t, h, f, own);
    for i := 0 to PTES
      invariant vm.Sound() && vm.pages.all == old(vm.pages.all) && OnlyFresh(old(vm.mem), vm.mem, free)
      invariant f in own && Took(vm.pages, old(vm.pages.live), free, own.Keys) && Exact(vm.mem, f, own)
      invariant PartCopy(vm.mem, t, f, h, i) && Tree(vm.mem, t, h, vm.kernel) && Settled(vm.mem, t, vm.owner)
      invariant vm.owner.Keys !! free && Count(own.Keys) == 1 + Sizes(old(vm.mem), t, h, i)
    {
      var ok;
      ok, own := CloneEntry(vm, t, f, h, i, own, old(vm.mem), free, old(vm.pages.live));
      if !ok {
        SizesMore(old(vm.mem), t, h, i + 1, PTES);
        return None, own;
      }
    }
    TookCount(vm.pages, old(vm.pages.live), free, own.Keys);
    WholeCopy(vm.mem, t, f, h);
  }

  lemma NoneYet(m: Mem, t: nat, h: nat, f: nat, own: map<nat, seq<nat>>)
    requires h > 0 && own == map[f := []]
    ensures Sizes(m, t, h, 0) == 0 && Count(own.Keys) == 1
  {
    assert own.Keys == {f};
  }

  lemma TookCount(pages: PagePool, live: set<nat>, free: set<nat>, taken: set<nat>)
    requires Took(pages, live, free, taken)
    ensures Count(taken) <= Count(free) && Count(FreeSet(pages.chunks)) == Count(free) - Count(taken)
  {
    hide FreeSet;
    assert free == taken + (free - taken);
  }

  /** What entry e of the original becomes in the copy. */
  method CloneTarget(vm: Memory, e: Pte, h: nat) returns (ok: bool, e': Pte, ghost cown: map<nat, seq<nat>>)
    requires vm.Sound() && 0 < h <= LEVELS && e.v && EntryOk(e, h, vm.kernel)
    requires !e.g ==> Tree(vm.mem, e.ppn, h - 1, vm.kernel) && Settled(vm.mem, e.ppn, vm.owner)
    modifies vm`mem, vm.pages
    ensures vm.Sound() && vm.pages.all == old(vm.pages.all) && OnlyFresh(old(vm.mem), vm.mem, old(FreeSet(vm.pages.chunks)))
    ensures ok <==> EntrySize(old(vm.mem), e, h) <= Count(old(FreeSet(vm.pages.chunks)))
    ensures ok ==> Count(cown.Keys) == EntrySize(old(vm.mem), e, h)
    ensures !ok ==> FreeSet(vm.pages.chunks) == {}
    ensures ok ==> EntryCopy(vm.mem, e, e', h) && e'.v && e'.g == e.g && (if e'.g then cown == map[] else Exact(vm.mem, e'.ppn, cown))
    ensures ok ==> Took(vm.pages, old(vm.pages.live), old(FreeSet(vm.pages.chunks)), cown.Keys)
    decreases h, 0
  {
    hide MemOk, FreeSet, Exact, Sizes, Count;
    ok, e', cown := true, e, map[];
    EmptyCount(cown);
    if e.g {
      return;
    }
    var c;
    if e.r || e.w || e.x {
      assert Ref(vm.mem, e.ppn, []).Some?;
      OwnedNotFree(vm);
      c := ClonePage(vm, e.ppn);
      if c.None? {
        return false, e, map[];
      }
      cown := map[c.value := []];
      assert cown.Keys == {c.value};
      e' := e.(ppn := c.value);
    } else {
      c, cown := ClonePt(vm, e.ppn, h - 1);
      if c.None? {
        return false, e, map[];
      }
      e' := PtabPte(c.value, false);
    }
  }

  /** One round of the loop of clone_pt. */
  method CloneEntry(vm: Memory, t: nat, f: nat, h: nat, i: nat, ghost own: map<nat, seq<nat>>, ghost m0: Mem, ghost free: set<nat>, ghost live0: set<nat>)
    returns (ok: bool, ghost own': map<nat, seq<nat>>)
    requires vm.Sound() && OnlyFresh(m0, vm.mem, free) && 0 < h <= LEVELS && i < PTES
    requires f in own && Took(vm.pages, live0, free, own.Keys) && Exact(vm.mem, f, own) && free !! live0
    requires PartCopy(vm.mem, t, f, h, i) && Tree(vm.mem, t, h, vm.kernel) && Settled(vm.mem, t, vm.owner) && vm.owner.Keys !! free
    requires Settled(m0, t, vm.owner) && Count(own.Keys) == 1 + Sizes(m0, t, h, i)
    modifies vm`mem, vm.pages
    ensures vm.Sound() && vm.pages.all == old(vm.pages.all) && OnlyFresh(m0, vm.mem, free)
    ensures !ok ==> FreeSet(vm.pages.chunks) == {} && 1 + Sizes(m0, t, h, i + 1) > Count(free)
    ensures ok ==> Count(own'.Keys) == 1 + Sizes(m0, t, h, i + 1)
    ensures ok ==> f in own' && Took(vm.pages, live0, free, own'.Keys) && Exact(vm.mem, f, own')
    ensures ok ==> PartCopy(vm.mem, t, f, h, i + 1) && Tree(vm.mem, t, h, vm.kernel) && Settled(vm.mem, t, vm.owner)
    decreases h, 1
  {
    hide MemOk, FreeSet, Exact, EntryCopy, Tree, Settled, SameBelow, Graftable, Sizes, EntrySize, Count;
    own' := own;
    SizeSoFar(m0, vm.mem, t, h, i, vm.owner);
    TookCount(vm.pages, live0, free, own.Keys);
    SourceEntry(vm.mem, t, h, i, vm.owner, vm.kernel);
    CopyTables(vm.mem, t, f, h, i);
    var e := vm.mem[t].pt[i];
    if !e.v {
      SkipEntry(vm.mem, t, f, h, i);
      return true, own;
    }
    ghost var m1, free1 := vm.mem, FreeSet(vm.pages.chunks);
    var e';
    ghost var cown;
    ok, e', cown := CloneTarget(vm, e, h);
    if !ok {
      return;
    }
    KeepCopy(m1, vm.mem, t, f, h, i, own, vm.owner, vm.kernel);
    ghost var m2 := vm.mem;
    Graftables(m2, t, f, h, i, own, e', cown);
    Graft(m2, f, own, i, e', cown);
    PartSet(m2, t, f, h, i, e', own, cown, vm.owner);
    LiveNotKernel(vm, f);
    LooseWrite(m2, vm.roots, vm.owner, vm.kernel, vm.main, vm.pages.all, vm.pages.live, f, Table(m2[f].pt[i := e']));
    vm.mem := vm.mem[f := Table(vm.mem[f].pt[i := e'])];
    StillSource(m2, vm.mem, t, h, vm.owner, vm.kernel);
    own' := if !e'.g then GraftOwn(own, i, cown) else own;
    assert own'.Keys == own.Keys + cown.Keys;
    CountBoth(own.Keys, cown.Keys);
    TookMore(vm.pages, live0, free, own.Keys, cown.Keys, own'.Keys);
  }

  /** The next entry adds the size it has now, as the original has not changed. */
  lemma SizeSoFar(m0: Mem, m: Mem, t: nat, h: nat, i: nat, owner: map<nat, Node>)
    requires h > 0 && Settled(m0, t, owner) && AgreeOn(m0, m, owner.Keys)
    ensures Sizes(m0, t, h, i + 1) == Sizes(m0, t, h, i) + EntrySize(m, Entry(m, t, i), h)
    ensures !Entry(m, t, i).v || Entry(m, t, i).g ==> EntrySize(m, Entry(m, t, i), h) == 0
  {
    SettledSame(m0, m, t, owner);
    assert Ref(m0, t, []).Some?;
    var e := Entry(m0, t, i);
    assert Entry(m, t, i) == e;
    if e.v && !e.g {
      SameChild(m0, m, t, i);
      SizeSame(m0, m, e.ppn, h - 1);
    }
  }

  lemma SourceEntry(m: Mem, t: nat, h: nat, i: nat, owner: map<nat, Node>, kernel: set<nat>)
    requires 0 < h && Tree(m, t, h, kernel) && Settled(m, t, owner) && i < PTES
    ensures t in m && m[t].Table? && |m[t].pt| == PTES && EntryOk(m[t].pt[i], h, kernel)
    ensures m[t].pt[i].v && !m[t].pt[i].g ==> Tree(m, m[t].pt[i].ppn, h - 1, kernel) && Settled(m, m[t].pt[i].ppn, owner)
  {
    var e := m[t].pt[i];
    assert Entry(m, t, i) == e;
    if e.v && !e.g {
      SettledChild(m, t, owner, i);
    }
  }

  lemma CopyTables(m: Mem, t: nat, f: nat, h: nat, i: nat)
    requires h > 0 && PartCopy(m, t, f, h, i)
    ensures t in m && m[t].Table? && |m[t].pt| == PTES && f in m && m[f].Table? && |m[f].pt| == PTES
  {
  }

  lemma SkipEntry(m: Mem, t: nat, f: nat, h: nat, i: nat)
    requires h > 0 && PartCopy(m, t, f, h, i) && i < PTES && !m[t].pt[i].v
    ensures PartCopy(m, t, f, h, i + 1)
  {
  }

  /** Taking fresh pages keeps the copy so far and the original. */
  lemma KeepCopy(m: Mem, m': Mem, t: nat, f: nat, h: nat, i: nat, own: map<nat, seq<nat>>, owner: map<nat, Node>, kernel: set<nat>)
    requires h > 0 && PartCopy(m, t, f, h, i) && Exact(m, f, own) && AgreeOn(m, m', own.Keys) && AgreeOn(m, m', owner.Keys)
    requires Tree(m, t, h, kernel) && Settled(m, t, owner)
    ensures PartCopy(m', t, f, h, i) && Exact(m', f, own) && Tree(m', t, h, kernel) && Settled(m', t, owner)
    ensures t in m && t in m' && m'[t] == m[t]
  {
    ExactSame(m, m', f, own);
    SettledSame(m, m', t, owner);
    TreeSame(m, m', t, h, kernel);
    PartSame(m, m', t, f, h, i);
    assert Ref(m, t, []).Some?;
  }

  lemma Graftables(m: Mem, t: nat, f: nat, h: nat, i: nat, own: map<nat, seq<nat>>, e: Pte, cown: map<nat, seq<nat>>)
    requires h > 0 && PartCopy(m, t, f, h, i) && i < PTES && Exact(m, f, own) && own.Keys !! cown.Keys
    requires e.v && !e.g ==> Exact(m, e.ppn, cown)
    ensures Graftable(m, f, own, i, e, cown)
  {
  }

  lemma StillSource(m: Mem, m': Mem, t: nat, h: nat, owner: map<nat, Node>, kernel: set<nat>)
    requires Tree(m, t, h, kernel) && Settled(m, t, owner) && AgreeOn(m, m', owner.Keys)
    ensures Tree(m', t, h, kernel) && Settled(m', t, owner)
  {
    SettledSame(m, m', t, owner);
    TreeSame(m, m', t, h, kernel);
  }

  lemma WholeCopy(m: Mem, t: nat, f: nat, h: nat)
    requires h > 0 && PartCopy(m, t, f, h, PTES)
    ensures Copy(m, t, f, h)
  {
  }

  lemma StartCopy(m: Mem, m': Mem, t: nat, f: nat, h: nat, owner: map<nat, Node>, kernel: set<nat>)
    requires h > 0 && Tree(m, t, h, kernel) && Settled(m, t, owner) && f !in owner && AgreeOn(m, m', owner.Keys)
    requires f in m' && m'[f] == ZeroTable()
    ensures PartCopy(m', t, f, h, 0) && Tree(m', t, h, kernel) && Settled(m', t, owner)
  {
    SettledSame(m, m', t, owner);
    TreeSame(m, m', t, h, kernel);
  }

  // ---- whole spaces ----

  /** The owners with one more space. */
  ghost function AddSpace(owner: map<nat, Node>, f: nat, own: map<nat, seq<nat>>): map<nat, Node> {
    map v | v in owner.Keys + own.Keys :: if v in own then Node(f, own[v]) else owner[v]
  }

  lemma SpaceAdded(m: Mem, roots: set<nat>, owner: map<nat, Node>, kernel: set<nat>, f: nat, own: map<nat, seq<nat>>)
    requires Spaces(m, roots, owner, kernel) && Tree(m, f, LEVELS, kernel) && Exact(m, f, own)
    requires own.Keys !! owner.Keys && own.Keys !! kernel && f !in roots
    ensures Spaces(m, roots + {f}, AddSpace(owner, f, own), kernel)
  {
    hide Tree, KernelOk;
    var owner' := AddSpace(owner, f, own);
    forall r, p | r in roots + {f} && Ref(m, r, p).Some?
      ensures Ref(m, r, p).value in owner' && owner'[Ref(m, r, p).value] == Node(r, p)
    {
      if r == f {
        assert Ref(m, f, p).value in own;
      } else {
        assert Ref(m, r, p).value in owner;
      }
    }
  }

  lemma RootSettled(m: Mem, roots: set<nat>, owner: map<nat, Node>, kernel: set<nat>, main: nat, all: set<nat>, live: set<nat>, r: nat)
    requires MemOk(m, roots, owner, kernel, main, all, live) && r in roots
    ensures Tree(m, r, LEVELS, kernel) && Settled(m, r, owner)
  {
  }

  /** The page at address va of space r is the one its place names. */
  lemma UserPage(m: Mem, roots: set<nat>, owner: map<nat, Node>, kernel: set<nat>, r: nat, vma: nat)
    requires Spaces(m, roots, owner, kernel) && r in roots && Translate(m, r, Idx(vma)).Hit?
    requires !KernelAddress(m, r, vma)
    ensures Ref(m, r, Idx(vma)) == Some(Translate(m, r, Idx(vma)).ppn)
    ensures Translate(m, r, Idx(vma)).ppn in m && m[Translate(m, r, Idx(vma)).ppn].Page?
  {
    hide Idx;
    var p := Idx(vma);
    var e := Entry(m, r, p[0]);
    assert e == m[r].pt[p[0]];
    assert p[1..][0] == p[1] && p[1..][1..] == [p[2]];
    var e1 := Entry(m, e.ppn, p[1]);
    assert Tree(m, e.ppn, 2, kernel) && e1 == m[e.ppn].pt[p[1]];
    LeafTranslate(m, e1.ppn, p[2]);
    assert Tree(m, e1.ppn, 1, kernel);
    assert Entry(m, e1.ppn, p[2]) == m[e1.ppn].pt[p[2]];
    assert Tree(m, m[e1.ppn].pt[p[2]].ppn, 0, kernel);
    assert p == [p[0]] + ([p[1]] + ([p[2]] + []));
    RefCons(m, r, p[0], [p[1]] + ([p[2]] + []));
    RefCons(m, e.ppn, p[1], [p[2]] + []);
    RefCons(m, e1.ppn, p[2], []);
  }

  lemma SpaceCount(vm: Memory, r: nat)
    requires vm.Sound() && r in vm.roots
    ensures Count(PagesOf(vm.owner, r)) == Size(vm.mem, r, LEVELS)
  {
    hide Spaces, Size;
    SpaceSize(vm.mem, vm.roots, vm.owner, vm.kernel, r);
  }

  lemma PoolParts(vm: Memory)
    requires vm.Sound()
    ensures vm.pages.live == vm.pages.all - FreeSet(vm.pages.chunks) && FreeSet(vm.pages.chunks) <= vm.pages.all
  {
    hide MemOk, FreeSet;
  }

  /** clone_active_mspace: a new space that means what the active one means and shares no page with any other. It
      takes as many pages as the active space has, and succeeds exactly when so many are free; when it fails the
      pages that were free are all taken and belong to no space. */
  method CloneActive(vm: Memory) returns (r: Option<nat>)
    requires vm.Valid()
    modifies vm`mem, vm`roots, vm`owner, vm.pages
    ensures vm.Valid() && vm.pages.all == old(vm.pages.all) && OnlyFresh(old(vm.mem), vm.mem, old(FreeSet(vm.pages.chunks)))
    ensures r.Some? <==> Count(PagesOf(old(vm.owner), vm.satp)) <= Count(old(FreeSet(vm.pages.chunks)))
    ensures r.None? ==> vm.roots == old(vm.roots) && vm.owner == old(vm.owner) && FreeSet(vm.pages.chunks) == {}
    ensures r.None? ==> vm.pages.live == old(vm.pages.live) + old(FreeSet(vm.pages.chunks))
    ensures r.Some? ==> Count(PagesOf(vm.owner, r.value)) == Count(PagesOf(old(vm.owner), vm.satp))
    ensures r.Some? ==> r.value !in old(vm.roots) && vm.roots == old(vm.roots) + {r.value} && Copy(vm.mem, vm.satp, r.value, LEVELS)
    ensures r.Some? ==> forall v :: v in vm.owner && vm.owner[v].root != r.value ==> v in old(vm.owner) && vm.owner[v] == old(vm.owner)[v]
    ensures r.Some? ==> forall v :: v in old(vm.owner) ==> v in vm.owner && vm.owner[v] == old(vm.owner)[v]
    ensures r.Some? ==> Took(vm.pages, old(vm.pages.live), old(FreeSet(vm.pages.chunks)), PagesOf(vm.owner, r.value))
  {
    hide MemOk, FreeSet, Tree, Exact, Settled, Copy, Spaces, Size, Count;
    SpaceCount(vm, vm.satp);
    PoolParts(vm);
    RootSettled(vm.mem, vm.roots, vm.owner, vm.kernel, vm.main, vm.pages.all, vm.pages.live, vm.satp);
    OwnedNotFree(vm);
    RootsOwned(vm.mem, vm.roots, vm.owner, vm.kernel, vm.main, vm.pages.all, vm.pages.live);
    ghost var own;
    r, own := ClonePt(vm, vm.satp, LEVELS);
    PoolParts(vm);
    if r.Some? {
      ghost var f, owner0 := r.value, vm.owner;
      RootSettled(vm.mem, vm.roots, vm.owner, vm.kernel, vm.main, vm.pages.all, vm.pages.live, vm.satp);
      CopyTree(vm.mem, vm.satp, f, LEVELS, vm.kernel);
      RootInOwn(vm.mem, f, own);
      SpaceFacts(vm.mem, vm.roots, vm.owner, vm.kernel, vm.main, vm.pages.all, vm.pages.live);
      SpaceAdded(vm.mem, vm.roots, vm.owner, vm.kernel, f, own);
      NewSpaceOk(vm.mem, vm.roots, vm.owner, vm.kernel, vm.main, vm.pages.all, vm.pages.live, f, own);
      vm.owner := AddSpace(vm.owner, f, own);
      vm.roots := vm.roots + {f};
      NewPages(old(vm.mem), old(vm.roots), owner0, vm.kernel, vm.main, vm.pages.all, old(vm.pages.live), f, own);
    }
  }

  lemma RootsOwned(m: Mem, roots: set<nat>, owner: map<nat, Node>, kernel: set<nat>, main: nat, all: set<nat>, live: set<nat>)
    requires MemOk(m, roots, owner, kernel, main, all, live)
    ensures roots <= owner.Keys
  {
    forall r | r in roots ensures r in owner {
      RefNil(m, r);
    }
  }

  lemma RootInOwn(m: Mem, f: nat, own: map<nat, seq<nat>>)
    requires Exact(m, f, own)
    ensures f in own && own[f] == []
  {
    RefNil(m, f);
  }

  lemma NewSpaceOk(m: Mem, roots: set<nat>, owner: map<nat, Node>, kernel: set<nat>, main: nat, all: set<nat>, live: set<nat>, f: nat, own: map<nat, seq<nat>>)
    requires MemOk(m, roots, owner, kernel, main, all, live) && Spaces(m, roots + {f}, AddSpace(owner, f, own), kernel) && own.Keys - {main} <= live
    ensures MemOk(m, roots + {f}, AddSpace(owner, f, own), kernel, main, all, live)
  {
    hide Spaces;
  }

  lemma NewPages(m: Mem, roots: set<nat>, owner: map<nat, Node>, kernel: set<nat>, main: nat, all: set<nat>, live: set<nat>, f: nat, own: map<nat, seq<nat>>)
    requires MemOk(m, roots, owner, kernel, main, all, live) && f !in roots && own.Keys !! owner.Keys
    ensures PagesOf(AddSpace(owner, f, own), f) == own.Keys
  {
    hide Tree, KernelOk, Ref;
  }
}
