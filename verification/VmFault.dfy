/** handle_umode_page_fault of kernel/memory.c: user pages appear when they are first touched. */
module VmFault {
  import opened Base
  import opened Pages
  import opened Sv39
  import opened Sv39Edit
  import opened Sv39Ops
  import opened Vm
  import opened VmClone

  const UMEM_START: nat := 0xC000_0000
  const UMEM_END: nat := 0xF000_0000

  const USER_RWX: Flags := Flags(true, true, true, true, false)

  function PageBase(vma: nat): (b: nat)
    ensures b == vma - vma % PAGE_SIZE && b % PAGE_SIZE == 0
  {
    vma / PAGE_SIZE * PAGE_SIZE
  }

  lemma UserIsWellformed(vma: nat)
    requires UMEM_START <= vma < UMEM_END
    ensures Wellformed(PageBase(vma))
  {
  }

  /** A zero page at place n, and nothing else different. */
  ghost predicate FreshPage(m: Mem, owner: map<nat, Node>, m': Mem, owner': map<nat, Node>, roots: set<nat>, n: Node) {
    && SameXlate(m, m', roots, {n}) && PagesKept(m, Without(owner, n), m', owner')
    && exists pp :: pp in owner' && owner'[pp] == n && pp in m' && m'[pp] == Page(Zeros(PAGE_SIZE))
         && Grants(Translate(m', n.root, n.path), pp, Flags(true, true, true, true, false))
  }

  /** The new page is cleared before it is mapped. */
  method ZeroFill(vm: Memory, f: nat, ghost vma: nat)
    requires vm.Valid() && f in vm.pages.live && f !in vm.owner && f in vm.mem && vm.mem[f].Page? && UserEntry(vm.mem, vm.satp, vma)
    modifies vm`mem
    ensures vm.Valid() && vm.mem == old(vm.mem)[f := Page(Zeros(PAGE_SIZE))] && UserEntry(vm.mem, vm.satp, vma)
    ensures SameXlate(old(vm.mem), vm.mem, vm.roots, {}) && PagesKept(old(vm.mem), vm.owner, vm.mem, vm.owner)
  {
    hide MemOk, FreeSet, SameXlate, PagesKept, UserEntry;
    SpaceFacts(vm.mem, vm.roots, vm.owner, vm.kernel, vm.main, vm.pages.all, vm.pages.live);
    LiveNotKernel(vm, f);
    ScratchPage(vm.mem, vm.roots, vm.owner, vm.kernel, f, Page(Zeros(PAGE_SIZE)));
    LooseWrite(vm.mem, vm.roots, vm.owner, vm.kernel, vm.main, vm.pages.all, vm.pages.live, f, Page(Zeros(PAGE_SIZE)));
    SameEntry(vm.mem, vm.satp, f, Page(Zeros(PAGE_SIZE)), vma, vm.owner, vm.roots, vm.kernel);
    vm.mem := vm.mem[f := Page(Zeros(PAGE_SIZE))];
  }

  /** The page that could not be mapped is free again. */
  method GiveBack(vm: Memory, f: nat, ghost vma: nat)
    requires vm.Valid() && f in vm.pages.live && f !in vm.owner && (FreeSet(vm.pages.chunks) == {} || Superpage(vm.mem, vm.satp, vma))
    modifies vm`mem, vm.pages
    ensures vm.Valid() && vm.pages.live == old(vm.pages.live) - {f}
    ensures SameXlate(old(vm.mem), vm.mem, vm.roots, {}) && PagesKept(old(vm.mem), vm.owner, vm.mem, vm.owner)
    ensures |FreeSet(vm.pages.chunks)| <= 1 || Superpage(vm.mem, vm.satp, vma)
  {
    hide MemOk, FreeSet, SameXlate, PagesKept, Superpage, Spaces, Agree;
    SpaceFacts(vm.mem, vm.roots, vm.owner, vm.kernel, vm.main, vm.pages.all, vm.pages.live);
    vm.FreePhysPage(f);
    SuperKept(old(vm.mem), vm.mem, vm.owner, vm.roots, vm.kernel, vm.satp, f, vma);
  }

  lemma Undone(m: Mem, owner: map<nat, Node>, m1: Mem, owner1: map<nat, Node>, m': Mem, owner': map<nat, Node>, roots: set<nat>)
    requires SameXlate(m, m1, roots, {}) && PagesKept(m, owner, m1, owner1)
    requires SameXlate(m1, m', roots, {}) && PagesKept(m1, owner1, m', owner')
    ensures SameXlate(m, m', roots, {}) && PagesKept(m, owner, m', owner')
  {
    hide SameXlate, PagesKept;
    SameXlateBoth(m, m1, m', roots);
    PagesKeptTrans(m, owner, m1, owner1, m', owner');
  }

  lemma FreshlyMapped(m: Mem, owner: map<nat, Node>, m1: Mem, m': Mem, owner': map<nat, Node>, roots: set<nat>, n: Node, f: nat)
    requires SameXlate(m, m1, roots, {}) && PagesKept(m, owner, m1, owner)
    requires SameXlate(m1, m', roots, {n}) && PagesKept(m1, Without(owner, n), m', owner')
    requires f in m1 && m1[f] == Page(Zeros(PAGE_SIZE)) && Agree(m1, m', f) && f in owner' && owner'[f] == n
    requires Grants(Translate(m', n.root, n.path), f, USER_RWX)
    ensures FreshPage(m, owner, m', owner', roots, n)
  {
    hide SameXlate, PagesKept, Translate, Without;
    MapFrames(m, owner, m1, owner, m', owner', roots, n, n.path);
  }

  /** A fault in user memory gets a zero page, readable, writable and executable; one outside is not handled. A
      fault that cannot be handled changes no translation and leaks no page. */
  method PageFault(vm: Memory, vma: nat) returns (handled: bool)
    requires vm.Valid() && UserEntry(vm.mem, vm.satp, PageBase(vma))
    modifies vm`mem, vm`owner, vm.pages
    ensures vm.Valid()
    ensures handled ==> UMEM_START <= vma < UMEM_END
    ensures handled ==> FreshPage(old(vm.mem), old(vm.owner), vm.mem, vm.owner, vm.roots, Node(vm.satp, Idx(vma)))
    ensures handled ==> FreshPage(old(vm.mem), old(vm.owner), vm.mem, vm.owner, vm.roots, Node(vm.satp, Idx(vma - vma % PAGE_SIZE)))
    ensures !handled ==> SameXlate(old(vm.mem), vm.mem, vm.roots, {}) && PagesKept(old(vm.mem), old(vm.owner), vm.mem, vm.owner)
    ensures !handled && UMEM_START <= vma < UMEM_END ==> |FreeSet(vm.pages.chunks)| <= 1 || Superpage(vm.mem, vm.satp, PageBase(vma))
    ensures !handled ==> vm.pages.live - vm.owner.Keys == old(vm.pages.live - vm.owner.Keys)
  {
    hide MemOk, FreeSet, Translate, Idx, SameXlate, PagesKept, Wellformed, Superpage, UserEntry, FreshPage, Grants, Without, Agree;
    SameRefl(vm.mem, vm.roots, vm.owner);
    if vma < UMEM_START || vma >= UMEM_END {
      return false;
    }
    UserIsWellformed(vma);
    IdxOfPage(vma);
    var pp := ZeroPage(vm, PageBase(vma));
    if pp.None? {
      return false;
    }
    var f := pp.value;
    ghost var m1, n := vm.mem, Node(vm.satp, Idx(PageBase(vma)));
    handled := MapFresh(vm, f, PageBase(vma));
    if handled {
      FreshlyMapped(old(vm.mem), old(vm.owner), m1, vm.mem, vm.owner, vm.roots, n, f);
    } else {
      Undone(old(vm.mem), old(vm.owner), m1, old(vm.owner), vm.mem, vm.owner, vm.roots);
    }
  }

  /** A page of zeros that no space uses yet. */
  method ZeroPage(vm: Memory, ghost vma: nat) returns (pp: Option<nat>)
    requires vm.Valid() && UserEntry(vm.mem, vm.satp, vma)
    modifies vm`mem, vm.pages
    ensures vm.Valid() && SameXlate(old(vm.mem), vm.mem, vm.roots, {}) && PagesKept(old(vm.mem), vm.owner, vm.mem, vm.owner)
    ensures UserEntry(vm.mem, vm.satp, vma)
    ensures pp.None? ==> |FreeSet(vm.pages.chunks)| <= 1 && vm.pages.live == old(vm.pages.live)
    ensures pp.Some? ==> pp.value in vm.pages.live && pp.value !in vm.owner && pp.value in vm.mem && vm.mem[pp.value] == Page(Zeros(PAGE_SIZE))
    ensures pp.Some? ==> vm.pages.live - vm.owner.Keys - {pp.value} == old(vm.pages.live - vm.owner.Keys)
  {
    hide MemOk, FreeSet, SameXlate, PagesKept, UserEntry;
    SameRefl(vm.mem, vm.roots, vm.owner);
    pp := vm.AllocPhysPage();
    if pp.Some? {
      ZeroFill(vm, pp.value, vma);
    }
  }

  /** The cleared page f is mapped at vma, or given back. */
  method MapFresh(vm: Memory, f: nat, vma: nat) returns (ok: bool)
    requires vm.Valid() && UserEntry(vm.mem, vm.satp, vma) && Wellformed(vma) && vma % PAGE_SIZE == 0
    requires f in vm.pages.live && f !in vm.owner && f in vm.mem && vm.mem[f].Page?
    modifies vm`mem, vm`owner, vm.pages
    ensures vm.Valid()
    ensures ok ==> SameXlate(old(vm.mem), vm.mem, vm.roots, {Node(vm.satp, Idx(vma))}) && Grants(Translate(vm.mem, vm.satp, Idx(vma)), f, USER_RWX)
    ensures ok ==> f in vm.owner && vm.owner[f] == Node(vm.satp, Idx(vma)) && Agree(old(vm.mem), vm.mem, f)
    ensures ok ==> PagesKept(old(vm.mem), Without(old(vm.owner), Node(vm.satp, Idx(vma))), vm.mem, vm.owner)
    ensures !ok ==> SameXlate(old(vm.mem), vm.mem, vm.roots, {}) && PagesKept(old(vm.mem), old(vm.owner), vm.mem, vm.owner)
    ensures !ok ==> |FreeSet(vm.pages.chunks)| <= 1 || Superpage(vm.mem, vm.satp, vma)
    ensures !ok ==> vm.pages.live - vm.owner.Keys == old(vm.pages.live - vm.owner.Keys) - {f}
  {
    hide MemOk, FreeSet, Translate, Idx, SameXlate, PagesKept, Wellformed, Superpage, UserEntry, Grants, Without, Agree;
    SameRefl(vm.mem, vm.roots, vm.owner);
    ghost var loose := vm.pages.live - vm.owner.Keys;
    ok := vm.MapPage(vma, f, USER_RWX);
    if !ok {
      ghost var m2, owner2 := vm.mem, vm.owner;
      assert f in loose;
      GiveBack(vm, f, vma);
      Undone(old(vm.mem), old(vm.owner), m2, owner2, vm.mem, vm.owner, vm.roots);
      assert vm.pages.live - vm.owner.Keys == loose - {f};
    }
  }

  lemma SuperKept(m: Mem, m': Mem, owner: map<nat, Node>, roots: set<nat>, kernel: set<nat>, root: nat, f: nat, vma: nat)
    requires Spaces(m, roots, owner, kernel) && root in roots && f !in owner && forall v :: v != f ==> Agree(m, m', v)
    ensures Superpage(m', root, vma) == Superpage(m, root, vma)
  {
    RefNil(m, root);
    assert Agree(m, m', root);
  }

  /** Writing a page outside the spaces changes no root. */
  lemma SameEntry(m: Mem, root: nat, f: nat, x: Frame, vma: nat, owner: map<nat, Node>, roots: set<nat>, kernel: set<nat>)
    requires UserEntry(m, root, vma) && Spaces(m, roots, owner, kernel) && root in roots && f !in owner
    ensures UserEntry(m[f := x], root, vma)
  {
    RefNil(m, root);
  }
}
