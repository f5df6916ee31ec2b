/** unmap_and_free_range of kernel/memory.c: exactly the bottom leaves of the range go, each freed once. */
module VmUnmap {
  import opened Base
  import opened Pages
  import opened Sv39
  import opened Sv39Edit
  import opened Sv39Ops
  import opened Vm

  /** The pages mapped at these places. */
  ghost function HeldAt(owner: map<nat, Node>, ns: set<Node>): set<nat> {
    set v | v in owner && owner[v] in ns
  }

  ghost function WithoutAll(owner: map<nat, Node>, ns: set<Node>): map<nat, Node> {
    map v | v in owner && owner[v] !in ns :: owner[v]
  }

  /** An address with no bottom table and no superpage faults. */
  lemma NoPathFaults(m: Mem, roots: set<nat>, owner: map<nat, Node>, kernel: set<nat>, r: nat, vma: nat)
    requires Spaces(m, roots, owner, kernel) && r in roots && UserEntry(m, r, vma) && Ref(m, r, Idx(vma)[..2]).None?
    ensures !Superpage(m, r, vma) ==> Translate(m, r, Idx(vma)) == Fault
  {
    hide Idx;
    var p := Idx(vma);
    var e := Entry(m, r, p[0]);
    if e.v && !Leaf(e) {
      assert p[..2] == [p[0]] + [p[1]];
      RefCons(m, r, p[0], [p[1]]);
      assert e == m[r].pt[p[0]];
      assert Tree(m, e.ppn, 2, kernel);
      var e1 := Entry(m, e.ppn, p[1]);
      RefCons(m, e.ppn, p[1], []);
      assert [p[1]] + [] == [p[1]];
      assert e1 == m[e.ppn].pt[p[1]];
      assert p[1..][0] == p[1];
    }
  }

  /** The bottom entry decides. */
  lemma BottomEntry(m: Mem, roots: set<nat>, owner: map<nat, Node>, kernel: set<nat>, t: nat, n: Node, i: nat)
    requires Spaces(m, roots, owner, kernel) && At(m, roots, owner, t, n, i) && n.root in roots && |n.path| + 1 == LEVELS
    ensures Translate(m, n.root, n.path + [i]) == LeafX(Entry(m, t, i))
  {
    hide Translate, Tree;
    TranslateAt(m, roots, owner, kernel, t, n, i, NULL_PTE, n.path + [i]);
    assert (n.path + [i])[|n.path|..] == [i];
    LeafTranslate(m, t, i);
  }

  /** An address below a bottom table is not in a superpage. */
  lemma BelowTable(m: Mem, roots: set<nat>, owner: map<nat, Node>, kernel: set<nat>, r: nat, p: seq<nat>)
    requires Spaces(m, roots, owner, kernel) && r in roots && |p| == LEVELS && Ref(m, r, p[..2]).Some?
    ensures !Leaf(Entry(m, r, p[0]))
  {
    assert p[..2] == [p[0]] + [p[1]];
    RefCons(m, r, p[0], [p[1]]);
    assert Entry(m, r, p[0]) == m[r].pt[p[0]];
  }

  /** One round of the loop. */
  method UnmapPage(vm: Memory, vma: nat)
    requires vm.Valid() && UserEntry(vm.mem, vm.satp, vma)
    modifies vm`mem, vm`owner, vm.pages
    ensures vm.Valid() && vm.pages.all == old(vm.pages.all)
    ensures SameXlate(old(vm.mem), vm.mem, vm.roots, {Node(vm.satp, Idx(vma))})
    ensures Translate(vm.mem, vm.satp, Idx(vma)) == if Superpage(vm.mem, vm.satp, vma) then old(Translate(vm.mem, vm.satp, Idx(vma))) else Fault
    ensures vm.owner == Without(old(vm.owner), Node(vm.satp, Idx(vma)))
    ensures FreeSet(vm.pages.chunks) == old(FreeSet(vm.pages.chunks)) + HeldAt(old(vm.owner), {Node(vm.satp, Idx(vma))})
    ensures PagesKept(old(vm.mem), vm.owner, vm.mem, vm.owner)
    ensures Agree(old(vm.mem), vm.mem, vm.satp)
  {
    hide MemOk, SameXlate, PagesKept, Translate, FreeSet, At, Ref, Idx;
    ghost var place := Node(vm.satp, Idx(vma));
    ghost var n := Node(vm.satp, Idx(vma)[..2]);
    SpaceFacts(vm.mem, vm.roots, vm.owner, vm.kernel, vm.main, vm.pages.all, vm.pages.live);
    SameRefl(vm.mem, vm.roots, vm.owner);
    var slot := vm.Walk(vma, false);
    if slot.None? {
      NoPathFaults(vm.mem, vm.roots, vm.owner, vm.kernel, vm.satp, vma);
      NothingAt(vm.mem, vm.roots, vm.owner, vm.kernel, vm.satp, Idx(vma));
      NothingFreed(vm.mem, vm.owner, vm.roots, place);
      return;
    }
    var (t, i) := slot.value;
    assert Idx(vma)[..2] + [i] == Idx(vma);
    InTable(vm.mem, vm.roots, vm.owner, t, n, i);
    BelowTable(vm.mem, vm.roots, vm.owner, vm.kernel, vm.satp, Idx(vma));
    BottomEntry(vm.mem, vm.roots, vm.owner, vm.kernel, t, n, i);
    var e := vm.mem[t].pt[i];
    if !e.v {
      NothingBelow(vm.mem, vm.roots, vm.owner, t, n, i);
      NothingFreed(vm.mem, vm.owner, vm.roots, place);
      return;
    }
    var pp := e.ppn;
    ghost var owner0 := vm.owner;
    vm.StoreEntry(t, i, NULL_PTE, n);
    ghost var m1 := vm.mem;
    OnePageAt(old(vm.mem), vm.roots, owner0, vm.kernel, vm.main, vm.pages.all, vm.pages.live, pp, place);
    NotRoot(old(vm.mem), vm.roots, owner0, vm.kernel, vm.main, vm.pages.all, vm.pages.live, t);
    vm.FreePhysPage(pp);
    SameXlateTrans(old(vm.mem), m1, vm.mem, vm.roots, {place}, {});
    assert {place} + {} == {place};
    SameAt(m1, vm.mem, vm.roots, {}, vm.satp, Idx(vma));
    assert Agree(m1, vm.mem, vm.satp) && Agree(old(vm.mem), m1, vm.satp);
    PagesKeptTrans(old(vm.mem), vm.owner, m1, vm.owner, vm.mem, vm.owner);
  }

  lemma SameAt(m: Mem, m': Mem, roots: set<nat>, but: set<Node>, r: nat, idx: seq<nat>)
    requires SameXlate(m, m', roots, but) && r in roots && |idx| == LEVELS && Node(r, idx) !in but
    ensures Translate(m', r, idx) == Translate(m, r, idx)
  {
  }

  /** Nothing is owned at a place whose bottom table is missing. */
  lemma NothingAt(m: Mem, roots: set<nat>, owner: map<nat, Node>, kernel: set<nat>, r: nat, p: seq<nat>)
    requires Spaces(m, roots, owner, kernel) && |p| == LEVELS && Ref(m, r, p[..2]).None?
    ensures forall v :: v in owner ==> owner[v] != Node(r, p)
  {
    assert p == p[..2] + [p[2]];
    RefAppend(m, r, p[..2], [p[2]]);
  }

  lemma NothingBelow(m: Mem, roots: set<nat>, owner: map<nat, Node>, t: nat, n: Node, i: nat)
    requires At(m, roots, owner, t, n, i) && !Entry(m, t, i).v
    ensures forall v :: v in owner ==> owner[v] != Node(n.root, n.path + [i])
  {
    PathOf(m, roots, owner, t, n, i);
  }

  lemma NothingFreed(m: Mem, owner: map<nat, Node>, roots: set<nat>, place: Node)
    requires forall v :: v in owner ==> owner[v] != place
    ensures Without(owner, place) == owner && HeldAt(owner, {place}) == {} && SameXlate(m, m, roots, {place})
  {
  }

  /** The page at a place is the only one there, it came from the allocator, and it is no root. */
  lemma OnePageAt(m: Mem, roots: set<nat>, owner: map<nat, Node>, kernel: set<nat>, main: nat, all: set<nat>, live: set<nat>, pp: nat, place: Node)
    requires MemOk(m, roots, owner, kernel, main, all, live) && main in roots && pp in owner && owner[pp] == place && place.path != []
    ensures pp in live && pp !in roots
    ensures HeldAt(owner, {place}) == {pp} && Without(owner, place) == owner - {pp}
  {
    NotRoot(m, roots, owner, kernel, main, all, live, pp);
    hide Tree, KernelOk, Ref;
    assert Ref(m, place.root, place.path) == Some(pp);
    forall v | v in owner && owner[v] == place ensures v == pp {
    }
    assert Without(owner, place) == owner - {pp};
  }

  lemma NotRoot(m: Mem, roots: set<nat>, owner: map<nat, Node>, kernel: set<nat>, main: nat, all: set<nat>, live: set<nat>, v: nat)
    requires MemOk(m, roots, owner, kernel, main, all, live) && main in roots && v in owner && owner[v].path != []
    ensures v !in roots && v != main
  {
    RefNil(m, v);
  }

  /** t is a table of the active space. */
  lemma InTable(m: Mem, roots: set<nat>, owner: map<nat, Node>, t: nat, n: Node, i: nat)
    requires At(m, roots, owner, t, n, i)
    ensures Ref(m, n.root, n.path) == Some(t) && n.root in roots && t in m && m[t].Table? && |m[t].pt| == PTES && i < PTES
    ensures Entry(m, t, i) == m[t].pt[i] && |n.path| < LEVELS && t in owner && owner[t] == n
  {
  }

  /** Page k of a range. */
  function PlaceAt(root: nat, vma: nat, k: nat): Node {
    Node(root, Idx(vma + k * PAGE_SIZE))
  }

  ghost function Places(root: nat, vma: nat, n: nat): set<Node> {
    set k: nat | k < n :: PlaceAt(root, vma, k)
  }

  /** The loop's rounds: ROUND_UP(size, PAGE_SIZE) / PAGE_SIZE. */
  function PageCount(size: nat): (n: nat)
    ensures n * PAGE_SIZE >= size && (n > 0 ==> (n - 1) * PAGE_SIZE < size)
  {
    (size + PAGE_SIZE - 1) / PAGE_SIZE
  }

  /** unmap_and_free_range: afterwards the range faults, no other address of any space has changed, and exactly
      the pages that were mapped in the range have been freed. */
  method UnmapRange(vm: Memory, vma: nat, size: nat)
    requires vm.Valid() && forall k: nat :: k < PageCount(size) ==> UserEntry(vm.mem, vm.satp, vma + k * PAGE_SIZE)
    modifies vm`mem, vm`owner, vm.pages
    ensures vm.Valid() && vm.pages.all == old(vm.pages.all)
    ensures SameXlate(old(vm.mem), vm.mem, vm.roots, Places(vm.satp, vma, PageCount(size)))
    ensures forall k: nat :: k < PageCount(size) && !Superpage(vm.mem, vm.satp, vma + k * PAGE_SIZE) ==>
      Translate(vm.mem, vm.satp, Idx(vma + k * PAGE_SIZE)) == Fault
    ensures vm.owner == WithoutAll(old(vm.owner), Places(vm.satp, vma, PageCount(size)))
    ensures FreeSet(vm.pages.chunks) == old(FreeSet(vm.pages.chunks)) + HeldAt(old(vm.owner), Places(vm.satp, vma, PageCount(size)))
    ensures PagesKept(old(vm.mem), vm.owner, vm.mem, vm.owner)
  {
    hide MemOk, Idx, FreeSet, Translate;
    ghost var n := PageCount(size);
    var limit := PageCount(size) * PAGE_SIZE;
    var off := 0;
    ghost var k := 0;
    SameRefl(vm.mem, vm.roots, vm.owner);
    NoPlaces(vm.owner, vm.satp, vma);
    while off < limit
      invariant off == k * PAGE_SIZE && 0 <= k <= n
      invariant vm.Valid() && vm.pages.all == old(vm.pages.all) && Agree(old(vm.mem), vm.mem, vm.satp)
      invariant SameXlate(old(vm.mem), vm.mem, vm.roots, Places(vm.satp, vma, k))
      invariant forall j: nat :: j < k ==> Unmapped(vm.mem, vm.satp, vma + j * PAGE_SIZE)
      invariant vm.owner == WithoutAll(old(vm.owner), Places(vm.satp, vma, k))
      invariant FreeSet(vm.pages.chunks) == old(FreeSet(vm.pages.chunks)) + HeldAt(old(vm.owner), Places(vm.satp, vma, k))
      invariant PagesKept(old(vm.mem), vm.owner, vm.mem, vm.owner)
    {
      ghost var m0, owner0 := vm.mem, vm.owner;
      assert UserEntry(old(vm.mem), vm.satp, vma + k * PAGE_SIZE);
      UnmapPage(vm, vma + off);
      RangeStep(old(vm.mem), m0, vm.mem, old(vm.owner), owner0, vm.owner, vm.roots, vm.satp, vma, k);
      off := off + PAGE_SIZE;
      k := k + 1;
    }
    assert k == n;
  }

  ghost predicate Unmapped(m: Mem, root: nat, vma: nat) {
    !Superpage(m, root, vma) ==> Translate(m, root, Idx(vma)) == Fault
  }

  lemma NoPlaces(owner: map<nat, Node>, root: nat, vma: nat)
    ensures Places(root, vma, 0) == {} && WithoutAll(owner, {}) == owner && HeldAt(owner, {}) == {}
  {
    assert WithoutAll(owner, {}) == owner;
  }

  lemma MorePlaces(root: nat, vma: nat, k: nat)
    ensures Places(root, vma, k + 1) == Places(root, vma, k) + {PlaceAt(root, vma, k)}
  {
  }

  /** One more page of the range. */
  lemma RangeStep(a: Mem, b: Mem, c: Mem, oa: map<nat, Node>, ob: map<nat, Node>, oc: map<nat, Node>, roots: set<nat>, root: nat, vma: nat, k: nat)
    requires root in roots && Agree(a, b, root) && Agree(b, c, root)
    requires SameXlate(a, b, roots, Places(root, vma, k)) && SameXlate(b, c, roots, {PlaceAt(root, vma, k)})
    requires ob == WithoutAll(oa, Places(root, vma, k)) && oc == Without(ob, PlaceAt(root, vma, k))
    requires forall j: nat :: j < k ==> Unmapped(b, root, vma + j * PAGE_SIZE)
    requires Unmapped(c, root, vma + k * PAGE_SIZE)
    requires PagesKept(a, ob, b, ob) && PagesKept(b, oc, c, oc)
    ensures SameXlate(a, c, roots, Places(root, vma, k + 1)) && oc == WithoutAll(oa, Places(root, vma, k + 1))
    ensures HeldAt(oa, Places(root, vma, k + 1)) == HeldAt(oa, Places(root, vma, k)) + HeldAt(ob, {PlaceAt(root, vma, k)})
    ensures forall j: nat :: j < k + 1 ==> Unmapped(c, root, vma + j * PAGE_SIZE)
    ensures PagesKept(a, oc, c, oc)
  {
    hide Translate, Idx;
    MorePlaces(root, vma, k);
    SameXlateTrans(a, b, c, roots, Places(root, vma, k), {PlaceAt(root, vma, k)});
    forall j: nat | j < k ensures Unmapped(c, root, vma + j * PAGE_SIZE) {
      assert Unmapped(b, root, vma + j * PAGE_SIZE);
      if PlaceAt(root, vma, j) != PlaceAt(root, vma, k) {
        SameAt(b, c, roots, {PlaceAt(root, vma, k)}, root, Idx(vma + j * PAGE_SIZE));
      }
    }
  }
}
