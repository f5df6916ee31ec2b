/** Address spaces of kernel/memory.c: walking, mapping and unmapping pages of the active space. The satp
    register is a variable, addresses are 64-bit naturals, and pages are named by page number. */
module Vm {
  import opened Base
  import opened Pages
  import opened Sv39
  import opened Sv39Edit
  import opened Sv39Ops

  const PAGE_SIZE: nat := 4096
  const TWO64: nat := 0x1_0000_0000_0000_0000

  /** VPN2, VPN1 and VPN0 of an address. */
  function Idx(vma: nat): (p: seq<nat>)
    ensures |p| == LEVELS && forall k :: 0 <= k < LEVELS ==> p[k] < PTES
  {
    [vma / PAGE_SIZE / 0x4_0000 % PTES, vma / PAGE_SIZE / 0x200 % PTES, vma / PAGE_SIZE % PTES]
  }

  /** The indices are the three nine-bit digits of the page number, the highest first. */
  lemma IdxDigits(vma: nat)
    ensures Idx(vma)[0] * 0x4_0000 + Idx(vma)[1] * 0x200 + Idx(vma)[2] == vma / PAGE_SIZE % 0x800_0000
  {
    var u, s, t, r := Digits(vma / PAGE_SIZE);
    Below27(vma / PAGE_SIZE, u, s * 0x4_0000 + t * 0x200 + r);
  }

  lemma Below27(n: nat, q: nat, low: nat)
    requires n == q * 0x800_0000 + low && low < 0x800_0000
    ensures n % 0x800_0000 == low
  {
  }

  lemma Below18(n: nat, q: nat, low: nat)
    requires n == q * 0x4_0000 + low && low < 0x4_0000
    ensures n % 0x4_0000 == low
  {
  }

  lemma Below9(n: nat, q: nat, low: nat)
    requires n == q * 0x200 + low && low < 0x200
    ensures n % 0x200 == low
  {
  }

  /** Addresses of one page have the same indices, and the page base is among them. */
  lemma IdxOfPage(vma: nat)
    ensures Idx(vma - vma % PAGE_SIZE) == Idx(vma)
  {
    assert (vma - vma % PAGE_SIZE) / PAGE_SIZE == vma / PAGE_SIZE;
  }

  /** A root entry that is a leaf maps a gigabyte in a row, and an entry one level below it two megabytes. */
  lemma SuperpageAddress(m: Mem, root: nat, vma: nat)
    ensures var e := Entry(m, root, Idx(vma)[0]);
      e.v && e.r ==> Translate(m, root, Idx(vma)) == if e.ppn % 0x4_0000 == 0 then Hit(e.ppn + vma / PAGE_SIZE % 0x4_0000, e) else Fault
    ensures var e := Entry(m, root, Idx(vma)[0]); var e' := Entry(m, e.ppn, Idx(vma)[1]);
      e.v && !Leaf(e) && e'.v && e'.r ==> Translate(m, root, Idx(vma)) == if e'.ppn % 0x200 == 0 then Hit(e'.ppn + vma / PAGE_SIZE % 0x200, e') else Fault
  {
    var idx := Idx(vma);
    var u, s, t, r := Digits(vma / PAGE_SIZE);
    assert idx[1..] == [t, r] && idx[1..][1..] == [r] && idx[1..][0] == t;
    assert Span(0) == 1 && Span(1) == 0x200 && Span(2) == 0x4_0000;
    OffsetOf(t, r);
    LowDigits(vma / PAGE_SIZE, u, s, t, r);
    hide Span, Offset, Idx;
  }

  lemma OffsetOf(t: nat, r: nat)
    ensures Offset([r]) == r && Offset([t, r]) == t * 0x200 + r
  {
    assert [r][1..] == [] && [t, r][1..] == [r];
    assert Span(0) == 1 && Span(1) == 0x200;
  }

  lemma LowDigits(n: nat, u: nat, s: nat, t: nat, r: nat)
    requires n == u * 0x800_0000 + s * 0x4_0000 + t * 0x200 + r && t < PTES && r < PTES
    ensures n % 0x4_0000 == t * 0x200 + r && n % 0x200 == r
  {
    Below18(n, u * 0x200 + s, t * 0x200 + r);
    Below9(n, u * 0x4_0000 + s * 0x200 + t, r);
  }

  /** wellformed: bits 63 to 38 are all 0 or all 1. */
  predicate Wellformed(vma: nat) {
    vma < TWO64 && (vma / 0x40_0000_0000 == 0 || vma / 0x40_0000_0000 == 0x3FF_FFFF)
  }

  /** These are the addresses of the lowest and of the highest 256 gigabytes. */
  lemma WellformedRange(vma: nat)
    ensures Wellformed(vma) <==> vma < 0x40_0000_0000 || TWO64 - 0x40_0000_0000 <= vma < TWO64
  {
  }

  /** A page number taken apart into its three indices and the bits above. */
  lemma Digits(m: nat) returns (u: nat, s: nat, t: nat, r: nat)
    ensures m == u * 0x800_0000 + s * 0x4_0000 + t * 0x200 + r && s < PTES && t < PTES && r < PTES
    ensures m / 0x4_0000 % PTES == s && m / 0x200 % PTES == t && m % PTES == r
  {
    var q := m / 0x200;
    r := m - q * 0x200;
    var w := q / 0x200;
    t := q - w * 0x200;
    u := w / 0x200;
    s := w - u * 0x200;
    Quotient(m, w, t * 0x200 + r);
  }

  lemma Quotient(m: nat, q: nat, r: nat)
    requires m == q * 0x4_0000 + r && r < 0x4_0000
    ensures m / 0x4_0000 == q
  {
  }

  /** The sign bits of a well-formed address follow from its top index. */
  lemma SignBits(vma: nat, u: nat, s: nat, low: nat)
    requires Wellformed(vma) && vma / PAGE_SIZE == u * 0x800_0000 + s * 0x4_0000 + low && s < PTES && low < 0x4_0000
    ensures u == if s < 256 then 0 else 0x1FF_FFFF
  {
    var top := vma / 0x40_0000_0000;
    var rest := vma - top * 0x40_0000_0000;
    var page := vma / PAGE_SIZE;
    assert page == top * 0x400_0000 + rest / PAGE_SIZE;
  }

  /** Two well-formed addresses with the same indices lie in the same page. */
  lemma IdxInjective(a: nat, b: nat)
    requires Wellformed(a) && Wellformed(b) && Idx(a) == Idx(b)
    ensures a / PAGE_SIZE == b / PAGE_SIZE
  {
    hide Wellformed;
    assert Idx(a)[0] == Idx(b)[0] && Idx(a)[1] == Idx(b)[1] && Idx(a)[2] == Idx(b)[2];
    var u, s, t, r := Digits(a / PAGE_SIZE);
    var u', s', t', r' := Digits(b / PAGE_SIZE);
    SignBits(a, u, s, t * 0x200 + r);
    SignBits(b, u', s', t' * 0x200 + r');
  }

  /** The part of memory the page tables depend on. */
  ghost predicate MemOk(m: Mem, roots: set<nat>, owner: map<nat, Node>, kernel: set<nat>, main: nat, all: set<nat>, live: set<nat>) {
    && Spaces(m, roots, owner, kernel)
    && owner.Keys - {main} <= live <= all && main !in all && kernel !! all
    && (forall v :: v in all ==> v in m)
    && forall v :: v in all - live ==> m[v].Page?
  }

  /** The address lies under a global entry of the root. */
  predicate KernelAddress(m: Mem, root: nat, vma: nat) {
    Entry(m, root, Idx(vma)[0]).v && Entry(m, root, Idx(vma)[0]).g
  }

  /** The walk does not enter a kernel subtable. */
  predicate UserEntry(m: Mem, root: nat, vma: nat) {
    var e := Entry(m, root, Idx(vma)[0]);
    e.v && e.g ==> Leaf(e)
  }

  class Memory {
    const pages: PagePool
    /** The page number of the kernel's own root table. */
    const main: nat
    ghost const kernel: set<nat>
    var mem: Mem
    /** The root of the active space. */
    var satp: nat
    ghost var roots: set<nat>
    ghost var owner: map<nat, Node>

    ghost predicate Sound()
      reads this, pages
    {
      pages.Valid() && MemOk(mem, roots, owner, kernel, main, pages.all, pages.live)
    }

    ghost predicate Valid()
      reads this, pages
    {
      Sound() && satp in roots && main in roots
    }

    /** memory_init: one space whose root holds only the kernel's global entries. */
    constructor (pages: PagePool, main: nat, ghost kernel: set<nat>, mem: Mem)
      requires pages.Valid() && pages.live == {} && main !in pages.all && kernel !! pages.all && main !in kernel
      requires (forall v :: v in pages.all ==> v in mem && mem[v].Page?) && KernelOk(mem, kernel)
      requires Tree(mem, main, LEVELS, kernel) && forall i: nat :: Entry(mem, main, i).v ==> Entry(mem, main, i).g
      ensures Valid() && this.pages == pages && this.main == main && satp == main && this.mem == mem
      ensures roots == {main} && owner == map[main := Node(main, [])]
    {
      this.pages, this.main, this.kernel, this.mem, satp := pages, main, kernel, mem, main;
      roots, owner := {main}, map[main := Node(main, [])];
      new;
      forall p ensures Ref(mem, main, p) == if p == [] then Some(main) else None {
        if p != [] {
          assert Entry(mem, main, p[0]).v ==> Entry(mem, main, p[0]).g;
        }
      }
    }

    /** alloc_phys_page: a free page, whatever it holds. */
    method AllocPhysPage() returns (pp: Option<nat>)
      requires Sound()
      modifies pages
      ensures Sound() && pages.all == old(pages.all)
      ensures pp.None? <==> old(FreeSet(pages.chunks)) == {}
      ensures pp.None? ==> pages.live == old(pages.live) && FreeSet(pages.chunks) == old(FreeSet(pages.chunks))
      ensures pp.Some? ==> pp.value in old(FreeSet(pages.chunks)) && pages.live == old(pages.live) + {pp.value}
      ensures pp.Some? ==> FreeSet(pages.chunks) == old(FreeSet(pages.chunks)) - {pp.value}
      ensures pp.Some? ==> pp.value !in owner && pp.value !in kernel && pp.value in mem && mem[pp.value].Page?
    {
      hide Spaces;
      pp := pages.AllocPage();
    }

    /** free_phys_page: the allocator writes its chunk header into the page. */
    method FreePhysPage(pp: nat)
      requires Sound() && pp in pages.live && pp !in owner
      modifies this`mem, pages
      ensures Sound() && pages.all == old(pages.all) && pages.live == old(pages.live) - {pp}
      ensures FreeSet(pages.chunks) == old(FreeSet(pages.chunks)) + {pp}
      ensures SameXlate(old(mem), mem, roots, {}) && PagesKept(old(mem), owner, mem, owner)
      ensures forall v :: v != pp ==> Agree(old(mem), mem, v)
    {
      var header: seq<u8> :| true;
      ScratchPage(mem, roots, owner, kernel, pp, Page(header));
      hide Spaces, SameXlate, PagesKept;
      assert Range(pp, 1) == {pp};
      pages.FreePages(pp, 1);
      mem := mem[pp := Page(header)];
    }

    /** Allocate an empty table and link it at entry i of t. */
    method LinkNew(t: nat, i: nat, ghost n: Node) returns (next: Option<nat>)
      requires Valid() && At(mem, roots, owner, t, n, i) && n.root == satp && |n.path| + 1 < LEVELS && !Entry(mem, t, i).v
      modifies this`mem, this`owner, pages
      ensures Valid() && pages.all == old(pages.all)
      ensures next.None? ==> mem == old(mem) && owner == old(owner) && SamePool(pages, old(pages.live), old(FreeSet(pages.chunks)))
      ensures next.None? <==> old(FreeSet(pages.chunks)) == {}
      ensures next.Some? ==> SameXlate(old(mem), mem, roots, {}) && PagesKept(old(mem), old(owner), mem, owner)
      ensures next.Some? ==> At(mem, roots, owner, next.value, Node(n.root, n.path + [i]), 0)
      ensures pages.live - owner.Keys == old(pages.live - owner.Keys)
      ensures FreeSet(pages.chunks) <= old(FreeSet(pages.chunks))
      ensures forall v :: v in old(pages.live - owner.Keys) ==> Agree(old(mem), mem, v)
    {
      hide MemOk, Translate, SameXlate, PagesKept, Owned;
      next := AllocPhysPage();
      if next.Some? {
        var f := next.value;
        LinkedNew(mem, roots, owner, kernel, main, pages.all, pages.live, t, n, i, f);
        mem := mem[f := ZeroTable()];
        mem := mem[t := Table(mem[t].pt[i := PtabPte(f, false)])];
        owner := owner[f := Node(n.root, n.path + [i])];
      }
    }

    /** One level of walk: the table behind entry i of t, allocated when it is missing and alloc is set. */
    method Descend(t: nat, i: nat, alloc: bool, ghost n: Node) returns (next: Option<nat>)
      requires Valid() && At(mem, roots, owner, t, n, i) && n.root == satp && |n.path| + 1 < LEVELS
      requires Entry(mem, t, i).v && Entry(mem, t, i).g ==> Leaf(Entry(mem, t, i))
      modifies this`mem, this`owner, pages
      ensures Valid() && pages.all == old(pages.all)
      ensures SameXlate(old(mem), mem, roots, {}) && PagesKept(old(mem), old(owner), mem, owner)
      ensures next.Some? ==> At(mem, roots, owner, next.value, Node(n.root, n.path + [i]), 0)
      ensures next.None? || !alloc ==> mem == old(mem) && owner == old(owner) && SamePool(pages, old(pages.live), old(FreeSet(pages.chunks)))
      ensures next.None? <==> if old(Entry(mem, t, i)).v then Leaf(old(Entry(mem, t, i))) else !alloc || old(FreeSet(pages.chunks)) == {}
      ensures pages.live - owner.Keys == old(pages.live - owner.Keys)
      ensures FreeSet(pages.chunks) <= old(FreeSet(pages.chunks))
      ensures forall v :: v in old(pages.live - owner.Keys) ==> Agree(old(mem), mem, v)
    {
      hide MemOk, SameXlate, PagesKept;
      SameRefl(mem, roots, owner);
      var e := mem[t].pt[i];
      if !e.v {
        if !alloc {
          return None;
        }
        next := LinkNew(t, i, n);
      } else if e.r || e.w || e.x {
        next := None;
      } else {
        SpaceFacts(mem, roots, owner, kernel, main, pages.all, pages.live);
        ChildTable(mem, roots, owner, kernel, t, n, i);
        next := Some(e.ppn);
      }
    }

    /** walk: the slot of the bottom entry for an address of the active space. Whatever it allocates, no
        translation of any space and no page changes. */
    method Walk(vma: nat, alloc: bool) returns (slot: Option<(nat, nat)>)
      requires Valid() && UserEntry(mem, satp, vma)
      modifies this`mem, this`owner, pages
      ensures Valid() && pages.all == old(pages.all)
      ensures SameXlate(old(mem), mem, roots, {}) && PagesKept(old(mem), old(owner), mem, owner)
      ensures slot.Some? ==> slot.value.1 == Idx(vma)[2] && At(mem, roots, owner, slot.value.0, Node(satp, Idx(vma)[..2]), slot.value.1)
      ensures !alloc ==> mem == old(mem) && owner == old(owner) && SamePool(pages, old(pages.live), old(FreeSet(pages.chunks)))
      ensures !alloc ==> (slot.Some? <==> Ref(mem, satp, Idx(vma)[..2]).Some?)
      ensures alloc && slot.None? ==> FreeSet(pages.chunks) == {} || Superpage(mem, satp, vma)
      ensures pages.live - owner.Keys == old(pages.live - owner.Keys)
      ensures FreeSet(pages.chunks) <= old(FreeSet(pages.chunks))
      ensures forall v :: v in old(pages.live - owner.Keys) ==> Agree(old(mem), mem, v)
    {
      hide MemOk, SameXlate, PagesKept, Ref, Owned, FreeSet;
      var p := Idx(vma);
      RootTable(mem, roots, owner, kernel, main, pages.all, pages.live, satp, p[0]);
      ghost var n0, n1 := Node(satp, []), Node(satp, [p[0]]);
      var pt1 := Descend(satp, p[0], alloc, n0);
      if pt1.None? {
        RootLeaves(mem, roots, owner, kernel, main, pages.all, pages.live, satp, p);
        return None;
      }
      ghost var m1, owner1 := mem, owner;
      assert [] + [p[0]] == [p[0]];
      NoGlobal(mem, roots, owner, kernel, main, pages.all, pages.live, pt1.value, n1, p[1]);
      var pt0 := Descend(pt1.value, p[1], alloc, n1);
      SameXlateBoth(old(mem), m1, mem, roots);
      PagesKeptTrans(old(mem), old(owner), m1, owner1, mem, owner);
      assert [p[0]] + [p[1]] == p[..2];
      PathOf(m1, roots, owner1, pt1.value, n1, p[1]);
      if pt0.None? {
        return None;
      }
      return Some((pt0.value, p[2]));
    }

    /** Store a bottom entry of the active space. */
    method StoreEntry(t: nat, i: nat, e: Pte, ghost n: Node)
      requires Valid() && At(mem, roots, owner, t, n, i) && |n.path| + 1 == LEVELS
      requires e.v ==> Leaf(e) && !e.g && e.ppn in pages.live && e.ppn !in owner && e.ppn in mem && mem[e.ppn].Page?
      modifies this`mem, this`owner
      ensures Valid() && n.root in roots
      ensures SameXlate(old(mem), mem, roots, {Node(n.root, n.path + [i])}) && Translate(mem, n.root, n.path + [i]) == LeafX(e)
      ensures PagesKept(old(mem), Without(old(owner), Node(n.root, n.path + [i])), mem, owner)
      ensures owner == NewOwner(old(mem), old(owner), t, n, i, e) && mem == SetEntry(old(mem), t, i, e)
      ensures e.v ==> e.ppn in owner && owner[e.ppn] == Node(n.root, n.path + [i]) && Agree(old(mem), mem, e.ppn)
      ensures old(Entry(mem, t, i)).v ==> old(Entry(mem, t, i)).ppn in old(owner) && old(owner)[old(Entry(mem, t, i)).ppn] == Node(n.root, n.path + [i])
    {
      hide MemOk, SameXlate, PagesKept, Translate, LeafX, Without, Owned;
      StoreLeaf(mem, roots, owner, kernel, main, pages.all, pages.live, t, n, i, e);
      owner := NewOwner(mem, owner, t, n, i, e);
      mem := mem[t := Table(mem[t].pt[i := e])];
    }

    /** map_page: exactly one page of the active space changes its translation, or none when it fails. */
    method MapPage(vma: nat, pp: nat, f: Flags) returns (ok: bool)
      requires Valid() && UserEntry(mem, satp, vma)
      requires pp in pages.live && pp !in owner && mem[pp].Page? && (f.r || f.w || f.x) && !f.g
      modifies this`mem, this`owner, pages
      ensures Valid() && pages.all == old(pages.all) && FreeSet(pages.chunks) <= old(FreeSet(pages.chunks))
      ensures !ok ==> SameXlate(old(mem), mem, roots, {}) && PagesKept(old(mem), old(owner), mem, owner)
      ensures !ok ==> pages.live - owner.Keys == old(pages.live - owner.Keys)
      ensures !ok ==> !Wellformed(vma) || vma % PAGE_SIZE != 0 || FreeSet(pages.chunks) == {} || Superpage(mem, satp, vma)
      ensures ok ==> Wellformed(vma) && vma % PAGE_SIZE == 0
      ensures ok ==> SameXlate(old(mem), mem, roots, {Node(satp, Idx(vma))})
      ensures ok ==> if f.r || !f.w then Grants(Translate(mem, satp, Idx(vma)), pp, f) else Translate(mem, satp, Idx(vma)) == Fault
      ensures ok ==> pp in owner && owner[pp] == Node(satp, Idx(vma)) && Agree(old(mem), mem, pp)
      ensures ok ==> PagesKept(old(mem), Without(old(owner), Node(satp, Idx(vma))), mem, owner)
    {
      assert pp in mem;
      hide MemOk, SameXlate, PagesKept, Ref, Translate, FreeSet, At, Without, LeafX, Idx, UserEntry, Superpage;
      SameRefl(mem, roots, owner);
      if !Wellformed(vma) || vma % PAGE_SIZE != 0 {
        return false;
      }
      var slot := Walk(vma, true);
      if slot.None? {
        return false;
      }
      var (t, i) := slot.value;
      ghost var n := Node(satp, Idx(vma)[..2]);
      ghost var m1, owner1 := mem, owner;
      assert Idx(vma)[..2] + [i] == Idx(vma);
      assert pp in old(pages.live - owner.Keys) && pp in pages.live - owner.Keys;
      LeafGrants(pp, f);
      StoreEntry(t, i, LeafPte(pp, f), n);
      MapFrames(old(mem), old(owner), m1, owner1, mem, owner, roots, n, Idx(vma));
      return true;
    }
  }

  /** The owners other than that of place n. */
  ghost function Without(owner: map<nat, Node>, n: Node): map<nat, Node> {
    map v | v in owner && owner[v] != n :: owner[v]
  }

  /** Setting a bottom entry to a page that was nobody's, or to nothing. */
  lemma StoreLeaf(m: Mem, roots: set<nat>, owner: map<nat, Node>, kernel: set<nat>, main: nat, all: set<nat>, live: set<nat>,
                  t: nat, n: Node, i: nat, e: Pte)
    requires MemOk(m, roots, owner, kernel, main, all, live) && At(m, roots, owner, t, n, i) && |n.path| + 1 == LEVELS
    requires e.v ==> Leaf(e) && !e.g && e.ppn in live && e.ppn !in owner && m[e.ppn].Page?
    ensures n.root in roots && MemOk(SetEntry(m, t, i, e), roots, NewOwner(m, owner, t, n, i, e), kernel, main, all, live)
    ensures SameXlate(m, SetEntry(m, t, i, e), roots, {Node(n.root, n.path + [i])})
    ensures Translate(SetEntry(m, t, i, e), n.root, n.path + [i]) == LeafX(e)
    ensures PagesKept(m, Without(owner, Node(n.root, n.path + [i])), SetEntry(m, t, i, e), NewOwner(m, owner, t, n, i, e))
    ensures Entry(m, t, i).v ==> Entry(m, t, i).ppn in owner && owner[Entry(m, t, i).ppn] == Node(n.root, n.path + [i])
    ensures forall v :: v != t ==> Agree(m, SetEntry(m, t, i, e), v)
  {
    hide Translate, Tree, KernelOk, Ref, SameXlate, Childless;
    NoGlobal(m, roots, owner, kernel, main, all, live, t, n, i);
    SpaceRoot(m, roots, owner, kernel, t);
    OldLeaf(m, roots, owner, t, n, i);
    if e.v {
      PageIsLeaf(m, e.ppn, kernel);
    }
    SetLeaf(m, roots, owner, kernel, t, n, i, e);
    hide Spaces, Owned;
    StoredPages(m, roots, owner, kernel, main, all, live, t, n, i, e);
  }

  lemma OldLeaf(m: Mem, roots: set<nat>, owner: map<nat, Node>, t: nat, n: Node, i: nat)
    requires At(m, roots, owner, t, n, i) && n.root in roots && (Entry(m, t, i).v ==> !Entry(m, t, i).g)
    ensures Entry(m, t, i).v ==> Entry(m, t, i).ppn in owner && owner[Entry(m, t, i).ppn] == Node(n.root, n.path + [i])
  {
    PathOf(m, roots, owner, t, n, i);
  }

  lemma StoredPages(m: Mem, roots: set<nat>, owner: map<nat, Node>, kernel: set<nat>, main: nat, all: set<nat>, live: set<nat>,
                    t: nat, n: Node, i: nat, e: Pte)
    requires MemOk(m, roots, owner, kernel, main, all, live) && At(m, roots, owner, t, n, i)
    requires Entry(m, t, i).v ==> Entry(m, t, i).ppn in owner && owner[Entry(m, t, i).ppn] == Node(n.root, n.path + [i])
    requires e.v ==> e.ppn in live && e.ppn !in owner
    requires Spaces(SetEntry(m, t, i, e), roots, NewOwner(m, owner, t, n, i, e), kernel)
    ensures MemOk(SetEntry(m, t, i, e), roots, NewOwner(m, owner, t, n, i, e), kernel, main, all, live)
    ensures PagesKept(m, Without(owner, Node(n.root, n.path + [i])), SetEntry(m, t, i, e), NewOwner(m, owner, t, n, i, e))
  {
    hide Spaces, Owned;
  }

  lemma PageIsLeaf(m: Mem, v: nat, kernel: set<nat>)
    requires v in m && m[v].Page?
    ensures Childless(m, v) && Tree(m, v, 0, kernel)
  {
  }

  /** The walk kept everything and the store changed one place. */
  lemma MapFrames(a: Mem, oa: map<nat, Node>, b: Mem, ob: map<nat, Node>, c: Mem, oc: map<nat, Node>, roots: set<nat>, n: Node, idx: seq<nat>)
    requires SameXlate(a, b, roots, {}) && PagesKept(a, oa, b, ob)
    requires SameXlate(b, c, roots, {Node(n.root, idx)}) && PagesKept(b, Without(ob, Node(n.root, idx)), c, oc)
    ensures SameXlate(a, c, roots, {Node(n.root, idx)}) && PagesKept(a, Without(oa, Node(n.root, idx)), c, oc)
  {
    hide Translate;
  }

  /** Only the addresses of one page are affected. */
  lemma OnePage(m: Mem, m': Mem, roots: set<nat>, root: nat, vma: nat, r: nat, va: nat)
    requires SameXlate(m, m', roots, {Node(root, Idx(vma))}) && Wellformed(vma) && Wellformed(va)
    requires r in roots && (r != root || va / PAGE_SIZE != vma / PAGE_SIZE)
    ensures Translate(m', r, Idx(va)) == Translate(m, r, Idx(va))
  {
    hide Translate, Idx;
    if r == root && Idx(va) == Idx(vma) {
      IdxInjective(va, vma);
    }
  }

  /** The allocator is as it was. */
  ghost predicate SamePool(pages: PagePool, live: set<nat>, free: set<nat>)
    reads pages
  {
    pages.live == live && FreeSet(pages.chunks) == free
  }

  /** The address lies in a superpage of the root. */
  predicate Superpage(m: Mem, root: nat, vma: nat) {
    Entry(m, root, Idx(vma)[0]).v && Leaf(Entry(m, root, Idx(vma)[0]))
  }

  /** A cleared page f linked as a table into the missing entry i of t: the memory stays sound and no translation
      changes. */
  lemma LinkedNew(m: Mem, roots: set<nat>, owner: map<nat, Node>, kernel: set<nat>, main: nat, all: set<nat>, live: set<nat>,
                  t: nat, n: Node, i: nat, f: nat)
    requires MemOk(m, roots, owner, kernel, main, all, live) && At(m, roots, owner, t, n, i) && n.root in roots
    requires |n.path| + 1 < LEVELS && !Entry(m, t, i).v && f in live && f !in owner && f !in kernel && f in m
    ensures t in m[f := ZeroTable()] && m[f := ZeroTable()][t].Table? && i < |m[f := ZeroTable()][t].pt|
    ensures var m' := m[f := ZeroTable()][t := Table(m[f := ZeroTable()][t].pt[i := PtabPte(f, false)])];
      var owner' := owner[f := Node(n.root, n.path + [i])];
      && MemOk(m', roots, owner', kernel, main, all, live) && SameXlate(m, m', roots, {}) && PagesKept(m, owner, m', owner')
      && At(m', roots, owner', f, Node(n.root, n.path + [i]), 0)
      && forall v :: v in live - owner.Keys - {f} ==> Agree(m, m', v)
  {
    hide Tree, KernelOk, Translate, Ref, SameXlate, PagesKept;
    ScratchPage(m, roots, owner, kernel, f, ZeroTable());
    var m1 := m[f := ZeroTable()];
    LinkTable(m1, roots, owner, kernel, t, n, i, f);
    var m', owner' := m1[t := Table(m1[t].pt[i := PtabPte(f, false)])], owner[f := Node(n.root, n.path + [i])];
    SameXlateBoth(m, m1, m', roots);
    PagesKeptTrans(m, owner, m1, owner, m', owner');
    SpaceRoot(m', roots, owner', kernel, f);
  }

  lemma SpaceRoot(m: Mem, roots: set<nat>, owner: map<nat, Node>, kernel: set<nat>, f: nat)
    requires Spaces(m, roots, owner, kernel) && f in owner
    ensures owner[f].root in roots
  {
  }

  lemma SpaceFacts(m: Mem, roots: set<nat>, owner: map<nat, Node>, kernel: set<nat>, main: nat, all: set<nat>, live: set<nat>)
    requires MemOk(m, roots, owner, kernel, main, all, live)
    ensures Spaces(m, roots, owner, kernel)
  {
  }

  lemma RootTable(m: Mem, roots: set<nat>, owner: map<nat, Node>, kernel: set<nat>, main: nat, all: set<nat>, live: set<nat>, r: nat, i: nat)
    requires MemOk(m, roots, owner, kernel, main, all, live) && r in roots && i < PTES
    ensures At(m, roots, owner, r, Node(r, []), i)
  {
    RefNil(m, r);
  }

  /** Tables below the root hold no global and no leaf entries above the bottom. */
  lemma NoGlobal(m: Mem, roots: set<nat>, owner: map<nat, Node>, kernel: set<nat>, main: nat, all: set<nat>, live: set<nat>, t: nat, n: Node, i: nat)
    requires MemOk(m, roots, owner, kernel, main, all, live) && At(m, roots, owner, t, n, i) && |n.path| > 0
    ensures Entry(m, t, i).v ==> !Entry(m, t, i).g && (Leaf(Entry(m, t, i)) <==> |n.path| + 1 == LEVELS)
  {
    assert owner[t].root in roots;
    HeightAt(m, n.root, LEVELS, n.path, kernel);
    assert Entry(m, t, i) == m[t].pt[i];
  }

  /** The path one entry below a table. */
  lemma PathOf(m: Mem, roots: set<nat>, owner: map<nat, Node>, t: nat, n: Node, i: nat)
    requires At(m, roots, owner, t, n, i)
    ensures Ref(m, n.root, n.path + [i]) == (var e := Entry(m, t, i); if e.v && !e.g then Some(e.ppn) else None)
  {
    RefSnoc(m, n.root, n.path, t, i);
  }

  /** A superpage of a root is global, so no path of the tree goes through it. */
  lemma RootLeaves(m: Mem, roots: set<nat>, owner: map<nat, Node>, kernel: set<nat>, main: nat, all: set<nat>, live: set<nat>, r: nat, p: seq<nat>)
    requires MemOk(m, roots, owner, kernel, main, all, live) && r in roots && |p| == LEVELS && p[0] < PTES
    requires !Entry(m, r, p[0]).v || Leaf(Entry(m, r, p[0]))
    ensures Ref(m, r, p[..2]).None?
  {
    assert p[..2] == [p[0]] + [p[1]];
    RefCons(m, r, p[0], [p[1]]);
    assert Tree(m, r, LEVELS, kernel);
    assert Entry(m, r, p[0]) == m[r].pt[p[0]];
  }

  lemma SameRefl(m: Mem, roots: set<nat>, owner: map<nat, Node>)
    ensures SameXlate(m, m, roots, {}) && PagesKept(m, owner, m, owner)
  {
  }

  /** A valid entry above the bottom level leads to a table of the same space. */
  lemma ChildTable(m: Mem, roots: set<nat>, owner: map<nat, Node>, kernel: set<nat>, t: nat, n: Node, i: nat)
    requires Spaces(m, roots, owner, kernel) && At(m, roots, owner, t, n, i) && n.root in roots && |n.path| + 1 < LEVELS
    requires Entry(m, t, i).v && !Entry(m, t, i).g
    ensures At(m, roots, owner, Entry(m, t, i).ppn, Node(n.root, n.path + [i]), 0)
  {
    var c := Entry(m, t, i).ppn;
    RefSnoc(m, n.root, n.path, t, i);
    HeightAt(m, n.root, LEVELS, n.path + [i], kernel);
  }
}
