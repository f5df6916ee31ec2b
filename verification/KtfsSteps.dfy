/** What one allocation may change, and that it composes: the relation the kernel's write path keeps between
    the image before a step and the image after it. */
module KtfsSteps {
  import opened Base
  import opened Format
  import opened KtfsTree

  /** The superblock and the inode blocks are the same. */
  ghost predicate SameMeta(g: Geo, st: seq<Block>, st': seq<Block>) {
    |st'| == |st| && forall b :: (b == 0 || g.FirstInode() <= b < g.FirstData()) && b < |st| ==> st'[b] == st[b]
  }

  /** Owners are only added. */
  ghost predicate OwnersKept(owner: map<nat, Node>, owner': map<nat, Node>) {
    forall v :: v in owner ==> v in owner' && owner'[v] == owner[v]
  }

  /** No block with file data is written. */
  ghost predicate DataKept(g: Geo, st: seq<Block>, st': seq<Block>, owner: map<nat, Node>) {
    |st'| == |st| && forall v :: v in owner && !IsIndex(owner[v].p) && g.FirstData() + v < |st| ==>
      st'[g.FirstData() + v] == st[g.FirstData() + v]
  }

  /** No pointer is lost or redirected. */
  ghost predicate PtrsKept(g: Geo, st: seq<Block>, inos: seq<Inode>, st': seq<Block>, inos': seq<Inode>) {
    |inos'| == |inos| && forall i: nat, p :: i < |inos| && Ptr(g, st, inos[i], p).Some? ==>
      Ptr(g, st', inos'[i], p) == Ptr(g, st, inos[i], p)
  }

  /** No data pointer appears, except possibly at target. */
  ghost predicate OnlyAt(g: Geo, st: seq<Block>, inos: seq<Inode>, st': seq<Block>, inos': seq<Inode>, target: Node) {
    |inos'| == |inos| && forall i: nat, p :: i < |inos| && !IsIndex(p) && Ptr(g, st', inos'[i], p).Some? ==>
      Ptr(g, st, inos[i], p).Some? || Node(i, p) == target
  }

  ghost predicate Extends(g: Geo, st: seq<Block>, inos: seq<Inode>, owner: map<nat, Node>,
                          st': seq<Block>, inos': seq<Inode>, owner': map<nat, Node>, target: Node) {
    && SameMeta(g, st, st')
    && OwnersKept(owner, owner')
    && DataKept(g, st, st', owner)
    && PtrsKept(g, st, inos, st', inos')
    && OnlyAt(g, st, inos, st', inos', target)
  }

  lemma ExtendsTrans(g: Geo, st: seq<Block>, inos: seq<Inode>, owner: map<nat, Node>,
                     st1: seq<Block>, inos1: seq<Inode>, owner1: map<nat, Node>,
                     st2: seq<Block>, inos2: seq<Inode>, owner2: map<nat, Node>, target: Node)
    requires Extends(g, st, inos, owner, st1, inos1, owner1, target)
    requires Extends(g, st1, inos1, owner1, st2, inos2, owner2, target)
    ensures Extends(g, st, inos, owner, st2, inos2, owner2, target)
  {
    assert DataKept(g, st, st2, owner) by {
      forall v | v in owner && !IsIndex(owner[v].p) && g.FirstData() + v < |st|
        ensures st2[g.FirstData() + v] == st[g.FirstData() + v]
      {
        assert owner1[v] == owner[v];
      }
    }
    assert OnlyAt(g, st, inos, st2, inos2, target) by {
      forall i: nat, p | i < |inos| && !IsIndex(p) && Ptr(g, st2, inos2[i], p).Some?
        ensures Ptr(g, st, inos[i], p).Some? || Node(i, p) == target
      {
        assert Ptr(g, st1, inos1[i], p).Some? || Node(i, p) == target;
      }
    }
    assert PtrsKept(g, st, inos, st2, inos2) by {
      forall i: nat, p | i < |inos| && Ptr(g, st, inos[i], p).Some?
        ensures Ptr(g, st2, inos2[i], p) == Ptr(g, st, inos[i], p)
      {
        assert Ptr(g, st1, inos1[i], p).Some?;
      }
    }
  }

  /** A store change that every pointer ignores extends the image. */
  lemma ExtendsSame(g: Geo, st: seq<Block>, st': seq<Block>, inos: seq<Inode>, owner: map<nat, Node>, target: Node)
    requires Owned(g, st, inos, owner) && SameIndex(g, st, st', owner) && SameMeta(g, st, st') && DataKept(g, st, st', owner)
    ensures Extends(g, st, inos, owner, st', inos, owner, target)
  {
    forall i: nat, p | i < |inos| ensures Ptr(g, st', inos[i], p) == Ptr(g, st, inos[i], p) {
      PtrFrame(g, st, st', inos, owner, i, p);
    }
  }

  lemma MarkExtends(g: Geo, st: seq<Block>, inos: seq<Inode>, owner: map<nat, Node>, n: nat, target: Node)
    requires TreeInv(g, st, inos, owner) && g.FirstData() <= n < g.blockCount && !Used(g, st, n)
    ensures TreeInv(g, MarkStore(g, st, n), inos, owner)
    ensures Extends(g, st, inos, owner, MarkStore(g, st, n), inos, owner, target)
  {
    hide Used;
    MarkFrame(g, st, inos, owner, n);
    assert n / BITS_PER_BLOCK < g.bitmapBlocks;
    ExtendsSame(g, st, MarkStore(g, st, n), inos, owner, target);
  }

  lemma AllocExtends(g: Geo, st: seq<Block>, inos: seq<Inode>, owner: map<nat, Node>, n: nat, target: Node)
    requires TreeInv(g, st, inos, owner) && g.FirstData() <= n < g.blockCount && !Used(g, st, n)
    ensures TreeInv(g, AllocStore(g, st, n), inos, owner)
    ensures Extends(g, st, inos, owner, AllocStore(g, st, n), inos, owner, target)
  {
    hide Used;
    AllocFrame(g, st, inos, owner, n);
    assert n / BITS_PER_BLOCK < g.bitmapBlocks;
    ExtendsSame(g, st, AllocStore(g, st, n), inos, owner, target);
  }

  /** A freshly allocated block: on the disk, used, zeroed, and without an owner. */
  ghost predicate Fresh(g: Geo, st: seq<Block>, owner: map<nat, Node>, b: nat)
    requires GeoOk(g, st)
  {
    && 0 < b && b !in owner
    && g.FirstData() + b < g.blockCount
    && Used(g, st, g.FirstData() + b)
    && st[g.FirstData() + b] == ZERO_BLOCK
  }

  lemma AllocFresh(g: Geo, st: seq<Block>, inos: seq<Inode>, owner: map<nat, Node>, n: nat)
    requires TreeInv(g, st, inos, owner) && g.FirstData() <= n < g.blockCount && !Used(g, st, n)
    ensures Fresh(g, AllocStore(g, st, n), owner, n - g.FirstData())
  {
    hide Used;
    AllocFrame(g, st, inos, owner, n);
  }

  /** Adding one pointer from n, elsewhere than at another file's data, extends the image. */
  lemma PlusExtends(g: Geo, st: seq<Block>, inos: seq<Inode>, owner: map<nat, Node>,
                    st': seq<Block>, inos': seq<Inode>, n: Node, b: nat, target: Node)
    requires PtrPlus(g, st, inos, st', inos', n, b) && b !in owner
    requires SameMeta(g, st, st') && DataKept(g, st, st', owner)
    requires n.i < |inos| && Ptr(g, st, inos[n.i], n.p).None? && (IsIndex(n.p) || target == n)
    ensures Extends(g, st, inos, owner, st', inos', owner[b := n], target)
  {
  }

  lemma SetInodeExtends(g: Geo, st: seq<Block>, inos: seq<Inode>, owner: map<nat, Node>, i: nat, p: Path, b: u32, target: Node)
    requires TreeInv(g, st, inos, owner) && i < |inos| && Fresh(g, st, owner, b)
    requires p.Direct? || p.Ind? || p.Dind?
    requires p.Direct? ==> p.k < NDIRECT && p.k == NBlocks(inos[i].size)
    requires p.Dind? ==> p.j < NDIND
    requires Ptr(g, st, inos[i], p).None? && (IsIndex(p) || target == Node(i, p))
    ensures TreeInv(g, st, inos[i := SetInodePtr(inos[i], p, b)], owner[b := Node(i, p)])
    ensures Extends(g, st, inos, owner, st, inos[i := SetInodePtr(inos[i], p, b)], owner[b := Node(i, p)], target)
    ensures Ptr(g, st, SetInodePtr(inos[i], p, b), p) == Some(b)
  {
    var inos' := inos[i := SetInodePtr(inos[i], p, b)];
    assert PtrPlus(g, st, inos, st, inos', Node(i, p), b) by {
      forall j: nat, q | j < |inos|
        ensures Ptr(g, st, inos'[j], q) == if Node(j, q) == Node(i, p) then Some(b) else Ptr(g, st, inos[j], q)
      {
        if j == i { PtrOfSetInode(g, st, inos[i], p, b, q); }
      }
    }
    assert inos'[i] == SetInodePtr(inos[i], p, b);
    AddPtr(g, st, inos, owner, st, inos', Node(i, p), b);
    PlusExtends(g, st, inos, owner, st, inos', Node(i, p), b, target);
  }

  lemma SetWordPlus(g: Geo, st: seq<Block>, inos: seq<Inode>, owner: map<nat, Node>,
                    i: nat, p: Path, x: nat, k: nat, b: u32)
    requires TreeInv(g, st, inos, owner) && i < |inos| && Fresh(g, st, owner, b)
    requires IsIndex(p) && Ptr(g, st, inos[i], p) == Some(x)
    requires g.FirstData() + x < g.blockCount
    requires k < PTRS && Word(g, st, x, k) == 0
    ensures PtrPlus(g, st, inos, WordStore(g, st, x, k, b), inos, Node(i, Child(p, k)), b)
    ensures Ptr(g, WordStore(g, st, x, k, b), inos[i], Child(p, k)) == Some(b)
    ensures Ptr(g, st, inos[i], Child(p, k)).None?
  {
    var st' := WordStore(g, st, x, k, b);
    forall j: nat, q | j < |inos|
      ensures Ptr(g, st', inos[j], q) == if Node(j, q) == Node(i, Child(p, k)) then Some(b) else Ptr(g, st, inos[j], q)
    {
      PtrOfSetWord(g, st, inos, owner, i, p, x, k, b, j, q);
    }
  }

  lemma SetWordFrame(g: Geo, st: seq<Block>, owner: map<nat, Node>, x: nat, k: nat, b: u32)
    requires GeoOk(g, st) && OwnerUsed(g, st, owner) && x in owner && IsIndex(owner[x].p) && k < PTRS
    ensures SameMeta(g, st, WordStore(g, st, x, k, b)) && DataKept(g, st, WordStore(g, st, x, k, b), owner)
    ensures GeoOk(g, WordStore(g, st, x, k, b))
    ensures forall n: nat :: n < g.blockCount ==> Used(g, WordStore(g, st, x, k, b), n) == Used(g, st, n)
  {
    hide Used;
    var st' := WordStore(g, st, x, k, b);
    forall n: nat | n < g.blockCount ensures Used(g, st', n) == Used(g, st, n) {
      UsedSame(g, st, st', n);
    }
  }

  /** Filling a zero word of an index block with a fresh block keeps the tree. */
  lemma SetWordTree(g: Geo, st: seq<Block>, inos: seq<Inode>, owner: map<nat, Node>,
                    i: nat, p: Path, x: nat, k: nat, b: u32)
    requires TreeInv(g, st, inos, owner) && i < |inos| && Fresh(g, st, owner, b)
    requires IsIndex(p) && Ptr(g, st, inos[i], p) == Some(x)
    requires g.FirstData() + x < g.blockCount
    requires k < PTRS && Word(g, st, x, k) == 0
    ensures TreeInv(g, WordStore(g, st, x, k, b), inos, owner[b := Node(i, Child(p, k))])
  {
    hide Used;
    assert owner[x] == Node(i, p);
    SetWordPlus(g, st, inos, owner, i, p, x, k, b);
    SetWordFrame(g, st, owner, x, k, b);
    AddPtr(g, st, inos, owner, WordStore(g, st, x, k, b), inos, Node(i, Child(p, k)), b);
  }

  lemma SetWordExtends(g: Geo, st: seq<Block>, inos: seq<Inode>, owner: map<nat, Node>,
                       i: nat, p: Path, x: nat, k: nat, b: u32, target: Node)
    requires TreeInv(g, st, inos, owner) && i < |inos| && Fresh(g, st, owner, b)
    requires IsIndex(p) && Ptr(g, st, inos[i], p) == Some(x)
    requires g.FirstData() + x < g.blockCount
    requires k < PTRS && Word(g, st, x, k) == 0
    requires IsIndex(Child(p, k)) || target == Node(i, Child(p, k))
    ensures Extends(g, st, inos, owner, WordStore(g, st, x, k, b), inos, owner[b := Node(i, Child(p, k))], target)
    ensures Ptr(g, WordStore(g, st, x, k, b), inos[i], Child(p, k)) == Some(b)
  {
    assert owner[x] == Node(i, p);
    SetWordPlus(g, st, inos, owner, i, p, x, k, b);
    SetWordFrame(g, st, owner, x, k, b);
    PlusExtends(g, st, inos, owner, WordStore(g, st, x, k, b), inos, Node(i, Child(p, k)), b, target);
  }
}
