/** The kernel side of KTFS (kernel/ktfs.c), running on the block cache. Every access goes through
    cache_get_block and cache_release_block; `cache.store` is the flat image the cache stands for. */
module KtfsKernel {
  import opened Base
  import opened Format
  import opened BlockCache
  import opened KtfsTree
  import opened KtfsSteps

  /** Every data block below limit is used. */
  ghost predicate UsedBelow(g: Geo, st: seq<Block>, limit: nat)
    requires GeoOk(g, st)
  {
    forall m: nat :: g.FirstData() <= m < limit && m < g.blockCount ==> Used(g, st, m)
  }

  /** Block n is the first data block the bitmap calls free. */
  ghost predicate FirstFree(g: Geo, st: seq<Block>, n: nat)
    requires GeoOk(g, st)
  {
    g.FirstData() <= n < g.blockCount && !Used(g, st, n) && UsedBelow(g, st, n)
  }

  /** The outcome of an allocation: the first free block, marked and zeroed; or no free block and no change;
      or a device error, with at most a bit set for a block nobody got. */
  ghost predicate Allocated(g: Geo, st: seq<Block>, st': seq<Block>, rc: int, b: nat)
    requires GeoOk(g, st)
  {
    || (rc == 0 && FirstFree(g, st, g.FirstData() + b) && st' == AllocStore(g, st, g.FirstData() + b))
    || (rc == -ENOMEM && st' == st && UsedBelow(g, st, g.blockCount))
    || (rc == -EIO && st' == st)
    || (rc == -EIO && FirstFree(g, st, g.FirstData() + b) && st' == MarkStore(g, st, g.FirstData() + b))
  }

  lemma FreeInRange(g: Geo, st: seq<Block>, n: nat)
    requires GeoOk(g, st) && FirstFree(g, st, n)
    ensures g.FirstData() <= n < g.blockCount
  {
  }

  lemma TakenIs(g: Geo, st: seq<Block>, st': seq<Block>, rc: int, n: nat)
    requires GeoOk(g, st) && FirstFree(g, st, n) && g.FirstData() <= n < g.blockCount && (rc == 0 || rc == -EIO)
    requires st' == if rc == 0 then AllocStore(g, st, n) else MarkStore(g, st, n)
    ensures Allocated(g, st, st', rc, n - g.FirstData())
  {
  }

  lemma NoneTaken(g: Geo, st: seq<Block>, rc: int, b: nat)
    requires GeoOk(g, st) && (rc == -EIO || (rc == -ENOMEM && UsedBelow(g, st, g.blockCount)))
    ensures Allocated(g, st, st, rc, b)
  {
  }

  lemma UsedAt(g: Geo, st: seq<Block>, j: nat, k: nat)
    requires GeoOk(g, st) && k < BITS_PER_BLOCK && j * BITS_PER_BLOCK + k < g.blockCount && 1 + j < |st|
    ensures Used(g, st, j * BITS_PER_BLOCK + k) == BitAt(st[1 + j], k)
    ensures (j * BITS_PER_BLOCK + k) / BITS_PER_BLOCK == j
  {
    hide BitAt;
  }

  /** What a scan of bitmap block j that stopped at bit k says about the blocks it covers. */
  lemma ScannedBlock(g: Geo, st: seq<Block>, j: nat, bmp: Block, k: nat)
    requires GeoOk(g, st) && j < g.bitmapBlocks && k <= BITS_PER_BLOCK
    requires UsedBelow(g, st, j * BITS_PER_BLOCK)
    requires 1 + j < |st| && st[1 + j] == bmp
    requires forall m :: 0 <= m < k && j * BITS_PER_BLOCK + m >= g.FirstData() ==> BitAt(bmp, m)
    ensures UsedBelow(g, st, j * BITS_PER_BLOCK + k)
    ensures k < BITS_PER_BLOCK && !BitAt(bmp, k) && g.FirstData() <= j * BITS_PER_BLOCK + k < g.blockCount ==>
      FirstFree(g, st, j * BITS_PER_BLOCK + k) && (j * BITS_PER_BLOCK + k) / BITS_PER_BLOCK == j
    ensures k < BITS_PER_BLOCK && j * BITS_PER_BLOCK + k >= g.blockCount ==> UsedBelow(g, st, g.blockCount)
  {
    hide Used, BitAt;
    forall m: nat | g.FirstData() <= m < j * BITS_PER_BLOCK + k && m < g.blockCount ensures Used(g, st, m) {
      if m >= j * BITS_PER_BLOCK {
        UsedAt(g, st, j, m - j * BITS_PER_BLOCK);
      }
    }
    if k < BITS_PER_BLOCK && j * BITS_PER_BLOCK + k < g.blockCount {
      UsedAt(g, st, j, k);
    }
  }

  /** The layout the superblock announces: three words and a 16-bit root inode number. */
  function SuperGeo(sb: Block): Geo {
    Geo(WordAt(sb, 0), WordAt(sb, 1), WordAt(sb, 2), WordAt(sb, 3) % 0x1_0000)
  }

  /** The bitmap block with bit n cleared is where ClearStore puts it. */
  lemma ClearedIs(g: Geo, st: seq<Block>, n: nat, q: nat, data: Block)
    requires GeoOk(g, st) && q == n / BITS_PER_BLOCK && q < g.bitmapBlocks && data == ClearBit(st[1 + q], n % BITS_PER_BLOCK)
    ensures n < g.blockCount ==> st[1 + q := data] == ClearStore(g, st, n)
  {
    hide ClearBit;
  }

  /** Where the bitmap keeps block n: the block, byte and bit of bit n % 4096 of bitmap block n / 4096. */
  method BitPosition(n: nat) returns (bmpBlk: nat, byte: nat, bit: nat)
    ensures bmpBlk == n / BITS_PER_BLOCK
    ensures byte == n % BITS_PER_BLOCK / 8 < BLKSZ
    ensures bit == n % BITS_PER_BLOCK % 8
  {
    byte, bmpBlk, bit := n / 8 % BLKSZ, n / 8 / BLKSZ, n % 8;
    ghost var q, r := n / BITS_PER_BLOCK, n % BITS_PER_BLOCK;
    assert n == q * BLKSZ * 8 + r;
    assert n / 8 == q * BLKSZ + r / 8;
  }

  /** The store after marking bit n free. */
  function ClearStore(g: Geo, st: seq<Block>, n: nat): (r: seq<Block>)
    requires GeoOk(g, st) && n < g.blockCount
    ensures GeoOk(g, r)
  {
    st[1 + n / BITS_PER_BLOCK := ClearBit(st[1 + n / BITS_PER_BLOCK], n % BITS_PER_BLOCK)]
  }

  /** The block inode i lies in. */
  function InodeBlock(g: Geo, i: nat): nat {
    g.FirstInode() + i / INODES_PER_BLOCK
  }

  /** Inode i written where its number leads. */
  function InodeInto(g: Geo, st: seq<Block>, i: nat, ino: Inode): seq<Block>
    requires InodeBlock(g, i) < |st|
  {
    st[InodeBlock(g, i) := PutInode(st[InodeBlock(g, i)], i % INODES_PER_BLOCK, ino)]
  }

  function InodeStore(g: Geo, st: seq<Block>, i: nat, ino: Inode): (r: seq<Block>)
    requires GeoOk(g, st) && i < g.Inodes()
    ensures GeoOk(g, r)
  {
    var b := g.FirstInode() + i / INODES_PER_BLOCK;
    st[b := PutInode(st[b], i % INODES_PER_BLOCK, ino)]
  }

  lemma InodeAtWrite(g: Geo, st: seq<Block>, i: nat, ino: Inode, j: nat)
    requires GeoOk(g, st) && i < g.Inodes() && j < g.Inodes()
    ensures InodeAt(g, InodeStore(g, st, i, ino), j) == if j == i then ino else InodeAt(g, st, j)
  {
    hide InodeIn, PutInode;
    var q, q' := i / INODES_PER_BLOCK, j / INODES_PER_BLOCK;
    if q == q' {
      InodeOfPut(st[g.FirstInode() + q], i % INODES_PER_BLOCK, ino, j % INODES_PER_BLOCK);
    }
  }

  lemma TableOfWrite(g: Geo, st: seq<Block>, i: nat, ino: Inode)
    requires GeoOk(g, st) && i < g.Inodes()
    ensures Table(g, InodeStore(g, st, i, ino)) == Table(g, st)[i := ino]
  {
    var st' := InodeStore(g, st, i, ino);
    hide InodeAt;
    forall j: nat | j < g.Inodes() ensures InodeAt(g, st', j) == if j == i then ino else InodeAt(g, st, j) {
      InodeAtWrite(g, st, i, ino, j);
    }
  }

  lemma TableFrame(g: Geo, st: seq<Block>, st': seq<Block>)
    requires GeoOk(g, st) && GeoOk(g, st') && SameMeta(g, st, st')
    ensures Table(g, st') == Table(g, st)
  {
  }

  /** The block a reader finds for logical block lb, whatever the image holds there. */
  function Resolve(g: Geo, st: seq<Block>, ino: Inode, lb: nat): nat {
    if lb < NDIRECT then ino.block[lb]
    else if lb < NDIRECT + PTRS then Word(g, st, ino.indirect, lb - NDIRECT)
    else
      var m := lb - NDIRECT - PTRS;
      var outer := m / (PTRS * PTRS);
      if outer >= NDIND then 0
      else Word(g, st, Word(g, st, ino.dindirect[outer], m % (PTRS * PTRS) / PTRS), m % PTRS)
  }

  /** A reader follows the pointer the tree holds. */
  lemma ResolveIsPtr(g: Geo, st: seq<Block>, ino: Inode, lb: nat)
    requires Ptr(g, st, ino, LeafPath(lb)).Some?
    ensures Resolve(g, st, ino, lb) == Ptr(g, st, ino, LeafPath(lb)).value
    ensures lb < MAXBLOCKS
  {
  }

  /** Whatever an allocation did, the tree it happened in is still sound. */
  lemma AllocatedExtends(g: Geo, st: seq<Block>, st': seq<Block>, inos: seq<Inode>, owner: map<nat, Node>, rc: int, b: nat, target: Node)
    requires TreeInv(g, st, inos, owner) && Allocated(g, st, st', rc, b)
    ensures TreeInv(g, st', inos, owner)
    ensures Extends(g, st, inos, owner, st', inos, owner, target) && SameIndex(g, st, st', owner)
    ensures rc == 0 ==> Fresh(g, st', owner, b)
  {
    hide Used, UsedBelow, AllocStore, MarkStore, Ptr;
    var n := g.FirstData() + b;
    if rc == 0 {
      AllocFrame(g, st, inos, owner, n);
    } else if st' != st {
      MarkFrame(g, st, inos, owner, n);
    }
    if st' == st {
      ExtendsSame(g, st, st, inos, owner, target);
    } else if rc == 0 {
      AllocExtends(g, st, inos, owner, n, target);
    } else {
      MarkExtends(g, st, inos, owner, n, target);
    }
    if rc == 0 {
      AllocFresh(g, st, inos, owner, n);
    }
  }

  ghost predicate IsZero(g: Geo, st: seq<Block>, b: nat) {
    g.FirstData() + b < |st| && st[g.FirstData() + b] == ZERO_BLOCK
  }

  lemma PtrInRange(g: Geo, st: seq<Block>, inos: seq<Inode>, owner: map<nat, Node>, i: nat, p: Path)
    requires TreeInv(g, st, inos, owner) && i < |inos| && Ptr(g, st, inos[i], p).Some?
    ensures g.FirstData() + Ptr(g, st, inos[i], p).value < g.blockCount
    ensures Ptr(g, st, inos[i], p).value in owner && owner[Ptr(g, st, inos[i], p).value] == Node(i, p)
  {
  }

  /** The pointer places inside the inode itself. */
  lemma TreePtrFrame(g: Geo, st: seq<Block>, st': seq<Block>, inos: seq<Inode>, owner: map<nat, Node>, i: nat, p: Path)
    requires TreeInv(g, st, inos, owner) && SameIndex(g, st, st', owner) && i < |inos|
    ensures Ptr(g, st', inos[i], p) == Ptr(g, st, inos[i], p)
  {
    hide Used;
    PtrFrame(g, st, st', inos, owner, i, p);
  }

  predicate InodePath(p: Path) {
    (p.Direct? && p.k < NDIRECT) || p.Ind? || (p.Dind? && p.j < NDIND)
  }

  /** resolve_or_alloc's tests for a pointer of the inode: a direct block by the size, the others by zero. */
  function InodePtr(ino: Inode, p: Path): Option<nat>
    requires InodePath(p)
  {
    match p
    case Direct(k) => if k < NBlocks(ino.size) then Some(ino.block[k]) else None
    case Ind => NonZero(ino.indirect)
    case Dind(j) => NonZero(ino.dindirect[j])
  }

  lemma InodePtrIsPtr(g: Geo, st: seq<Block>, ino: Inode, p: Path)
    requires InodePath(p)
    ensures Ptr(g, st, ino, p) == InodePtr(ino, p)
  {
  }

  /** What the pointer below an existing index block is. */
  lemma ChildPtr(g: Geo, st: seq<Block>, ino: Inode, p: Path, x: nat, k: nat)
    requires IsIndex(p) && Ptr(g, st, ino, p) == Some(x)
    ensures Ptr(g, st, ino, Child(p, k)) == NonZero(Word(g, st, x, k))
  {
  }

  lemma DindLeafNeedsMid(g: Geo, st: seq<Block>, ino: Inode, j: nat, k: nat, l: nat)
    ensures Ptr(g, st, ino, DindMid(j, k)).None? ==> Ptr(g, st, ino, DindLeaf(j, k, l)).None?
  {
  }

  lemma ExtendsPtr(g: Geo, st: seq<Block>, inos: seq<Inode>, owner: map<nat, Node>,
                   st': seq<Block>, inos': seq<Inode>, owner': map<nat, Node>, target: Node, i: nat, p: Path)
    requires Extends(g, st, inos, owner, st', inos', owner', target)
    requires i < |inos| && Ptr(g, st, inos[i], p).Some?
    ensures |inos'| == |inos| && Ptr(g, st', inos'[i], p) == Ptr(g, st, inos[i], p)
  {
  }

  /** Adding index blocks only adds no data pointer, so it extends the image towards any target. */
  lemma ExtendsNoData(g: Geo, st: seq<Block>, inos: seq<Inode>, owner: map<nat, Node>,
                      st': seq<Block>, inos': seq<Inode>, owner': map<nat, Node>, index: Node, target: Node)
    requires Extends(g, st, inos, owner, st', inos', owner', index) && IsIndex(index.p) && target.i < |inos|
    ensures Extends(g, st, inos, owner, st', inos', owner', target)
    ensures !IsIndex(target.p) && Ptr(g, st, inos[target.i], target.p).None? ==> Ptr(g, st', inos'[target.i], target.p).None?
  {
  }

  /** b has every pointer a has. */
  ghost predicate InoLeq(a: Inode, b: Inode) {
    && a.size <= b.size
    && (forall k :: 0 <= k < NDIRECT && k < NBlocks(a.size) ==> b.block[k] == a.block[k])
    && (a.indirect != 0 ==> b.indirect == a.indirect)
    && (forall j :: 0 <= j < NDIND && a.dindirect[j] != 0 ==> b.dindirect[j] == a.dindirect[j])
  }

  /** Direct pointers past the end of the file are zero. */
  ghost predicate Tidy(ino: Inode) {
    forall k :: 0 <= k < NDIRECT && k >= NBlocks(ino.size) ==> ino.block[k] == 0
  }

  lemma InoLeqPtr(g: Geo, st: seq<Block>, a: Inode, b: Inode, p: Path)
    requires InoLeq(a, b) && Ptr(g, st, a, p).Some?
    ensures Ptr(g, st, b, p) == Ptr(g, st, a, p)
  {
  }

  /** base with the index pointers of ino. */
  function Over(base: Inode, ino: Inode): Inode {
    Inode(base.size, base.flags, base.block, ino.indirect, ino.dindirect)
  }

  /** Filling this place keeps the inode the tree knows in step with the caller's: it is an index block's word, or
      the tree knows the caller's inode and the direct block is the next one. */
  predicate Steady(sh: Inode, ino: Inode, lb: nat, alloc: bool) {
    lb >= NDIRECT || (sh == ino && (lb <= NBlocks(ino.size) || !alloc))
  }

  /** Block v is kept for place n although no pointer leads there. */
  ghost predicate SetAside(owner: map<nat, Node>, v: nat, n: Node) {
    v in owner && owner[v] == n
  }

  /** Setting a fresh block aside disturbs no tree. */
  lemma AsideExtends(g: Geo, st: seq<Block>, inos: seq<Inode>, owner: map<nat, Node>, b: nat, n: Node)
    requires TreeInv(g, st, inos, owner) && Fresh(g, st, owner, b)
    ensures TreeInv(g, st, inos, owner[b := n]) && Extends(g, st, inos, owner, st, inos, owner[b := n], n)
  {
    hide Used, Ptr;
  }

  lemma OverSet(base: Inode, ino: Inode, p: Path, b: u32)
    requires InodePath(p) && IsIndex(p) && base == Over(base, ino)
    ensures Over(base, SetInodePtr(ino, p, b)) == SetInodePtr(base, p, b)
  {
  }

  lemma OverTidy(base: Inode, ino: Inode)
    ensures Tidy(base) ==> Tidy(Over(base, ino))
  {
  }

  lemma InoLeqRefl(a: Inode)
    ensures InoLeq(a, a)
  {
  }

  lemma IndexPtrIsPtr(g: Geo, st: seq<Block>, base: Inode, ino: Inode, p: Path)
    requires InodePath(p) && IsIndex(p) && base == Over(base, ino)
    ensures Ptr(g, st, base, p) == InodePtr(ino, p)
  {
  }

  /** What filling an index pointer of the inode does to the tree's inode and the paths below. */
  lemma IndexSlotFacts(g: Geo, st: seq<Block>, base: Inode, ino: Inode, ino': Inode, p: Path, x: nat, lb: nat)
    requires InodePath(p) && IsIndex(p) && base == Over(base, ino)
    requires ino' == ino || (InodePtr(ino, p).None? && 0 < x < TWO32 && ino' == SetInodePtr(ino, p, x))
    ensures InoLeq(base, Over(base, ino')) && ino' == Over(ino, ino')
    ensures Ptr(g, st, base, p) == InodePtr(ino, p)
    ensures Ptr(g, st, base, p).None? && NDIRECT <= lb < NDIRECT + PTRS && p.Ind? ==> Ptr(g, st, base, LeafPath(lb)).None?
    ensures Ptr(g, st, base, p).None? && p.Dind? && NDIRECT + PTRS <= lb < MAXBLOCKS && p.j == (lb - NDIRECT - PTRS) / (PTRS * PTRS) ==>
      Ptr(g, st, base, LeafPath(lb)).None?
  {
  }

  /** What filling a direct pointer does to the inode. */
  lemma DirectFacts(g: Geo, st: seq<Block>, st': seq<Block>, sh: Inode, ino: Inode, ino': Inode, lb: nat, x: nat)
    requires lb < NDIRECT && (ino' == ino || (lb >= NBlocks(ino.size) && 0 < x < TWO32 && ino' == SetInodePtr(ino, Direct(lb), x)))
    ensures ino'.size == if ino' != ino then (lb + 1) * BLKSZ else ino.size
    ensures lb <= NBlocks(ino.size) ==> InoLeq(ino, ino') && (Tidy(ino) ==> Tidy(ino'))
    ensures InoLeq(sh, sh) && ino' == Over(ino', ino) && LeafPath(lb) == Direct(lb)
    ensures Ptr(g, st, ino, Direct(lb)) == if lb < NBlocks(ino.size) then Some(ino.block[lb]) else None
    ensures Ptr(g, st', ino', Direct(lb)) == if lb < NBlocks(ino.size) then Some(ino.block[lb]) else if ino' != ino then Some(x) else None
    ensures lb >= NBlocks(ino.size) && 0 < x < TWO32 ==> SetInodePtr(ino, Direct(lb), x) != ino
  {
  }

  /** The slot of an index block is where it was after an allocation elsewhere. */
  lemma SlotFrame(g: Geo, st: seq<Block>, st': seq<Block>, inos: seq<Inode>, owner: map<nat, Node>, i: nat, p: Path, x: nat, k: nat)
    requires TreeInv(g, st, inos, owner) && SameIndex(g, st, st', owner) && i < |inos|
    requires IsIndex(p) && Ptr(g, st, inos[i], p) == Some(x)
    ensures Ptr(g, st', inos[i], p) == Some(x) && Word(g, st', x, k) == Word(g, st, x, k)
  {
    hide Used, Ptr;
    TreePtrFrame(g, st, st', inos, owner, i, p);
    PtrInRange(g, st, inos, owner, i, p);
  }

  lemma ExtendsRefl(g: Geo, st: seq<Block>, inos: seq<Inode>, owner: map<nat, Node>, target: Node)
    ensures Extends(g, st, inos, owner, st, inos, owner, target)
  {
  }

  /** The index blocks a reader of lb goes through lie on the disk. */
  ghost predicate IndexInRange(g: Geo, st: seq<Block>, ino: Inode, lb: nat) {
    && (NDIRECT <= lb < NDIRECT + PTRS ==> g.FirstData() + ino.indirect < |st|)
    && (NDIRECT + PTRS <= lb < MAXBLOCKS ==>
         var m := lb - NDIRECT - PTRS;
         var d := ino.dindirect[m / (PTRS * PTRS)];
         g.FirstData() + d < |st| && g.FirstData() + Word(g, st, d, m % (PTRS * PTRS) / PTRS) < |st|)
  }

  lemma PastMax(g: Geo, st: seq<Block>, ino: Inode, lb: nat)
    requires lb >= MAXBLOCKS
    ensures Ptr(g, st, ino, LeafPath(lb)).None?
  {
  }

  class Ktfs {
    const cache: Cache
    const geo: Geo
    ghost var owner: map<nat, Node>

    ghost predicate Ready()
      reads this, cache, cache.dev
    {
      cache.Valid() && cache.touched == {} && GeoOk(geo, cache.store)
    }

    constructor (cache: Cache, geo: Geo)
      ensures this.cache == cache && this.geo == geo
    {
      this.cache, this.geo, owner := cache, geo, map[];
    }

    /** ktfs_mount: a fresh cache over the device, and the layout from block 0. */
    static method Mount(dev: Device) returns (rc: int, fs: Ktfs?)
      modifies dev
      ensures (rc == 0 || rc == -EIO) && (rc == 0 <==> fs != null)
      ensures dev.healthy && |old(dev.blocks)| > 0 ==> rc == 0
      ensures fs != null ==> fresh(fs) && fresh(fs.cache) && fs.cache.dev == dev
      ensures fs != null ==> |old(dev.blocks)| > 0 && fs.geo == SuperGeo(old(dev.blocks)[0])
      ensures fs != null ==> fs.cache.Valid() && fs.cache.store == old(dev.blocks) && fs.cache.held == multiset{} && fs.cache.touched == {}
    {
      var cache := new Cache(dev);
      var got := cache.Pin(0);
      if !got {
        return -EIO, null;
      }
      var geo := SuperGeo(cache.Peek(0));
      cache.ReleaseBlock(0, false);
      fs := new Ktfs(cache, geo);
      return 0, fs;
    }

    /** Pin block b, copy it out, release it clean. */
    method Fetch(b: nat) returns (ok: bool, data: Block)
      requires Ready()
      modifies cache, cache.dev
      ensures Ready() && cache.held == old(cache.held) && cache.store == old(cache.store)
      ensures ok ==> b < |cache.store| && data == cache.store[b]
      ensures old(cache.Quiet(1)) && b < |cache.store| ==> ok
    {
      ok := cache.Pin(b);
      if !ok {
        return false, ZERO_BLOCK;
      }
      data := cache.Peek(b);
      cache.ReleaseBlock(b, false);
      ok := true;
    }

    /** Pin block b, overwrite it, release it dirty. */
    method Store(b: nat, data: Block) returns (ok: bool)
      requires Ready()
      modifies cache, cache.dev
      ensures Ready() && cache.held == old(cache.held)
      ensures ok ==> b < |old(cache.store)| && cache.store == old(cache.store)[b := data]
      ensures !ok ==> cache.store == old(cache.store)
      ensures old(cache.Quiet(1)) && b < |cache.store| ==> ok
    {
      ok := cache.Pin(b);
      if !ok {
        return false;
      }
      Replace(b, data);
      ok := true;
    }

    /** The scan of one bitmap block: the first clear bit that stands for a data block. */
    method FindFreeBit(bmp: Block, base: nat) returns (k: nat)
      ensures k <= BITS_PER_BLOCK
      ensures k < BITS_PER_BLOCK ==> !BitAt(bmp, k) && base + k >= geo.FirstData()
      ensures forall m :: 0 <= m < k && base + m >= geo.FirstData() ==> BitAt(bmp, m)
    {
      k := 0;
      var byte := 0;
      while byte < BLKSZ
        invariant byte <= BLKSZ && k == byte * 8
        invariant forall m :: 0 <= m < k && base + m >= geo.FirstData() ==> BitAt(bmp, m)
      {
        if bmp[byte] != 255 {
          var bit := 0;
          while bit < 8
            invariant bit <= 8
            invariant forall m :: 0 <= m < byte * 8 + bit && base + m >= geo.FirstData() ==> BitAt(bmp, m)
          {
            if !Bit(bmp[byte] as nat, bit) && base + byte * 8 + bit >= geo.FirstData() {
              return byte * 8 + bit;
            }
            bit := bit + 1;
          }
        } else {
          forall m | byte * 8 <= m < byte * 8 + 8 ensures BitAt(bmp, m) {
            FullByte(m % 8);
          }
        }
        byte := byte + 1;
        k := byte * 8;
      }
    }

    /** Having found data block n free in the pinned bitmap block j: mark it, release, zero it. */
    method TakeBlock(j: nat, n: nat) returns (ok: bool)
      requires Ready() && 1 + j in cache.held
      requires geo.FirstData() <= n < geo.blockCount && j == n / BITS_PER_BLOCK
      modifies cache, cache.dev
      ensures Ready() && cache.held == old(cache.held) - multiset{1 + j}
      ensures cache.store == if ok then AllocStore(geo, old(cache.store), n) else MarkStore(geo, old(cache.store), n)
      ensures old(cache.Quiet(0)) ==> ok
    {
      hide Inv;
      var bmp := cache.Peek(1 + j);
      Replace(1 + j, SetBit(bmp, n % BITS_PER_BLOCK));
      ok := Store(n, ZERO_BLOCK);
    }

    /** Pins bitmap block j and looks for the first free data block in it; n is where it stopped. */
    method ScanBitmapBlock(j: nat) returns (got: bool, n: nat)
      requires Ready() && j < geo.bitmapBlocks && UsedBelow(geo, cache.store, j * BITS_PER_BLOCK)
      modifies cache, cache.dev
      ensures Ready() && cache.store == old(cache.store)
      ensures cache.held == if got then old(cache.held) + multiset{1 + j} else old(cache.held)
      ensures old(cache.Quiet(1)) ==> got
      ensures got ==> n <= (j + 1) * BITS_PER_BLOCK && UsedBelow(geo, cache.store, n)
      ensures got && n < (j + 1) * BITS_PER_BLOCK && n < geo.blockCount ==>
        FirstFree(geo, cache.store, n) && n / BITS_PER_BLOCK == j
      ensures got && geo.blockCount <= n < (j + 1) * BITS_PER_BLOCK ==> UsedBelow(geo, cache.store, geo.blockCount)
    {
      hide Inv, Used, UsedBelow, BitAt;
      got := cache.Pin(1 + j);
      n := 0;
      if got {
        var bmp := cache.Peek(1 + j);
        var k := FindFreeBit(bmp, j * BITS_PER_BLOCK);
        ScannedBlock(geo, cache.store, j, bmp, k);
        n := j * BITS_PER_BLOCK + k;
      }
    }

    /** What becomes of a bitmap block that was scanned up to n: the block found is taken, or the scan goes on. */
    method UseScan(j: nat, n: nat) returns (rc: int, done: bool, out: nat)
      requires Ready() && 1 + j in cache.held && UsedBelow(geo, cache.store, n) && n <= (j + 1) * BITS_PER_BLOCK
      requires n < (j + 1) * BITS_PER_BLOCK && n < geo.blockCount ==> FirstFree(geo, cache.store, n) && n / BITS_PER_BLOCK == j
      requires geo.blockCount <= n < (j + 1) * BITS_PER_BLOCK ==> UsedBelow(geo, cache.store, geo.blockCount)
      modifies cache, cache.dev
      ensures Ready() && cache.held == old(cache.held) - multiset{1 + j}
      ensures done ==> Allocated(geo, old(cache.store), cache.store, rc, out)
      ensures !done ==> cache.store == old(cache.store) && UsedBelow(geo, cache.store, (j + 1) * BITS_PER_BLOCK)
      ensures old(cache.Quiet(0)) ==> rc != -EIO
    {
      hide Inv, Used, UsedBelow, AllocStore, MarkStore, FirstFree, Allocated, Roomy, GeoOk;
      rc, done, out := -ENOMEM, n < (j + 1) * BITS_PER_BLOCK, 0;
      if done && n < geo.blockCount {
        FreeInRange(geo, cache.store, n);
        out := n - geo.FirstData();
        ghost var st := cache.store;
        var ok := TakeBlock(j, n);
        rc := if ok then 0 else -EIO;
        TakenIs(geo, st, cache.store, rc, n);
      } else {
        cache.ReleaseBlock(1 + j, false);
        if done {
          NoneTaken(geo, cache.store, -ENOMEM, 0);
        }
      }
    }

    /** One turn of the outer loop of alloc_data_block. */
    method TryBitmapBlock(j: nat) returns (rc: int, done: bool, out: nat)
      requires Ready() && j < geo.bitmapBlocks && UsedBelow(geo, cache.store, j * BITS_PER_BLOCK)
      modifies cache, cache.dev
      ensures Ready() && cache.held == old(cache.held)
      ensures done ==> Allocated(geo, old(cache.store), cache.store, rc, out)
      ensures !done ==> cache.store == old(cache.store) && UsedBelow(geo, cache.store, (j + 1) * BITS_PER_BLOCK)
      ensures old(cache.Quiet(1)) && done ==> rc != -EIO
    {
      hide Inv, Used, UsedBelow, FirstFree, Allocated, Roomy, GeoOk;
      OneMore(cache.dev.healthy, cache.held, 1 + j, 0);
      var got, n := ScanBitmapBlock(j);
      rc, done, out := -EIO, true, 0;
      if got {
        rc, done, out := UseScan(j, n);
      } else {
        NoneTaken(geo, cache.store, -EIO, 0);
      }
    }

    /** alloc_data_block: takes the first free data block, marks it used and zeroes it. */
    method AllocDataBlock() returns (rc: int, out: nat)
      requires Ready()
      modifies cache, cache.dev
      ensures Ready() && cache.held == old(cache.held)
      ensures Allocated(geo, old(cache.store), cache.store, rc, out)
      ensures old(cache.Quiet(1)) ==> rc != -EIO
    {
      hide Inv;
      var j := 0;
      while j < geo.bitmapBlocks
        invariant j <= geo.bitmapBlocks
        invariant Ready() && cache.held == old(cache.held) && cache.store == old(cache.store)
        invariant UsedBelow(geo, cache.store, j * BITS_PER_BLOCK)
      {
        var done;
        rc, done, out := TryBitmapBlock(j);
        if done {
          return;
        }
        j := j + 1;
      }
      return -ENOMEM, 0;
    }

    /** free_data_block. */
    method FreeDataBlock(b: nat) returns (rc: int)
      requires Ready()
      modifies cache, cache.dev
      ensures Ready() && cache.held == old(cache.held)
      ensures rc == 0 || rc == -EIO || rc == -EINVAL
      ensures rc == 0 && geo.FirstData() + b < geo.blockCount ==>
        cache.store == ClearStore(geo, old(cache.store), geo.FirstData() + b)
      ensures rc != 0 ==> cache.store == old(cache.store)
      ensures geo.FirstData() + b < geo.blockCount ==> rc != -EINVAL
      ensures old(cache.Quiet(1)) ==> rc != -EIO
    {
      hide Inv, Used, BitAt, WithoutBit8;
      var n := geo.FirstData() + b;
      var bmpBlk, byte, bit := BitPosition(n);
      if bmpBlk >= geo.bitmapBlocks {
        return -EINVAL;
      }
      var got := cache.Pin(1 + bmpBlk);
      if !got {
        return -EIO;
      }
      var bmp := cache.Peek(1 + bmpBlk);
      var data := bmp[byte := WithoutBit8(bmp[byte], bit)];
      ClearedIs(geo, cache.store, n, bmpBlk, data);
      hide ClearStore, ClearBit;
      Replace(1 + bmpBlk, data);
      return 0;
    }

    /** read_inode. Nothing checks the number: past the table it reads what lies there. */
    method ReadInode(i: nat) returns (ok: bool, ino: Inode)
      requires Ready()
      modifies cache, cache.dev
      ensures Ready() && cache.held == old(cache.held) && cache.store == old(cache.store)
      ensures ok ==> InodeBlock(geo, i) < |cache.store| && ino == InodeIn(cache.store[InodeBlock(geo, i)], i % INODES_PER_BLOCK)
      ensures ok && i < geo.Inodes() ==> ino == InodeAt(geo, cache.store, i)
      ensures old(cache.Quiet(1)) && InodeBlock(geo, i) < |cache.store| ==> ok
      ensures old(cache.Quiet(1)) && i < geo.Inodes() ==> ok
    {
      var blk;
      ok, blk := Fetch(geo.FirstInode() + i / INODES_PER_BLOCK);
      ino := if ok then InodeIn(blk, i % INODES_PER_BLOCK) else ZERO_INODE;
    }

    /** write_inode, with the same lack of a check. */
    method WriteInode(i: nat, ino: Inode) returns (ok: bool)
      requires Ready()
      modifies cache, cache.dev
      ensures Ready() && cache.held == old(cache.held)
      ensures ok ==> InodeBlock(geo, i) < |old(cache.store)| && cache.store == InodeInto(geo, old(cache.store), i, ino)
      ensures ok && i < geo.Inodes() ==> cache.store == InodeStore(geo, old(cache.store), i, ino)
      ensures !ok ==> cache.store == old(cache.store)
      ensures old(cache.Quiet(1)) && i < geo.Inodes() ==> ok
    {
      hide Inv, PutInode;
      var b := geo.FirstInode() + i / INODES_PER_BLOCK;
      ok := cache.Pin(b);
      if !ok {
        return false;
      }
      Replace(b, PutInode(cache.Peek(b), i % INODES_PER_BLOCK, ino));
      return true;
    }

    /** resolve_block: logical block to data-relative block, for reading. */
    method ResolveBlock(ino: Inode, lb: nat) returns (rc: int, out: nat)
      requires Ready()
      modifies cache, cache.dev
      ensures Ready() && cache.held == old(cache.held) && cache.store == old(cache.store)
      ensures rc == 0 || rc == -EIO || rc == -EINVAL
      ensures rc == 0 ==> out == Resolve(geo, cache.store, ino, lb)
      ensures rc == -EINVAL <==> lb >= MAXBLOCKS
      ensures old(cache.Quiet(1)) && IndexInRange(geo, cache.store, ino, lb) ==> rc != -EIO
    {
      hide Inv;
      if lb < NDIRECT {
        return 0, ino.block[lb];
      }
      var rest := lb - NDIRECT;
      var ok, blk;
      if rest < PTRS {
        ok, blk := Fetch(geo.FirstData() + ino.indirect);
        if !ok {
          return -EIO, 0;
        }
        return 0, WordAt(blk, rest);
      }
      rest := rest - PTRS;
      if rest >= PTRS * PTRS * NDIND {
        return -EINVAL, 0;
      }
      var whichDind, intoDind := rest / (PTRS * PTRS), rest % (PTRS * PTRS);
      var whichInd, intoInd := intoDind / PTRS, intoDind % PTRS;
      assert intoInd == rest % PTRS;
      ok, blk := Fetch(geo.FirstData() + ino.dindirect[whichDind]);
      if !ok {
        return -EIO, 0;
      }
      var indirectBlk := WordAt(blk, whichInd);
      ok, blk := Fetch(geo.FirstData() + indirectBlk);
      if !ok {
        return -EIO, 0;
      }
      return 0, WordAt(blk, intoInd);
    }

    /** The tree of the image, with the inode table as the caller sees it, is sound. */
    ghost predicate Sound(inos: seq<Inode>)
      reads this, cache, cache.dev
    {
      Ready() && TreeInv(geo, cache.store, inos, owner)
    }

    /** Write a pinned block and release it dirty. */
    method Replace(b: nat, data: Block)
      requires Ready() && b in cache.held
      modifies cache
      ensures Ready() && b < |cache.store| && cache.store == old(cache.store)[b := data] && cache.held == old(cache.held) - multiset{b}
    {
      hide Inv;
      cache.Poke(b, data);
      cache.ReleaseBlock(b, true);
    }

    /** Allocation inside a tree: the new block is fresh, and the tree is undisturbed whatever the outcome. */
    method AllocFor(ghost inos: seq<Inode>, ghost target: Node) returns (rc: int, b: nat)
      requires Sound(inos)
      modifies cache, cache.dev
      ensures Sound(inos) && cache.held == old(cache.held)
      ensures rc == 0 || rc == -ENOMEM || rc == -EIO
      ensures Extends(geo, old(cache.store), inos, owner, cache.store, inos, owner, target)
      ensures SameIndex(geo, old(cache.store), cache.store, owner)
      ensures rc == 0 ==> Fresh(geo, cache.store, owner, b)
      ensures rc == -ENOMEM ==> UsedBelow(geo, cache.store, geo.blockCount)
      ensures old(cache.Quiet(1)) ==> rc != -EIO
    {
      hide Inv, Used, UsedBelow, AllocStore, MarkStore, Ptr, Extends;
      ghost var st := cache.store;
      rc, b := AllocDataBlock();
      AllocatedExtends(geo, st, cache.store, inos, owner, rc, b, target);
    }

    /** Stores the fresh block v in the zero word k of the pinned index block x, and releases it. */
    method FillSlot(x: nat, k: nat, v: nat, ghost inos: seq<Inode>, ghost i: nat, ghost p: Path, ghost target: Node)
      requires Sound(inos) && i < |inos| && k < PTRS && geo.FirstData() + x in cache.held
      requires IsIndex(p) && Ptr(geo, cache.store, inos[i], p) == Some(x) && Word(geo, cache.store, x, k) == 0
      requires IsIndex(Child(p, k)) || target == Node(i, Child(p, k))
      requires Fresh(geo, cache.store, owner, v)
      modifies cache, this`owner
      ensures Sound(inos) && cache.held == old(cache.held) - multiset{geo.FirstData() + x}
      ensures Extends(geo, old(cache.store), inos, old(owner), cache.store, inos, owner, target)
      ensures Ptr(geo, cache.store, inos[i], Child(p, k)) == Some(v) && IsZero(geo, cache.store, v)
    {
      hide Inv, Used, UsedBelow, TreeInv, Owned, OwnerUsed, Extends, Ptr, Word, PutWord, Child;
      PtrInRange(geo, cache.store, inos, owner, i, p);
      SetWordTree(geo, cache.store, inos, owner, i, p, x, k, v);
      SetWordExtends(geo, cache.store, inos, owner, i, p, x, k, v, target);
      Replace(geo.FirstData() + x, PutWord(cache.Peek(geo.FirstData() + x), k, v));
      owner := owner[v := Node(i, Child(p, k))];
    }

    /** Takes a fresh block for the zero word k of the pinned index block x, and releases x. */
    method AllocSlot(x: nat, k: nat, ghost inos: seq<Inode>, ghost i: nat, ghost p: Path, ghost target: Node)
      returns (rc: int, v: nat)
      requires Sound(inos) && i < |inos| && k < PTRS && geo.FirstData() + x in cache.held
      requires IsIndex(p) && Ptr(geo, cache.store, inos[i], p) == Some(x) && Word(geo, cache.store, x, k) == 0
      requires IsIndex(Child(p, k)) || target == Node(i, Child(p, k))
      modifies cache, cache.dev, this`owner
      ensures Sound(inos) && cache.held == old(cache.held) - multiset{geo.FirstData() + x}
      ensures Extends(geo, old(cache.store), inos, old(owner), cache.store, inos, owner, target)
      ensures rc == 0 || rc == -ENOMEM || rc == -EIO
      ensures rc == 0 ==> Ptr(geo, cache.store, inos[i], Child(p, k)) == Some(v) && IsZero(geo, cache.store, v)
      ensures rc == -ENOMEM ==> UsedBelow(geo, cache.store, geo.blockCount)
      ensures old(cache.Quiet(1)) ==> rc != -EIO
    {
      hide Inv, Used, UsedBelow, TreeInv, Owned, OwnerUsed, Extends, Ptr, WordAt, Child, Fresh;
      PtrInRange(geo, cache.store, inos, owner, i, p);
      ghost var st0 := cache.store;
      rc, v := AllocFor(inos, target);
      if rc != 0 {
        cache.ReleaseBlock(geo.FirstData() + x, false);
      } else {
        ghost var st := cache.store;
        SlotFrame(geo, st0, st, inos, owner, i, p, x, k);
        FillSlot(x, k, v, inos, i, p, target);
        ExtendsTrans(geo, st0, inos, old(owner), st, inos, old(owner), cache.store, inos, owner, target);
      }
    }

    /** Word k of the index block x at path p: the pointer there, or a fresh block put there. */
    method SlotOrAlloc(x: nat, k: nat, alloc: bool, ghost inos: seq<Inode>, ghost i: nat, ghost p: Path, ghost target: Node)
      returns (rc: int, v: nat)
      requires Sound(inos) && i < |inos| && k < PTRS
      requires IsIndex(p) && Ptr(geo, cache.store, inos[i], p) == Some(x)
      requires IsIndex(Child(p, k)) || target == Node(i, Child(p, k))
      modifies cache, cache.dev, this`owner
      ensures Sound(inos) && cache.held == old(cache.held)
      ensures Extends(geo, old(cache.store), inos, old(owner), cache.store, inos, owner, target)
      ensures rc == 0 || rc == -ENOMEM || rc == -EIO || rc == -EINVAL
      ensures rc == 0 ==> Ptr(geo, cache.store, inos[i], Child(p, k)) == Some(v)
      ensures rc == 0 && Ptr(geo, old(cache.store), inos[i], Child(p, k)).None? ==> IsZero(geo, cache.store, v)
      ensures rc == -EINVAL ==> !alloc && Ptr(geo, cache.store, inos[i], Child(p, k)).None?
      ensures rc == -ENOMEM ==> UsedBelow(geo, cache.store, geo.blockCount)
      ensures old(cache.Quiet(2)) ==> rc != -EIO
      ensures !alloc || Ptr(geo, old(cache.store), inos[i], Child(p, k)).Some? ==> cache.store == old(cache.store) && owner == old(owner)
      ensures Ptr(geo, old(cache.store), inos[i], Child(p, k)).Some? ==> rc != -ENOMEM && rc != -EINVAL
    {
      hide Inv, Used, UsedBelow, TreeInv, Owned, OwnerUsed, Extends, Ptr, WordAt, Child, IsZero;
      PtrInRange(geo, cache.store, inos, owner, i, p);
      ExtendsRefl(geo, cache.store, inos, owner, target);
      ChildPtr(geo, cache.store, inos[i], p, x, k);
      rc, v := -EIO, 0;
      var got := cache.Pin(geo.FirstData() + x);
      if got {
        v := WordAt(cache.Peek(geo.FirstData() + x), k);
        if v != 0 || !alloc {
          rc := if v != 0 then 0 else -EINVAL;
          cache.ReleaseBlock(geo.FirstData() + x, false);
        } else {
          rc, v := AllocSlot(x, k, inos, i, p, target);
        }
      }
    }

    /** An index pointer of the inode itself (the indirect block, a double-indirect block): the one there, or a
        fresh block put there in the caller's copy of the inode. */
    method InodeSlotOrAlloc(ino: Inode, ghost i: nat, p: Path, alloc: bool, ghost inos: seq<Inode>, ghost target: Node)
      returns (rc: int, x: nat, ino': Inode)
      requires Sound(inos) && i < |inos| && inos[i] == Over(inos[i], ino) && InodePath(p) && IsIndex(p)
      modifies cache, cache.dev, this`owner
      ensures Sound(inos[i := Over(inos[i], ino')]) && cache.held == old(cache.held)
      ensures Extends(geo, old(cache.store), inos, old(owner), cache.store, inos[i := Over(inos[i], ino')], owner, target)
      ensures rc == 0 || rc == -ENOMEM || rc == -EIO || rc == -EINVAL
      ensures rc == 0 ==> Ptr(geo, cache.store, Over(inos[i], ino'), p) == Some(x)
      ensures ino' == ino || (rc == 0 && InodePtr(ino, p).None? && 0 < x < TWO32 && ino' == SetInodePtr(ino, p, x))
      ensures rc == -EINVAL ==> !alloc && InodePtr(ino, p).None?
      ensures rc == -ENOMEM ==> UsedBelow(geo, cache.store, geo.blockCount)
      ensures old(cache.Quiet(2)) ==> rc != -EIO
      ensures !alloc || InodePtr(ino, p).Some? ==> cache.store == old(cache.store) && owner == old(owner) && ino' == ino
      ensures InodePtr(ino, p).Some? ==> rc == 0
    {
      hide Inv, Used, UsedBelow, Owned, OwnerUsed, Extends, Ptr, SetInodePtr;
      IndexPtrIsPtr(geo, cache.store, inos[i], ino, p);
      ExtendsRefl(geo, cache.store, inos, owner, target);
      ino', x := ino, 0;
      assert inos[i := inos[i]] == inos;
      var here := InodePtr(ino, p);
      if here.Some? {
        rc, x := 0, here.value;
      } else if !alloc {
        rc := -EINVAL;
      } else {
        rc, x := AllocFor(inos, target);
        IndexPtrIsPtr(geo, cache.store, inos[i], ino, p);
        if rc == 0 {
          ino' := SetInodePtr(ino, p, x);
          OverSet(inos[i], ino, p, x);
          SetInodeExtends(geo, cache.store, inos, owner, i, p, x, target);
          owner := owner[x := Node(i, p)];
          ExtendsTrans(geo, old(cache.store), inos, old(owner), cache.store, inos, old(owner), cache.store, inos[i := Over(inos[i], ino')], owner, target);
        }
      }
    }

    /** A direct block: the one there, or a fresh block put there in the caller's copy of the inode. The tree takes
        the block in when the caller's inode is the one it knows and no block is skipped; otherwise the block is
        set aside for the place it is meant for. */
    method DirectOrAlloc(ino: Inode, ghost i: nat, lb: nat, alloc: bool, ghost inos: seq<Inode>) returns (rc: int, out: nat, ino': Inode, ghost sh: Inode)
      requires Sound(inos) && i < |inos| && inos[i] == Over(inos[i], ino) && lb < NDIRECT
      modifies cache, cache.dev, this`owner
      ensures Sound(inos[i := sh]) && cache.held == old(cache.held)
      ensures Extends(geo, old(cache.store), inos, old(owner), cache.store, inos[i := sh], owner, Node(i, Direct(lb)))
      ensures rc == 0 || rc == -ENOMEM || rc == -EIO || rc == -EINVAL
      ensures rc == 0 ==> lb < NBlocks(ino.size) || (0 < out < TWO32 && IsZero(geo, cache.store, out))
      ensures ino' == if rc == 0 && lb >= NBlocks(ino.size) && 0 < out < TWO32 then SetInodePtr(ino, Direct(lb), out) else ino
      ensures rc == 0 && lb < NBlocks(ino.size) ==> out == ino.block[lb]
      ensures sh == if Steady(inos[i], ino, lb, alloc) then ino' else inos[i]
      ensures rc == 0 && !Steady(inos[i], ino, lb, alloc) && lb >= NBlocks(ino.size) ==> SetAside(owner, out, Node(i, Direct(lb))) && out !in old(owner)
      ensures rc == -EINVAL <==> !alloc && lb >= NBlocks(ino.size)
      ensures rc == -ENOMEM ==> UsedBelow(geo, cache.store, geo.blockCount)
      ensures old(cache.Quiet(2)) ==> rc != -EIO
      ensures !alloc || lb < NBlocks(ino.size) ==> cache.store == old(cache.store) && owner == old(owner) && rc != -EIO && rc != -ENOMEM
    {
      hide Inv, Used, UsedBelow, Owned, OwnerUsed, Extends, Ptr, SetInodePtr;
      ghost var target := Node(i, Direct(lb));
      ExtendsRefl(geo, cache.store, inos, owner, target);
      rc, out, ino', sh := 0, 0, ino, inos[i];
      assert inos[i := inos[i]] == inos;
      if lb < NBlocks(ino.size) {
        out := ino.block[lb];
      } else if !alloc {
        rc := -EINVAL;
      } else {
        rc, out := AllocFor(inos, target);
        if rc == 0 {
          ino' := SetInodePtr(ino, Direct(lb), out);
          ghost var own := owner;
          if inos[i] == ino && lb == NBlocks(ino.size) {
            sh := ino';
            InodePtrIsPtr(geo, cache.store, ino, Direct(lb));
            SetInodeExtends(geo, cache.store, inos, owner, i, Direct(lb), out, target);
          } else {
            AsideExtends(geo, cache.store, inos, owner, out, target);
          }
          owner := owner[out := target];
          ExtendsTrans(geo, old(cache.store), inos, own, cache.store, inos, own, cache.store, inos[i := sh], owner, target);
        }
      }
    }

    /** The two levels of a double-indirect lookup below the block x at Dind(j). */
    method DindOrAlloc(x: nat, j: nat, mid: nat, leaf: nat, alloc: bool, ghost inos: seq<Inode>, ghost i: nat) returns (rc: int, out: nat)
      requires Sound(inos) && i < |inos| && j < NDIND && mid < PTRS && leaf < PTRS
      requires Ptr(geo, cache.store, inos[i], Dind(j)) == Some(x)
      modifies cache, cache.dev, this`owner
      ensures Sound(inos) && cache.held == old(cache.held)
      ensures Extends(geo, old(cache.store), inos, old(owner), cache.store, inos, owner, Node(i, DindLeaf(j, mid, leaf)))
      ensures rc == 0 || rc == -ENOMEM || rc == -EIO || rc == -EINVAL
      ensures rc == 0 ==> Ptr(geo, cache.store, inos[i], DindLeaf(j, mid, leaf)) == Some(out)
      ensures rc == 0 && Ptr(geo, old(cache.store), inos[i], DindLeaf(j, mid, leaf)).None? ==> IsZero(geo, cache.store, out)
      ensures rc == -EINVAL ==> !alloc && Ptr(geo, cache.store, inos[i], DindLeaf(j, mid, leaf)).None?
      ensures rc == -ENOMEM ==> UsedBelow(geo, cache.store, geo.blockCount)
      ensures old(cache.Quiet(2)) ==> rc != -EIO
      ensures !alloc || Ptr(geo, old(cache.store), inos[i], DindLeaf(j, mid, leaf)).Some? ==> cache.store == old(cache.store) && owner == old(owner)
      ensures Ptr(geo, old(cache.store), inos[i], DindLeaf(j, mid, leaf)).Some? ==> rc != -ENOMEM && rc != -EINVAL
    {
      hide Inv, Used, UsedBelow, Owned, OwnerUsed, Extends, Ptr;
      DindLeafNeedsMid(geo, cache.store, inos[i], j, mid, leaf);
      ghost var target := Node(i, DindLeaf(j, mid, leaf));
      rc, out := SlotOrAlloc(x, mid, alloc, inos, i, Dind(j), Node(i, Ind));
      ghost var st, own := cache.store, owner;
      DindLeafNeedsMid(geo, st, inos[i], j, mid, leaf);
      ExtendsNoData(geo, old(cache.store), inos, old(owner), st, inos, own, Node(i, Ind), target);
      if rc != 0 {
        return;
      }
      ExtendsPtr(geo, old(cache.store), inos, old(owner), st, inos, own, target, i, Dind(j));
      PtrInRange(geo, st, inos, own, i, Dind(j));
      var ok, blk := Fetch(geo.FirstData() + x);
      if !ok {
        return -EIO, 0;
      }
      ChildPtr(geo, st, inos[i], Dind(j), x, mid);
      rc, out := SlotOrAlloc(WordAt(blk, mid), leaf, alloc, inos, i, DindMid(j, mid), target);
      ExtendsTrans(geo, old(cache.store), inos, old(owner), st, inos, own, cache.store, inos, owner, target);
    }

    /** The part of resolve_or_alloc below the direct blocks. */
    method IndirectOrAlloc(ino: Inode, ghost i: nat, lb: nat, alloc: bool, ghost inos: seq<Inode>) returns (rc: int, out: nat, ino': Inode)
      requires Sound(inos) && i < |inos| && inos[i] == Over(inos[i], ino) && lb >= NDIRECT
      modifies cache, cache.dev, this`owner
      ensures Sound(inos[i := Over(inos[i], ino')]) && cache.held == old(cache.held)
      ensures Extends(geo, old(cache.store), inos, old(owner), cache.store, inos[i := Over(inos[i], ino')], owner, Node(i, LeafPath(lb)))
      ensures ino' == Over(ino, ino') && InoLeq(inos[i], Over(inos[i], ino'))
      ensures rc == 0 || rc == -ENOMEM || rc == -EIO || rc == -EINVAL
      ensures rc == 0 ==> Ptr(geo, cache.store, Over(inos[i], ino'), LeafPath(lb)) == Some(out) && lb < MAXBLOCKS
      ensures rc == 0 && Ptr(geo, old(cache.store), inos[i], LeafPath(lb)).None? ==> IsZero(geo, cache.store, out)
      ensures lb >= MAXBLOCKS ==> rc == -EINVAL
      ensures rc == -EINVAL ==> (!alloc && Ptr(geo, cache.store, inos[i], LeafPath(lb)).None?) || lb >= MAXBLOCKS
      ensures rc == -ENOMEM ==> UsedBelow(geo, cache.store, geo.blockCount)
      ensures old(cache.Quiet(2)) ==> rc != -EIO
      ensures !alloc || Ptr(geo, old(cache.store), inos[i], LeafPath(lb)).Some? ==>
        cache.store == old(cache.store) && owner == old(owner) && ino' == ino
      ensures Ptr(geo, old(cache.store), inos[i], LeafPath(lb)).Some? ==> rc == 0 || rc == -EIO
    {
      hide Inv, Used, UsedBelow, Owned, OwnerUsed, Extends, Ptr, SetInodePtr, InodePtr;
      ghost var target := Node(i, LeafPath(lb));
      ExtendsRefl(geo, cache.store, inos, owner, target);
      if lb >= MAXBLOCKS {
        assert inos[i := inos[i]] == inos;
        PastMax(geo, cache.store, inos[i], lb);
        InoLeqRefl(inos[i]);
        return -EINVAL, 0, ino;
      }
      var rest := lb - NDIRECT;
      var p := if rest < PTRS then Ind else Dind((rest - PTRS) / (PTRS * PTRS));
      IndexSlotFacts(geo, cache.store, inos[i], ino, ino, p, 0, lb);
      rc, out, ino' := InodeSlotOrAlloc(ino, i, p, alloc, inos, Node(i, Ind));
      IndexSlotFacts(geo, cache.store, inos[i], ino, ino', p, out, lb);
      ghost var st, own, inos1 := cache.store, owner, inos[i := Over(inos[i], ino')];
      ExtendsNoData(geo, old(cache.store), inos, old(owner), st, inos1, own, Node(i, Ind), target);
      if rc != 0 {
        return;
      }
      if rest < PTRS {
        rc, out := SlotOrAlloc(out, rest, alloc, inos1, i, Ind, target);
      } else {
        var into := (rest - PTRS) % (PTRS * PTRS);
        assert into % PTRS == (rest - PTRS) % PTRS;
        rc, out := DindOrAlloc(out, p.j, into / PTRS, into % PTRS, alloc, inos1, i);
      }
      ExtendsTrans(geo, old(cache.store), inos, old(owner), st, inos1, own, cache.store, inos1, owner, target);
    }

    /** resolve_or_alloc: the data block behind logical block lb of the caller's inode, allocating it and any
        index block above it on demand. Whatever the outcome the tree stays sound and keeps what it had. inos[i] is
        the inode as the tree knows it, sh what the tree knows afterwards; it follows the caller's copy unless a
        direct block was skipped. */
    method ResolveOrAlloc(ino: Inode, ghost i: nat, lb: nat, alloc: bool, ghost inos: seq<Inode>) returns (rc: int, out: nat, ino': Inode, ghost sh: Inode)
      requires Sound(inos) && i < |inos| && inos[i] == Over(inos[i], ino)
      modifies cache, cache.dev, this`owner
      ensures Sound(inos[i := sh]) && cache.held == old(cache.held)
      ensures Extends(geo, old(cache.store), inos, old(owner), cache.store, inos[i := sh], owner, Node(i, LeafPath(lb)))
      ensures sh == Over(sh, ino') && InoLeq(inos[i], sh) && (Tidy(inos[i]) ==> Tidy(sh))
      ensures lb >= NDIRECT ==> sh == Over(inos[i], ino') && ino' == Over(ino, ino')
      ensures Steady(inos[i], ino, lb, alloc) && inos[i] == ino ==> sh == ino'
      ensures !Steady(inos[i], ino, lb, alloc) ==> sh == inos[i]
      ensures rc == 0 || rc == -ENOMEM || rc == -EIO || rc == -EINVAL
      ensures rc == 0 ==> lb < MAXBLOCKS
      ensures rc == 0 && Steady(inos[i], ino, lb, alloc) ==> Ptr(geo, cache.store, sh, LeafPath(lb)) == Some(out)
      ensures rc == 0 && Ptr(geo, old(cache.store), inos[i], LeafPath(lb)).None? && Steady(inos[i], ino, lb, alloc) ==> IsZero(geo, cache.store, out)
      ensures rc == 0 && !Steady(inos[i], ino, lb, alloc) && lb >= NBlocks(ino.size) ==>
        && 0 < out < TWO32 && IsZero(geo, cache.store, out) && SetAside(owner, out, Node(i, Direct(lb))) && out !in old(owner)
        && ino' == SetInodePtr(ino, Direct(lb), out)
      ensures rc == 0 && !Steady(inos[i], ino, lb, alloc) && lb < NBlocks(ino.size) ==> out == ino.block[lb] && ino' == ino
      ensures ino'.size == if rc == 0 && lb < NDIRECT && lb >= NBlocks(ino.size) then (lb + 1) * BLKSZ else ino.size
      ensures lb >= MAXBLOCKS ==> rc == -EINVAL
      ensures alloc && rc == -EINVAL ==> lb >= MAXBLOCKS
      ensures rc == -ENOMEM ==> UsedBelow(geo, cache.store, geo.blockCount)
      ensures old(cache.Quiet(2)) ==> rc != -EIO
      ensures Steady(inos[i], ino, lb, alloc) && (!alloc || Ptr(geo, old(cache.store), inos[i], LeafPath(lb)).Some?) ==>
        cache.store == old(cache.store) && owner == old(owner) && ino' == ino
      ensures Steady(inos[i], ino, lb, alloc) && Ptr(geo, old(cache.store), inos[i], LeafPath(lb)).Some? ==> rc == 0 || rc == -EIO
    {
      hide Inv, Used, UsedBelow, TreeInv, Extends, Ptr, SetInodePtr, InoLeq, Tidy;
      if lb < NDIRECT {
        rc, out, ino', sh := DirectOrAlloc(ino, i, lb, alloc, inos);
        DirectFacts(geo, old(cache.store), cache.store, inos[i], ino, ino', lb, out);
      } else {
        rc, out, ino' := IndirectOrAlloc(ino, i, lb, alloc, inos);
        sh := Over(inos[i], ino');
        OverTidy(inos[i], ino');
      }
    }
  }
}
