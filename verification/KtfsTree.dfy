/** The block tree of KTFS: which pointers an image holds, who owns each data block, and how the elementary
    writes of the kernel change that. Nothing here is executed; the kernel methods are proved against it. */
module KtfsTree {
  import opened Base
  import opened Format

  /** The layout read from the superblock. */
  datatype Geo = Geo(blockCount: nat, bitmapBlocks: nat, inodeBlocks: nat, root: nat) {
    function FirstInode(): nat { 1 + bitmapBlocks }
    function FirstData(): nat { 1 + bitmapBlocks + inodeBlocks }
    function Inodes(): nat { inodeBlocks * INODES_PER_BLOCK }
  }

  /** The store holds an image with this layout. */
  predicate GeoOk(g: Geo, st: seq<Block>) {
    && |st| == g.blockCount < TWO32
    && g.FirstData() < g.blockCount <= g.bitmapBlocks * BITS_PER_BLOCK
    && g.root < g.Inodes()
  }

  /** Bit n of the allocation bitmap. */
  predicate Used(g: Geo, st: seq<Block>, n: nat)
    requires GeoOk(g, st) && n < g.blockCount
  {
    BitAt(st[1 + n / BITS_PER_BLOCK], n % BITS_PER_BLOCK)
  }

  lemma UsedSame(g: Geo, st: seq<Block>, st': seq<Block>, n: nat)
    requires GeoOk(g, st) && GeoOk(g, st') && n < g.blockCount
    requires forall b :: 1 <= b < g.FirstInode() ==> st'[b] == st[b]
    ensures Used(g, st', n) == Used(g, st, n)
  {
    assert n / BITS_PER_BLOCK < g.bitmapBlocks;
  }

  function InodeAt(g: Geo, st: seq<Block>, i: nat): Inode
    requires GeoOk(g, st) && i < g.Inodes()
  {
    InodeIn(st[g.FirstInode() + i / INODES_PER_BLOCK], i % INODES_PER_BLOCK)
  }

  /** The inode table of the image. */
  ghost function Table(g: Geo, st: seq<Block>): (t: seq<Inode>)
    requires GeoOk(g, st)
    ensures |t| == g.Inodes()
    ensures forall i :: 0 <= i < |t| ==> t[i] == InodeAt(g, st, i)
  {
    seq(g.Inodes(), i requires 0 <= i < g.Inodes() => InodeAt(g, st, i))
  }

  /** Word k of the index block with data-relative number v. */
  function Word(g: Geo, st: seq<Block>, v: nat, k: nat): u32 {
    if g.FirstData() + v < |st| && k < PTRS then WordAt(st[g.FirstData() + v], k) else 0
  }

  /** A place in an inode's tree that can hold a block pointer. */
  datatype Path =
    | Direct(k: nat)
    | Ind
    | IndLeaf(k: nat)
    | Dind(j: nat)
    | DindMid(j: nat, k: nat)
    | DindLeaf(j: nat, k: nat, l: nat)

  predicate IsIndex(p: Path) {
    p.Ind? || p.Dind? || p.DindMid?
  }

  function NonZero(v: nat): Option<nat> {
    if v == 0 then None else Some(v)
  }

  /** The pointer an inode holds at p. A direct pointer counts when its block is below the size, any other
      when it is not zero and the index blocks above it exist. */
  function Ptr(g: Geo, st: seq<Block>, ino: Inode, p: Path): Option<nat> {
    match p
    case Direct(k) => if k < NDIRECT && k < NBlocks(ino.size) then Some(ino.block[k]) else None
    case Ind => NonZero(ino.indirect)
    case IndLeaf(k) => if ino.indirect == 0 then None else NonZero(Word(g, st, ino.indirect, k))
    case Dind(j) => if j < NDIND then NonZero(ino.dindirect[j]) else None
    case DindMid(j, k) =>
      if j < NDIND && ino.dindirect[j] != 0 then NonZero(Word(g, st, ino.dindirect[j], k)) else None
    case DindLeaf(j, k, l) =>
      if j < NDIND && ino.dindirect[j] != 0 && Word(g, st, ino.dindirect[j], k) != 0
      then NonZero(Word(g, st, Word(g, st, ino.dindirect[j], k), l)) else None
  }

  /** Where the pointer to logical block lb of a file lives. */
  function LeafPath(lb: nat): (p: Path)
    ensures !IsIndex(p)
  {
    if lb < NDIRECT then Direct(lb)
    else if lb < NDIRECT + PTRS then IndLeaf(lb - NDIRECT)
    else
      var m := lb - NDIRECT - PTRS;
      DindLeaf(m / (PTRS * PTRS), m % (PTRS * PTRS) / PTRS, m % PTRS)
  }

  const MAXBLOCKS: nat := NDIRECT + PTRS + NDIND * PTRS * PTRS

  lemma LeafPathInjective(a: nat, b: nat)
    requires LeafPath(a) == LeafPath(b)
    ensures a == b
  {
    if a >= NDIRECT + PTRS {
      var m, n := a - NDIRECT - PTRS, b - NDIRECT - PTRS;
      LeafPathDecode(m);
      LeafPathDecode(n);
    }
  }

  lemma LeafPathDecode(m: nat)
    ensures m == m / (PTRS * PTRS) * (PTRS * PTRS) + m % (PTRS * PTRS) / PTRS * PTRS + m % PTRS
  {
  }

  /** A pointer place of the whole image. */
  datatype Node = Node(i: nat, p: Path)

  /** Every pointer of every inode is known to the owner map as its own: so no block has two pointers. */
  ghost predicate Owned(g: Geo, st: seq<Block>, inos: seq<Inode>, owner: map<nat, Node>) {
    forall i: nat, p :: i < |inos| && Ptr(g, st, inos[i], p).Some? ==>
      Ptr(g, st, inos[i], p).value in owner && owner[Ptr(g, st, inos[i], p).value] == Node(i, p)
  }

  /** Owned blocks lie on the disk and are marked used; block 0 belongs to the root directory. */
  ghost predicate OwnerUsed(g: Geo, st: seq<Block>, owner: map<nat, Node>)
    requires GeoOk(g, st)
  {
    && (forall v :: v in owner ==> g.FirstData() + v < g.blockCount && Used(g, st, g.FirstData() + v))
    && 0 in owner && owner[0] == Node(g.root, Direct(0))
  }

  ghost predicate TreeInv(g: Geo, st: seq<Block>, inos: seq<Inode>, owner: map<nat, Node>) {
    GeoOk(g, st) && |inos| == g.Inodes() && Owned(g, st, inos, owner) && OwnerUsed(g, st, owner)
  }

  /** No block is reachable through two pointers of any inodes. */
  ghost predicate NoAlias(g: Geo, st: seq<Block>, inos: seq<Inode>) {
    forall i: nat, p, j: nat, q ::
      i < |inos| && j < |inos| && Ptr(g, st, inos[i], p).Some? && Ptr(g, st, inos[i], p) == Ptr(g, st, inos[j], q) ==>
      i == j && p == q
  }

  /** Every reachable block lies on the disk and is marked used, and only the root reaches block 0. */
  ghost predicate ReachableUsed(g: Geo, st: seq<Block>, inos: seq<Inode>)
    requires GeoOk(g, st)
  {
    && Used(g, st, g.FirstData())
    && forall i: nat, p :: i < |inos| && Ptr(g, st, inos[i], p).Some? ==>
         var v := Ptr(g, st, inos[i], p).value;
         && g.FirstData() + v < g.blockCount
         && Used(g, st, g.FirstData() + v)
         && (v == 0 ==> i == g.root)
  }

  lemma TreeInvMeaning(g: Geo, st: seq<Block>, inos: seq<Inode>, owner: map<nat, Node>)
    requires TreeInv(g, st, inos, owner)
    ensures NoAlias(g, st, inos) && ReachableUsed(g, st, inos)
  {
    assert g.FirstData() + 0 == g.FirstData();
  }

  /** The two stores agree on every index block. */
  ghost predicate SameIndex(g: Geo, st: seq<Block>, st': seq<Block>, owner: map<nat, Node>) {
    && |st'| == |st|
    && forall v :: v in owner && IsIndex(owner[v].p) && g.FirstData() + v < |st| ==> st'[g.FirstData() + v] == st[g.FirstData() + v]
  }

  lemma PtrFrame(g: Geo, st: seq<Block>, st': seq<Block>, inos: seq<Inode>, owner: map<nat, Node>, i: nat, p: Path)
    requires Owned(g, st, inos, owner) && SameIndex(g, st, st', owner)
    requires i < |inos|
    ensures Ptr(g, st', inos[i], p) == Ptr(g, st, inos[i], p)
  {
    var ino := inos[i];
    match p {
      case Direct(k) =>
      case Ind =>
      case Dind(j) =>
      case IndLeaf(k) =>
        assert ino.indirect != 0 ==> Ptr(g, st, inos[i], Ind).Some?;
      case DindMid(j, k) =>
        assert j < NDIND && ino.dindirect[j] != 0 ==> Ptr(g, st, inos[i], Dind(j)).Some?;
      case DindLeaf(j, k, l) =>
        if j < NDIND && ino.dindirect[j] != 0 {
          assert Ptr(g, st, inos[i], Dind(j)).Some?;
          assert Word(g, st, ino.dindirect[j], k) != 0 ==> Ptr(g, st, inos[i], DindMid(j, k)).Some?;
        }
    }
  }

  /** A change that keeps the index blocks and every used bit keeps the tree. */
  lemma TreeFrame(g: Geo, st: seq<Block>, st': seq<Block>, inos: seq<Inode>, owner: map<nat, Node>)
    requires TreeInv(g, st, inos, owner) && SameIndex(g, st, st', owner) && GeoOk(g, st')
    requires forall v :: v in owner ==> Used(g, st', g.FirstData() + v)
    ensures TreeInv(g, st', inos, owner)
  {
    forall i: nat, p | i < |inos| && Ptr(g, st', inos[i], p).Some?
      ensures Ptr(g, st', inos[i], p).value in owner && owner[Ptr(g, st', inos[i], p).value] == Node(i, p)
    {
      PtrFrame(g, st, st', inos, owner, i, p);
    }
  }

  /** The pointers afterwards are the pointers before and one more, from n to b. */
  ghost predicate PtrPlus(g: Geo, st: seq<Block>, inos: seq<Inode>, st': seq<Block>, inos': seq<Inode>, n: Node, b: nat) {
    |inos'| == |inos| && forall i: nat, p :: i < |inos| ==>
      Ptr(g, st', inos'[i], p) == if Node(i, p) == n then Some(b) else Ptr(g, st, inos[i], p)
  }

  /** One pointer was added, to a block nobody owned. */
  lemma AddPtr(g: Geo, st: seq<Block>, inos: seq<Inode>, owner: map<nat, Node>,
               st': seq<Block>, inos': seq<Inode>, n: Node, b: nat)
    requires TreeInv(g, st, inos, owner) && GeoOk(g, st')
    requires b !in owner && g.FirstData() + b < g.blockCount
    requires forall v :: v in owner || v == b ==> Used(g, st', g.FirstData() + v)
    requires PtrPlus(g, st, inos, st', inos', n, b)
    ensures TreeInv(g, st', inos', owner[b := n])
  {
  }

  // ---- the elementary writes ----

  /** Marking block n used and zeroing it, as alloc_data_block does. */
  function AllocStore(g: Geo, st: seq<Block>, n: nat): (r: seq<Block>)
    requires GeoOk(g, st) && g.FirstData() <= n < g.blockCount
    ensures GeoOk(g, r)
  {
    MarkStore(g, st, n)[n := ZERO_BLOCK]
  }

  function MarkStore(g: Geo, st: seq<Block>, n: nat): (r: seq<Block>)
    requires GeoOk(g, st) && n < g.blockCount
    ensures GeoOk(g, r)
  {
    st[1 + n / BITS_PER_BLOCK := SetBit(st[1 + n / BITS_PER_BLOCK], n % BITS_PER_BLOCK)]
  }

  lemma UsedOfMark(g: Geo, st: seq<Block>, n: nat, m: nat)
    requires GeoOk(g, st) && n < g.blockCount && m < g.blockCount
    ensures Used(g, MarkStore(g, st, n), m) <==> m == n || Used(g, st, m)
  {
    if n / BITS_PER_BLOCK == m / BITS_PER_BLOCK {
      BitOfSet(st[1 + n / BITS_PER_BLOCK], n % BITS_PER_BLOCK, m % BITS_PER_BLOCK);
    }
  }

  /** Only the bitmap changes. */
  lemma MarkBitmapOnly(g: Geo, st: seq<Block>, n: nat)
    requires GeoOk(g, st) && n < g.blockCount
    ensures forall b :: 0 <= b < |st| && !(1 <= b < g.FirstInode()) ==> MarkStore(g, st, n)[b] == st[b]
  {
    hide SetBit;
    assert n / BITS_PER_BLOCK < g.bitmapBlocks;
  }

  /** Marking a free block used disturbs no tree: the block had no owner and no index block changes. */
  lemma MarkFrame(g: Geo, st: seq<Block>, inos: seq<Inode>, owner: map<nat, Node>, n: nat)
    requires TreeInv(g, st, inos, owner) && g.FirstData() <= n < g.blockCount && !Used(g, st, n)
    ensures n - g.FirstData() !in owner
    ensures TreeInv(g, MarkStore(g, st, n), inos, owner) && SameIndex(g, st, MarkStore(g, st, n), owner)
    ensures Used(g, MarkStore(g, st, n), n)
  {
    hide Used, MarkStore, Owned, Ptr;
    var st' := MarkStore(g, st, n);
    MarkBitmapOnly(g, st, n);
    UsedOfMark(g, st, n, n);
    forall v | v in owner ensures Used(g, st', g.FirstData() + v) {
      UsedOfMark(g, st, n, g.FirstData() + v);
    }
    TreeFrame(g, st, st', inos, owner);
  }

  /** Writing a block nobody owns, or a data block, leaves every pointer alone. */
  lemma DataFrame(g: Geo, st: seq<Block>, inos: seq<Inode>, owner: map<nat, Node>, b: nat, data: Block)
    requires TreeInv(g, st, inos, owner) && g.FirstData() + b < g.blockCount
    requires b in owner ==> !IsIndex(owner[b].p)
    ensures TreeInv(g, st[g.FirstData() + b := data], inos, owner)
    ensures SameIndex(g, st, st[g.FirstData() + b := data], owner)
  {
    hide Used;
    var st' := st[g.FirstData() + b := data];
    forall v | v in owner ensures Used(g, st', g.FirstData() + v) {
      UsedSame(g, st, st', g.FirstData() + v);
    }
    TreeFrame(g, st, st', inos, owner);
  }

  lemma AllocFrame(g: Geo, st: seq<Block>, inos: seq<Inode>, owner: map<nat, Node>, n: nat)
    requires TreeInv(g, st, inos, owner) && g.FirstData() <= n < g.blockCount && !Used(g, st, n)
    ensures n - g.FirstData() !in owner && n - g.FirstData() != 0
    ensures TreeInv(g, AllocStore(g, st, n), inos, owner) && SameIndex(g, st, AllocStore(g, st, n), owner)
    ensures Used(g, AllocStore(g, st, n), n)
  {
    hide Used;
    MarkFrame(g, st, inos, owner, n);
    UsedSame(g, MarkStore(g, st, n), AllocStore(g, st, n), n);
    DataFrame(g, MarkStore(g, st, n), inos, owner, n - g.FirstData(), ZERO_BLOCK);
  }

  /** The inode fields resolve_or_alloc can fill in. */
  function SetInodePtr(ino: Inode, p: Path, b: u32): Inode
    requires p.Direct? || p.Ind? || p.Dind?
    requires p.Direct? ==> p.k < NDIRECT
    requires p.Dind? ==> p.j < NDIND
  {
    match p
    case Direct(k) => Inode(Max(ino.size, (k + 1) * BLKSZ), ino.flags, ino.block[k := b], ino.indirect, ino.dindirect)
    case Ind => Inode(ino.size, ino.flags, ino.block, b, ino.dindirect)
    case Dind(j) => Inode(ino.size, ino.flags, ino.block, ino.indirect, ino.dindirect[j := b])
  }

  /** Filling a missing pointer of an inode with a zeroed block adds exactly that pointer. */
  lemma PtrOfSetInode(g: Geo, st: seq<Block>, ino: Inode, p: Path, b: u32, q: Path)
    requires p.Direct? || p.Ind? || p.Dind?
    requires p.Direct? ==> p.k < NDIRECT && p.k == NBlocks(ino.size)
    requires p.Dind? ==> p.j < NDIND
    requires Ptr(g, st, ino, p).None? && b != 0
    requires g.FirstData() + b < |st| && st[g.FirstData() + b] == ZERO_BLOCK
    ensures Ptr(g, st, SetInodePtr(ino, p, b), q) == if q == p then Some(b) else Ptr(g, st, ino, q)
  {
    ZeroWords(g, st, b);
  }

  lemma ZeroWords(g: Geo, st: seq<Block>, b: nat)
    requires g.FirstData() + b < |st| && st[g.FirstData() + b] == ZERO_BLOCK
    ensures forall k: nat :: Word(g, st, b, k) == 0
  {
    forall k: nat | k < PTRS ensures WordAt(ZERO_BLOCK, k) == 0 {
      WordOfZero(k);
    }
  }

  /** The pointer place that word k of the index block at p feeds. */
  function Child(p: Path, k: nat): Path
    requires IsIndex(p)
  {
    match p
    case Ind => IndLeaf(k)
    case Dind(j) => DindMid(j, k)
    case DindMid(j, m) => DindLeaf(j, m, k)
  }

  function WordStore(g: Geo, st: seq<Block>, x: nat, k: nat, b: u32): (r: seq<Block>)
    requires g.FirstData() + x < |st| && k < PTRS
    ensures |r| == |st|
  {
    st[g.FirstData() + x := PutWord(st[g.FirstData() + x], k, b)]
  }

  lemma WordOfStore(g: Geo, st: seq<Block>, x: nat, k: nat, b: u32, v: nat, j: nat)
    requires g.FirstData() + x < |st| && k < PTRS
    ensures Word(g, WordStore(g, st, x, k, b), v, j) == if v == x && j == k then b else Word(g, st, v, j)
  {
    if v == x && j < PTRS {
      WordOfPut(st[g.FirstData() + x], k, b, j);
    }
  }

  /** Filling a zero word of an index block with a zeroed block adds exactly one pointer to the image. */
  lemma PtrOfSetWord(g: Geo, st: seq<Block>, inos: seq<Inode>, owner: map<nat, Node>,
                     i: nat, p: Path, x: nat, k: nat, b: u32, i': nat, q: Path)
    requires Owned(g, st, inos, owner) && i < |inos| && i' < |inos|
    requires IsIndex(p) && Ptr(g, st, inos[i], p) == Some(x) && g.FirstData() + x < |st|
    requires k < PTRS && Word(g, st, x, k) == 0
    requires b != 0 && b !in owner && g.FirstData() + b < |st| && st[g.FirstData() + b] == ZERO_BLOCK
    ensures Ptr(g, WordStore(g, st, x, k, b), inos[i'], q) ==
      if Node(i', q) == Node(i, Child(p, k)) then Some(b) else Ptr(g, st, inos[i'], q)
  {
    var st' := WordStore(g, st, x, k, b);
    var ino := inos[i'];
    ZeroWords(g, st, b);
    assert owner[x] == Node(i, p);
    match q {
      case Direct(m) =>
      case Ind =>
      case Dind(j) =>
      case IndLeaf(m) =>
        assert ino.indirect != 0 ==> Ptr(g, st, inos[i'], Ind) == Some(ino.indirect);
        WordOfStore(g, st, x, k, b, ino.indirect, m);
      case DindMid(j, m) =>
        if j < NDIND && ino.dindirect[j] != 0 {
          assert Ptr(g, st, inos[i'], Dind(j)) == Some(ino.dindirect[j]);
          WordOfStore(g, st, x, k, b, ino.dindirect[j], m);
        }
      case DindLeaf(j, m, l) =>
        if j < NDIND && ino.dindirect[j] != 0 {
          var d := ino.dindirect[j];
          var mid := Word(g, st, d, m);
          assert Ptr(g, st, inos[i'], Dind(j)) == Some(d);
          WordOfStore(g, st, x, k, b, d, m);
          if mid != 0 {
            assert Ptr(g, st, inos[i'], DindMid(j, m)) == Some(mid);
          }
          WordOfStore(g, st, x, k, b, Word(g, st', d, m), l);
        }
    }
  }
}
