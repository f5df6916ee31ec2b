/** A file placed by tools/mkfs_ktfs.py is a sound part of the block tree: each of its blocks has exactly one
    pointer, and reading the tree gives the bytes back. */
module MkfsTree {
  import opened Base
  import opened Format
  import opened KtfsTree
  import opened KtfsSteps
  import opened KtfsKernel
  import opened KtfsFiles
  import opened Layout

  /** The value stored at p for a file of n blocks whose first block is base: 0 where there is no pointer. */
  function Entry(n: nat, base: nat, p: Path): nat {
    if Has(n, p) then base + Pos(n, p) else 0
  }

  /** Block lb of a file, padded with zeros. */
  function Chunk(data: seq<u8>, lb: nat): Block {
    seq(BLKSZ, k requires 0 <= k < BLKSZ => if lb * BLKSZ + k < |data| then data[lb * BLKSZ + k] else 0)
  }

  /** The inode fields of a file of n blocks placed at base. */
  ghost predicate InodeLaid(ino: Inode, size: nat, base: nat) {
    var n := NBlocks(size);
    && ino.size == size && ino.flags == 0
    && (forall k: nat :: k < NDIRECT ==> ino.block[k] == Entry(n, base, Direct(k)))
    && ino.indirect == Entry(n, base, Ind)
    && forall j: nat :: j < NDIND ==> ino.dindirect[j] == Entry(n, base, Dind(j))
  }

  /** The index blocks of a file of n blocks placed at base. */
  ghost predicate IndexLaid(g: Geo, st: seq<Block>, n: nat, base: nat) {
    forall p, k: nat :: IsIndex(p) && Has(n, p) && k < PTRS ==>
      Word(g, st, base + Pos(n, p), k) == Entry(n, base, Child(p, k))
  }

  ghost predicate DataLaid(g: Geo, st: seq<Block>, data: seq<u8>, base: nat)
    requires g.FirstData() + base + NBlocks(|data|) <= |st|
  {
    forall lb: nat :: lb < NBlocks(|data|) ==> st[g.FirstData() + base + lb] == Chunk(data, lb)
  }

  /** The file is placed at base, in a row of Need blocks. */
  ghost predicate Laid(g: Geo, st: seq<Block>, ino: Inode, base: nat, data: seq<u8>) {
    var n := NBlocks(|data|);
    && base > 0 && n <= MAXBLOCKS && g.FirstData() + base + Need(n) <= |st|
    && InodeLaid(ino, |data|, base) && IndexLaid(g, st, n, base) && DataLaid(g, st, data, base)
  }

  /** Word k of the index block at p is the entry for its child. */
  lemma LaidWord(g: Geo, st: seq<Block>, n: nat, base: nat, p: Path, k: nat)
    requires IndexLaid(g, st, n, base) && IsIndex(p) && Has(n, p)
    ensures Word(g, st, base + Pos(n, p), k) == Entry(n, base, Child(p, k))
  {
    FirstBeforeSecond(n);
    if k < PTRS {
      hide Word, Has, Entry, Child;
      assert Word(g, st, base + Pos(n, p), k) == Entry(n, base, Child(p, k));
    } else {
      assert !Has(n, Child(p, k));
    }
  }

  /** The pointers of a placed file, all of them. */
  lemma LaidPtr(g: Geo, st: seq<Block>, ino: Inode, base: nat, data: seq<u8>, p: Path)
    requires Laid(g, st, ino, base, data)
    ensures Ptr(g, st, ino, p) == if Has(NBlocks(|data|), p) then Some(base + Pos(NBlocks(|data|), p)) else None
  {
    hide Word, DindBlocks, Inner, DindPos, DataLaid, Need, NBlocks, IndexLaid;
    var n := NBlocks(|data|);
    match p {
      case Direct(k) =>
      case Ind =>
      case Dind(j) =>
      case IndLeaf(k) =>
        if Has(n, Ind) {
          LaidWord(g, st, n, base, Ind, k);
        }
      case DindMid(j, k) =>
        MidParent(n, j, k);
        if Has(n, Dind(j)) {
          LaidWord(g, st, n, base, Dind(j), k);
        }
      case DindLeaf(j, k, l) =>
        LeafParents(n, j, k, l);
        LaidLeaf(g, st, n, base, j, k, l);
    }
  }

  lemma LaidLeaf(g: Geo, st: seq<Block>, n: nat, base: nat, j: nat, k: nat, l: nat)
    requires IndexLaid(g, st, n, base) && base > 0
    ensures Has(n, Dind(j)) ==> Word(g, st, base + Pos(n, Dind(j)), k) == Entry(n, base, DindMid(j, k))
    ensures Has(n, Dind(j)) && Has(n, DindMid(j, k)) ==>
      Word(g, st, base + Pos(n, DindMid(j, k)), l) == Entry(n, base, DindLeaf(j, k, l))
  {
    hide Word, Has, Pos, Entry, IndexLaid;
    if Has(n, Dind(j)) {
      LaidWord(g, st, n, base, Dind(j), k);
      if Has(n, DindMid(j, k)) {
        LaidWord(g, st, n, base, DindMid(j, k), l);
      }
    }
  }

  lemma MidParent(n: nat, j: nat, k: nat)
    ensures Has(n, DindMid(j, k)) ==> Has(n, Dind(j))
  {
  }

  /** The index blocks above a leaf exist. */
  lemma LeafParents(n: nat, j: nat, k: nat, l: nat)
    ensures Has(n, DindLeaf(j, k, l)) ==> Has(n, DindMid(j, k)) && Has(n, Dind(j))
  {
  }

  /** A placed file is whole and reads as its bytes. */
  lemma LaidContents(g: Geo, st: seq<Block>, ino: Inode, base: nat, data: seq<u8>)
    requires Laid(g, st, ino, base, data)
    ensures Full(g, st, ino) && Contents(g, st, ino) == data && Tidy(ino)
  {
    var n := NBlocks(|data|);
    forall lb: nat | lb < n
      ensures HasBlock(g, st, ino, lb) && BlockOf(g, st, ino, lb) == Chunk(data, lb)
    {
      LaidBlock(g, st, ino, base, data, lb);
    }
    hide BlockOf, HasBlock, Has, Pos, Need;
    forall o: nat | o < |data| ensures Contents(g, st, ino)[o] == data[o] {
      ContentsAt(g, st, ino, o);
      assert BlockOf(g, st, ino, o / BLKSZ) == Chunk(data, o / BLKSZ);
      assert o / BLKSZ * BLKSZ + o % BLKSZ == o;
    }
    LaidTidy(ino, |data|, base);
  }

  lemma LaidTidy(ino: Inode, size: nat, base: nat)
    requires InodeLaid(ino, size, base)
    ensures Tidy(ino)
  {
  }

  lemma LaidBlock(g: Geo, st: seq<Block>, ino: Inode, base: nat, data: seq<u8>, lb: nat)
    requires Laid(g, st, ino, base, data) && lb < NBlocks(|data|)
    ensures HasBlock(g, st, ino, lb) && BlockOf(g, st, ino, lb) == Chunk(data, lb)
  {
    hide Ptr, LeafPath, Has, Pos, DindBlocks, Inner, DindPos, InodeLaid, IndexLaid, Chunk;
    LeafHas(NBlocks(|data|), lb);
    LaidPtr(g, st, ino, base, data, LeafPath(lb));
  }

  /** Which pointer of inode i leads to block v of a file placed at base. */
  function OwnerAt(i: nat, n: nat, base: nat, v: nat): Node
    requires base <= v
  {
    Node(i, PathAt(n, v - base))
  }

  /** The owners of the blocks of a placed file. */
  ghost function LaidOwner(i: nat, n: nat, base: nat): map<nat, Node> {
    map v: nat | base <= v < base + Need(n) :: OwnerAt(i, n, base, v)
  }

  /** Blocks already laid are not touched by what is laid behind them. */
  ghost predicate Grown(g: Geo, st: seq<Block>, st': seq<Block>, next: nat) {
    && |st'| == |st|
    && forall b: nat :: b < |st| && (b == 0 || g.FirstInode() <= b < next) ==> st'[b] == st[b]
  }

  lemma GrownIndex(g: Geo, st: seq<Block>, st': seq<Block>, next: nat, owner: map<nat, Node>)
    requires Grown(g, st, st', next) && forall v :: v in owner ==> g.FirstData() + v < next
    ensures SameIndex(g, st, st', owner)
  {
  }

  /** Placing a file in fresh blocks keeps the tree sound. */
  lemma AddLaid(g: Geo, st: seq<Block>, st': seq<Block>, inos: seq<Inode>, owner: map<nat, Node>,
                i: nat, ino: Inode, base: nat, data: seq<u8>)
    requires TreeInv(g, st, inos, owner) && GeoOk(g, st') && i < |inos|
    requires Grown(g, st, st', g.FirstData() + base) && forall v :: v in owner ==> v < base
    requires Laid(g, st', ino, base, data)
    requires forall b: nat :: b < g.FirstData() + base + Need(NBlocks(|data|)) ==> Used(g, st', b)
    ensures TreeInv(g, st', inos[i := ino], owner + LaidOwner(i, NBlocks(|data|), base))
  {
    hide Used, Laid, Has, Pos, Need, PathAt, Ptr, InodeLaid, IndexLaid, DataLaid, NBlocks;
    var n := NBlocks(|data|);
    var inos', owner' := inos[i := ino], owner + LaidOwner(i, n, base);
    GrownIndex(g, st, st', g.FirstData() + base, owner);
    forall j: nat, p | j < |inos'| && Ptr(g, st', inos'[j], p).Some?
      ensures Ptr(g, st', inos'[j], p).value in owner' && owner'[Ptr(g, st', inos'[j], p).value] == Node(j, p)
    {
      if j == i {
        LaidPtr(g, st', ino, base, data, p);
        PathAtPos(n, p);
      } else {
        PtrFrame(g, st, st', inos, owner, j, p);
        assert Ptr(g, st, inos[j], p).value in owner;
      }
    }
    LaidRange(g, st', ino, base, data);
  }

  lemma LaidRange(g: Geo, st: seq<Block>, ino: Inode, base: nat, data: seq<u8>)
    requires Laid(g, st, ino, base, data)
    ensures g.FirstData() + base + Need(NBlocks(|data|)) <= |st| && base > 0
  {
  }

  /** A placed file stays placed while its own blocks stay as they are. */
  lemma LaidKept(g: Geo, st: seq<Block>, st': seq<Block>, ino: Inode, base: nat, data: seq<u8>)
    requires Laid(g, st, ino, base, data) && |st'| == |st|
    requires forall b: nat :: g.FirstData() + base <= b < g.FirstData() + base + Need(NBlocks(|data|)) ==> st'[b] == st[b]
    ensures Laid(g, st', ino, base, data)
  {
    hide Has, Pos, PathAt, InodeLaid, Need;
    var n := NBlocks(|data|);
    forall p, k: nat | IsIndex(p) && Has(n, p) && k < PTRS
      ensures Word(g, st', base + Pos(n, p), k) == Entry(n, base, Child(p, k))
    {
      PathAtPos(n, p);
      assert Word(g, st, base + Pos(n, p), k) == Entry(n, base, Child(p, k));
    }
    NeedAtLeast(n);
  }

  lemma NeedAtLeast(n: nat)
    ensures n <= Need(n)
  {
  }
}
