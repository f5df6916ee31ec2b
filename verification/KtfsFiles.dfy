/** Files as byte sequences: what a file holds, and how the steps of a write change it and no other file. */
module KtfsFiles {
  import opened Base
  import opened Format
  import opened KtfsTree
  import opened KtfsSteps
  import opened KtfsKernel

  /** Logical block lb of a file; zeros where nothing is allocated. */
  ghost function BlockOf(g: Geo, st: seq<Block>, ino: Inode, lb: nat): Block {
    var p := Ptr(g, st, ino, LeafPath(lb));
    if p.Some? && g.FirstData() + p.value < |st| then st[g.FirstData() + p.value] else ZERO_BLOCK
  }

  ghost predicate HasBlock(g: Geo, st: seq<Block>, ino: Inode, lb: nat) {
    Ptr(g, st, ino, LeafPath(lb)).Some?
  }

  /** Every block below the size is allocated. */
  ghost predicate Full(g: Geo, st: seq<Block>, ino: Inode) {
    forall lb: nat :: lb < NBlocks(ino.size) ==> HasBlock(g, st, ino, lb)
  }

  /** The bytes of a file. */
  ghost function Contents(g: Geo, st: seq<Block>, ino: Inode): (c: seq<u8>)
    ensures |c| == ino.size
  {
    seq(ino.size, o requires 0 <= o < ino.size => BlockOf(g, st, ino, o / BLKSZ)[o % BLKSZ])
  }

  lemma ContentsAt(g: Geo, st: seq<Block>, ino: Inode, o: nat)
    requires o < ino.size
    ensures Contents(g, st, ino)[o] == BlockOf(g, st, ino, o / BLKSZ)[o % BLKSZ]
  {
    hide BlockOf;
  }

  /** The image between operations: the tree is sound, files have no holes, and unused direct slots are zero. */
  ghost predicate FsInv(g: Geo, st: seq<Block>, owner: map<nat, Node>) {
    && GeoOk(g, st)
    && TreeInv(g, st, Table(g, st), owner)
    && forall i: nat :: i < g.Inodes() ==> Full(g, st, InodeAt(g, st, i)) && (i != g.root ==> Tidy(InodeAt(g, st, i)))
  }

  /** An inode of zeros is an empty file. */
  lemma ZeroFile(g: Geo, st: seq<Block>)
    ensures Full(g, st, ZERO_INODE) && Tidy(ZERO_INODE)
  {
  }

  /** The two files have the same blocks in the same places. */
  ghost predicate FileSame(g: Geo, st: seq<Block>, ino: Inode, st': seq<Block>, ino': Inode) {
    forall lb: nat :: HasBlock(g, st', ino', lb) == HasBlock(g, st, ino, lb) && BlockOf(g, st', ino', lb) == BlockOf(g, st, ino, lb)
  }

  lemma FileSameContents(g: Geo, st: seq<Block>, st': seq<Block>, ino: Inode)
    requires FileSame(g, st, ino, st', ino)
    ensures Contents(g, st', ino) == Contents(g, st, ino) && Full(g, st', ino) == Full(g, st, ino)
  {
  }

  /** An extension of the image keeps every block a file had. */
  lemma ExtendsBlock(g: Geo, st: seq<Block>, inos: seq<Inode>, owner: map<nat, Node>,
                     st': seq<Block>, inos': seq<Inode>, owner': map<nat, Node>, target: Node, j: nat, lb: nat)
    requires TreeInv(g, st, inos, owner) && Extends(g, st, inos, owner, st', inos', owner', target)
    requires j < |inos| && |inos'| == |inos|
    ensures HasBlock(g, st, inos[j], lb) ==> HasBlock(g, st', inos'[j], lb) && BlockOf(g, st', inos'[j], lb) == BlockOf(g, st, inos[j], lb)
    ensures Node(j, LeafPath(lb)) != target ==> HasBlock(g, st', inos'[j], lb) == HasBlock(g, st, inos[j], lb)
    ensures Node(j, LeafPath(lb)) != target ==> BlockOf(g, st', inos'[j], lb) == BlockOf(g, st, inos[j], lb)
  {
    hide Used;
    var p := LeafPath(lb);
    if Ptr(g, st, inos[j], p).Some? {
      PtrInRange(g, st, inos, owner, j, p);
    }
    assert !IsIndex(p);
    assert Node(j, p) != target && Ptr(g, st', inos'[j], p).Some? ==> Ptr(g, st, inos[j], p).Some?;
  }

  /** Writing the block behind logical block lb of file i changes that block and nothing else. */
  lemma PokeBlock(g: Geo, st: seq<Block>, inos: seq<Inode>, owner: map<nat, Node>, i: nat, lb: nat, v: nat, data: Block, j: nat, l: nat)
    requires TreeInv(g, st, inos, owner) && i < |inos| && j < |inos|
    requires Ptr(g, st, inos[i], LeafPath(lb)) == Some(v)
    ensures g.FirstData() + v < |st|
    ensures HasBlock(g, st[g.FirstData() + v := data], inos[j], l) == HasBlock(g, st, inos[j], l)
    ensures BlockOf(g, st[g.FirstData() + v := data], inos[j], l) == if j == i && l == lb then data else BlockOf(g, st, inos[j], l)
  {
    hide Used;
    PtrInRange(g, st, inos, owner, i, LeafPath(lb));
    var st' := st[g.FirstData() + v := data];
    DataFrame(g, st, inos, owner, v, data);
    PtrFrame(g, st, st', inos, owner, j, LeafPath(l));
    var q := Ptr(g, st, inos[j], LeafPath(l));
    if q.Some? {
      PtrInRange(g, st, inos, owner, j, LeafPath(l));
      if q.value == v {
        LeafPathInjective(l, lb);
      }
    }
  }

  // ---- writing ----

  /** An image with the inode table as the writer sees it. */
  datatype Image = Image(st: seq<Block>, inos: seq<Inode>, owner: map<nat, Node>)

  /** Block lb after data was written at pos over a file whose block lb was old. */
  ghost function Overlay(old_: Block, lb: nat, pos: nat, data: seq<u8>): (r: Block)
  {
    seq(BLKSZ, k requires 0 <= k < BLKSZ => if pos <= lb * BLKSZ + k < pos + |data| then data[lb * BLKSZ + k - pos] else old_[k])
  }

  /** A write at pos to a file of this size skips a direct block. */
  predicate Skips(size: nat, pos: nat) {
    NBlocks(size) < pos / BLKSZ < NDIRECT
  }

  /** The writer's inode as the tree knows it: after a skip the tree does not take the direct blocks in. */
  function Shadow(was: Inode, ino: Inode, pos: nat): Inode {
    if Skips(was.size, pos) then Over(was, ino) else ino
  }

  /** The size of the writer's inode after data of this length was written at pos: a fresh direct block rounds
      the size up to the block. */
  function LoopSize(size: nat, pos: nat, len: nat): nat {
    var d := Min(NDIRECT, NBlocks(pos + len));
    if len > 0 && pos / BLKSZ < NDIRECT && d > NBlocks(size) then d * BLKSZ else size
  }

  /** The first block of a write that the tree takes in. */
  function FirstIn(size: nat, pos: nat): nat {
    if Skips(size, pos) then NDIRECT else pos / BLKSZ
  }

  /** What holds however a write ends: the tree is sound, no other file changed, and the file kept its old
      blocks with the written bytes laid over them. */
  ghost predicate WriteSafe(g: Geo, a: Image, b: Image, i: nat, pos: nat, data: seq<u8>) {
    && i < |a.inos|
    && TreeInv(g, b.st, b.inos, b.owner)
    && SameMeta(g, a.st, b.st)
    && |b.inos| == |a.inos|
    && InoLeq(a.inos[i], b.inos[i])
    && (Tidy(a.inos[i]) ==> Tidy(b.inos[i]))
    && (forall j: nat :: j < |a.inos| && j != i ==> b.inos[j] == a.inos[j] && FileSame(g, a.st, a.inos[j], b.st, b.inos[j]))
    && (forall lb: nat :: HasBlock(g, a.st, a.inos[i], lb) ==> KeptBlock(g, a, b, i, lb, pos, data))
  }

  ghost predicate KeptBlock(g: Geo, a: Image, b: Image, i: nat, lb: nat, pos: nat, data: seq<u8>)
    requires i < |a.inos| == |b.inos|
  {
    && Ptr(g, b.st, b.inos[i], LeafPath(lb)) == Ptr(g, a.st, a.inos[i], LeafPath(lb))
    && BlockOf(g, b.st, b.inos[i], lb) == Overlay(BlockOf(g, a.st, a.inos[i], lb), lb, pos, data)
  }

  /** The new blocks of the file are zero but for the written bytes. */
  ghost predicate NewBlocks(g: Geo, a: Image, b: Image, i: nat, pos: nat, data: seq<u8>)
    requires i < |a.inos| == |b.inos|
  {
    forall lb: nat :: HasBlock(g, b.st, b.inos[i], lb) && !HasBlock(g, a.st, a.inos[i], lb) ==>
      BlockOf(g, b.st, b.inos[i], lb) == Overlay(ZERO_BLOCK, lb, pos, data)
  }

  /** The blocks the written bytes lie in are there, from lo on. */
  ghost predicate Reached(g: Geo, b: Image, i: nat, lo: nat, pos: nat, len: nat)
    requires i < |b.inos|
  {
    len > 0 ==> forall lb: nat :: lo <= lb < NBlocks(pos + len) ==> HasBlock(g, b.st, b.inos[i], lb)
  }

  /** No other blocks have been added. */
  ghost predicate Confined(g: Geo, a: Image, b: Image, i: nat, pos: nat, len: nat)
    requires i < |a.inos| == |b.inos|
  {
    forall lb: nat :: HasBlock(g, b.st, b.inos[i], lb) && !HasBlock(g, a.st, a.inos[i], lb) ==> pos / BLKSZ <= lb < NBlocks(pos + len)
  }

  /** A write of data at pos to inode i of image a has got this far, as the tree of image b knows it. */
  ghost predicate Core(g: Geo, a: Image, b: Image, i: nat, pos: nat, data: seq<u8>) {
    && WriteSafe(g, a, b, i, pos, data)
    && NewBlocks(g, a, b, i, pos, data)
    && Confined(g, a, b, i, pos, |data|)
    && Reached(g, b, i, FirstIn(a.inos[i].size, pos), pos, |data|)
  }

  ghost predicate Advanced(g: Geo, a: Image, b: Image, i: nat, lb: nat) {
    && i < |a.inos| == |b.inos|
    && TreeInv(g, a.st, a.inos, a.owner)
    && TreeInv(g, b.st, b.inos, b.owner)
    && Extends(g, a.st, a.inos, a.owner, b.st, b.inos, b.owner, Node(i, LeafPath(lb)))
    && b.inos == a.inos[i := b.inos[i]]
    && InoLeq(a.inos[i], b.inos[i])
    && (Tidy(a.inos[i]) ==> Tidy(b.inos[i]))
  }

  /** Allocation on the way keeps the write safe. */
  lemma AllocKeepsSafe(g: Geo, a: Image, b: Image, c: Image, i: nat, pos: nat, data: seq<u8>, lb: nat)
    requires WriteSafe(g, a, b, i, pos, data) && Advanced(g, b, c, i, lb)
    ensures WriteSafe(g, a, c, i, pos, data)
  {
    hide TreeInv, Extends, BlockOf, Ptr, InoLeq, Tidy;
    InoLeqTrans(a.inos[i], b.inos[i], c.inos[i]);
    ExtendsMeta(g, a, b, c, i, lb);
    forall j: nat | j < |a.inos| && j != i
      ensures c.inos[j] == a.inos[j] && FileSame(g, a.st, a.inos[j], c.st, c.inos[j])
    {
      forall l: nat
        ensures HasBlock(g, c.st, c.inos[j], l) == HasBlock(g, a.st, a.inos[j], l) && BlockOf(g, c.st, c.inos[j], l) == BlockOf(g, a.st, a.inos[j], l)
      {
        ExtendsBlock(g, b.st, b.inos, b.owner, c.st, c.inos, c.owner, Node(i, LeafPath(lb)), j, l);
        assert HasBlock(g, b.st, b.inos[j], l) == HasBlock(g, a.st, a.inos[j], l);
      }
    }
    forall l: nat | HasBlock(g, a.st, a.inos[i], l) ensures KeptBlock(g, a, c, i, l, pos, data) {
      assert KeptBlock(g, a, b, i, l, pos, data);
      ExtendsBlock(g, b.st, b.inos, b.owner, c.st, c.inos, c.owner, Node(i, LeafPath(lb)), i, l);
      ExtendsPtr(g, b.st, b.inos, b.owner, c.st, c.inos, c.owner, Node(i, LeafPath(lb)), i, LeafPath(l));
    }
  }

  lemma InoLeqTrans(a: Inode, b: Inode, c: Inode)
    requires InoLeq(a, b) && InoLeq(b, c)
    ensures InoLeq(a, c)
  {
    assert NBlocks(a.size) <= NBlocks(b.size);
  }

  lemma ExtendsMeta(g: Geo, a: Image, b: Image, c: Image, i: nat, lb: nat)
    requires SameMeta(g, a.st, b.st) && Advanced(g, b, c, i, lb)
    ensures SameMeta(g, a.st, c.st) && TreeInv(g, c.st, c.inos, c.owner)
  {
  }

  /** A successful allocation keeps the new blocks right: the block it added, if any, is zero and the bytes
      written so far do not reach it. */
  lemma AllocKeepsNew(g: Geo, a: Image, b: Image, c: Image, i: nat, pos: nat, data: seq<u8>, lb: nat)
    requires Core(g, a, b, i, pos, data) && Advanced(g, b, c, i, lb) && (pos + |data|) / BLKSZ == lb
    requires HasBlock(g, c.st, c.inos[i], lb) ==> lb >= FirstIn(a.inos[i].size, pos)
    requires HasBlock(g, c.st, c.inos[i], lb) && !HasBlock(g, b.st, b.inos[i], lb) ==> BlockOf(g, c.st, c.inos[i], lb) == ZERO_BLOCK
    ensures NewBlocks(g, a, c, i, pos, data) && Reached(g, c, i, FirstIn(a.inos[i].size, pos), pos, |data|)
    ensures forall l: nat :: l != lb && HasBlock(g, c.st, c.inos[i], l) && !HasBlock(g, a.st, a.inos[i], l) ==> pos / BLKSZ <= l < NBlocks(pos + |data|)
  {
    assert |b.inos| == |a.inos|;
    hide TreeInv, Extends, BlockOf, Ptr, InoLeq, Tidy, WriteSafe, HasBlock;
    forall l: nat
      ensures HasBlock(g, b.st, b.inos[i], l) ==> HasBlock(g, c.st, c.inos[i], l) && BlockOf(g, c.st, c.inos[i], l) == BlockOf(g, b.st, b.inos[i], l)
      ensures l != lb ==> HasBlock(g, c.st, c.inos[i], l) == HasBlock(g, b.st, b.inos[i], l)
    {
      ExtendsBlock(g, b.st, b.inos, b.owner, c.st, c.inos, c.owner, Node(i, LeafPath(lb)), i, l);
      if l != lb && LeafPath(l) == LeafPath(lb) { LeafPathInjective(l, lb); }
    }
    forall l: nat | HasBlock(g, c.st, c.inos[i], l) && !HasBlock(g, a.st, a.inos[i], l)
      ensures BlockOf(g, c.st, c.inos[i], l) == Overlay(ZERO_BLOCK, l, pos, data)
    {
      if !HasBlock(g, b.st, b.inos[i], l) {
        BeyondWritten(l, pos, data);
      }
    }
  }

  lemma BeyondWritten(lb: nat, pos: nat, data: seq<u8>)
    requires data == [] || !(lb < NBlocks(pos + |data|))
    ensures Overlay(ZERO_BLOCK, lb, pos, data) == ZERO_BLOCK
  {
  }

  // ---- one chunk ----

  /** Laying one more chunk over a block is a memory copy into it; other blocks do not see the chunk. */
  lemma OverlayChunk(base: Block, l: nat, pos: nat, data: seq<u8>, chunk: seq<u8>)
    requires (pos + |data|) % BLKSZ + |chunk| <= BLKSZ
    ensures Overlay(base, l, pos, data + chunk) ==
      if l == (pos + |data|) / BLKSZ then Patch(Overlay(base, l, pos, data), (pos + |data|) % BLKSZ, chunk)
      else Overlay(base, l, pos, data)
  {
    var lb, off := (pos + |data|) / BLKSZ, (pos + |data|) % BLKSZ;
    assert pos + |data| == lb * BLKSZ + off;
    forall k | 0 <= k < BLKSZ
      ensures Overlay(base, l, pos, data + chunk)[k] ==
        if l == lb then Patch(Overlay(base, l, pos, data), off, chunk)[k] else Overlay(base, l, pos, data)[k]
    {
      var o := l * BLKSZ + k;
      if pos <= o < pos + |data| {
        assert (data + chunk)[o - pos] == data[o - pos];
      } else if pos <= o < pos + |data| + |chunk| {
        assert (data + chunk)[o - pos] == chunk[o - pos - |data|];
      }
    }
  }

  /** The image after the chunk was copied into the block behind lb. */
  ghost function Poked(g: Geo, b: Image, v: nat, off: nat, chunk: seq<u8>): Image
    requires g.FirstData() + v < |b.st| && off + |chunk| <= BLKSZ
  {
    Image(b.st[g.FirstData() + v := Patch(b.st[g.FirstData() + v], off, chunk)], b.inos, b.owner)
  }

  /** The chunk was copied into the block behind lb of file i, if the tree knows of one, and nothing else changed. */
  ghost predicate Pasted(g: Geo, b: Image, c: Image, i: nat, lb: nat, off: nat, chunk: seq<u8>)
    requires i < |b.inos| && off + |chunk| <= BLKSZ
  {
    && c.inos == b.inos && TreeInv(g, c.st, c.inos, c.owner) && SameMeta(g, b.st, c.st)
    && forall j: nat, l: nat :: j < |b.inos| ==> PastedAt(g, b, c, i, lb, off, chunk, j, l)
  }

  ghost predicate PastedAt(g: Geo, b: Image, c: Image, i: nat, lb: nat, off: nat, chunk: seq<u8>, j: nat, l: nat)
    requires i < |b.inos| && off + |chunk| <= BLKSZ && j < |b.inos| == |c.inos|
  {
    && Ptr(g, c.st, c.inos[j], LeafPath(l)) == Ptr(g, b.st, b.inos[j], LeafPath(l))
    && BlockOf(g, c.st, c.inos[j], l) ==
         if j == i && l == lb && HasBlock(g, b.st, b.inos[i], lb) then Patch(BlockOf(g, b.st, b.inos[i], lb), off, chunk) else BlockOf(g, b.st, b.inos[j], l)
  }

  /** Copying the chunk into the block behind lb lays it there. */
  lemma PokeLays(g: Geo, b: Image, i: nat, lb: nat, v: nat, off: nat, chunk: seq<u8>)
    requires TreeInv(g, b.st, b.inos, b.owner) && i < |b.inos| && Ptr(g, b.st, b.inos[i], LeafPath(lb)) == Some(v) && off + |chunk| <= BLKSZ
    ensures g.FirstData() + v < |b.st| && Pasted(g, b, Poked(g, b, v, off, chunk), i, lb, off, chunk)
  {
    assert HasBlock(g, b.st, b.inos[i], lb);
    hide TreeInv, BlockOf, Ptr, Used, Patch, HasBlock;
    PokedTree(g, b, i, lb, v, ZERO_BLOCK);
    var c := Poked(g, b, v, off, chunk);
    PokedTree(g, b, i, lb, v, Patch(b.st[g.FirstData() + v], off, chunk));
    forall j: nat, l: nat | j < |b.inos| ensures PastedAt(g, b, c, i, lb, off, chunk, j, l) {
      PokedBlock(g, b, i, lb, v, off, chunk, j, l);
    }
  }

  lemma PastedBlock(g: Geo, b: Image, c: Image, i: nat, lb: nat, off: nat, chunk: seq<u8>, j: nat, l: nat)
    requires i < |b.inos| && off + |chunk| <= BLKSZ && Pasted(g, b, c, i, lb, off, chunk) && j < |b.inos|
    ensures HasBlock(g, c.st, c.inos[j], l) == HasBlock(g, b.st, b.inos[j], l)
    ensures Ptr(g, c.st, c.inos[j], LeafPath(l)) == Ptr(g, b.st, b.inos[j], LeafPath(l))
    ensures BlockOf(g, c.st, c.inos[j], l) ==
      if j == i && l == lb && HasBlock(g, b.st, b.inos[i], lb) then Patch(BlockOf(g, b.st, b.inos[i], lb), off, chunk) else BlockOf(g, b.st, b.inos[j], l)
  {
    hide TreeInv, BlockOf, Ptr, Patch;
    assert PastedAt(g, b, c, i, lb, off, chunk, j, l);
  }

  lemma PokeKeepsSafe(g: Geo, a: Image, b: Image, c: Image, i: nat, pos: nat, data: seq<u8>, lb: nat, chunk: seq<u8>)
    requires WriteSafe(g, a, b, i, pos, data) && (pos + |data|) / BLKSZ == lb && (pos + |data|) % BLKSZ + |chunk| <= BLKSZ
    requires Pasted(g, b, c, i, lb, (pos + |data|) % BLKSZ, chunk)
    requires HasBlock(g, a.st, a.inos[i], lb) ==> HasBlock(g, b.st, b.inos[i], lb)
    ensures WriteSafe(g, a, c, i, pos, data + chunk)
  {
    hide TreeInv, BlockOf, Ptr, InoLeq, Tidy, Overlay, Patch, HasBlock, PastedAt;
    var off := (pos + |data|) % BLKSZ;
    assert SameMeta(g, a.st, c.st) by { MetaTrans(g, a.st, b.st, c.st); }
    forall l: nat | HasBlock(g, a.st, a.inos[i], l) ensures KeptBlock(g, a, c, i, l, pos, data + chunk) {
      assert KeptBlock(g, a, b, i, l, pos, data);
      PastedBlock(g, b, c, i, lb, off, chunk, i, l);
      OverlayChunk(BlockOf(g, a.st, a.inos[i], l), l, pos, data, chunk);
    }
    forall j: nat | j < |a.inos| && j != i
      ensures c.inos[j] == a.inos[j] && FileSame(g, a.st, a.inos[j], c.st, c.inos[j])
    {
      forall l: nat
        ensures HasBlock(g, c.st, c.inos[j], l) == HasBlock(g, a.st, a.inos[j], l) && BlockOf(g, c.st, c.inos[j], l) == BlockOf(g, a.st, a.inos[j], l)
      {
        PastedBlock(g, b, c, i, lb, off, chunk, j, l);
        assert HasBlock(g, b.st, b.inos[j], l) == HasBlock(g, a.st, a.inos[j], l);
      }
    }
  }

  lemma MetaTrans(g: Geo, st: seq<Block>, st1: seq<Block>, st2: seq<Block>)
    requires SameMeta(g, st, st1) && SameMeta(g, st1, st2)
    ensures SameMeta(g, st, st2)
  {
  }

  lemma PokeKeepsNew(g: Geo, a: Image, b: Image, c: Image, i: nat, pos: nat, data: seq<u8>, lb: nat, chunk: seq<u8>)
    requires i < |a.inos| == |b.inos| && (pos + |data|) / BLKSZ == lb && (pos + |data|) % BLKSZ + |chunk| <= BLKSZ
    requires Pasted(g, b, c, i, lb, (pos + |data|) % BLKSZ, chunk) && NewBlocks(g, a, b, i, pos, data)
    ensures NewBlocks(g, a, c, i, pos, data + chunk)
  {
    hide TreeInv, BlockOf, Ptr, Overlay, Patch, HasBlock, Pasted;
    var off := (pos + |data|) % BLKSZ;
    assert c.inos == b.inos by { PastedTable(g, b, c, i, lb, off, chunk); }
    forall l: nat | HasBlock(g, c.st, c.inos[i], l) && !HasBlock(g, a.st, a.inos[i], l)
      ensures BlockOf(g, c.st, c.inos[i], l) == Overlay(ZERO_BLOCK, l, pos, data + chunk)
    {
      PastedBlock(g, b, c, i, lb, off, chunk, i, l);
      OverlayChunk(ZERO_BLOCK, l, pos, data, chunk);
    }
  }

  lemma PastedTable(g: Geo, b: Image, c: Image, i: nat, lb: nat, off: nat, chunk: seq<u8>)
    requires i < |b.inos| && off + |chunk| <= BLKSZ && Pasted(g, b, c, i, lb, off, chunk)
    ensures c.inos == b.inos && TreeInv(g, c.st, c.inos, c.owner)
  {
  }

  lemma PokeKeepsPlaces(g: Geo, a: Image, b: Image, c: Image, i: nat, lo: nat, pos: nat, data: seq<u8>, lb: nat, chunk: seq<u8>)
    requires i < |a.inos| == |b.inos| && (pos + |data|) / BLKSZ == lb && 0 < |chunk| <= BLKSZ - (pos + |data|) % BLKSZ
    requires Pasted(g, b, c, i, lb, (pos + |data|) % BLKSZ, chunk) && Reached(g, b, i, lo, pos, |data|)
    requires (HasBlock(g, b.st, b.inos[i], lb) || lb < lo) && lo >= pos / BLKSZ
    requires forall l: nat :: l != lb && HasBlock(g, b.st, b.inos[i], l) && !HasBlock(g, a.st, a.inos[i], l) ==> pos / BLKSZ <= l < NBlocks(pos + |data|)
    ensures |c.inos| == |b.inos| && Reached(g, c, i, lo, pos, |data + chunk|) && Confined(g, a, c, i, pos, |data + chunk|)
  {
    hide TreeInv, BlockOf, Ptr, Overlay, Patch, HasBlock, Pasted;
    PastedTable(g, b, c, i, lb, (pos + |data|) % BLKSZ, chunk);
    assert NBlocks(pos + |data + chunk|) == lb + 1 && lb <= NBlocks(pos + |data|) <= lb + 1;
    forall l: nat ensures HasBlock(g, c.st, c.inos[i], l) == HasBlock(g, b.st, b.inos[i], l) {
      PastedBlock(g, b, c, i, lb, (pos + |data|) % BLKSZ, chunk, i, l);
    }
  }

  lemma PokedTree(g: Geo, b: Image, i: nat, lb: nat, v: nat, data: Block)
    requires TreeInv(g, b.st, b.inos, b.owner) && i < |b.inos| && Ptr(g, b.st, b.inos[i], LeafPath(lb)) == Some(v)
    ensures g.FirstData() + v < |b.st|
    ensures TreeInv(g, b.st[g.FirstData() + v := data], b.inos, b.owner)
    ensures SameMeta(g, b.st, b.st[g.FirstData() + v := data])
  {
    hide Used, Ptr;
    PtrInRange(g, b.st, b.inos, b.owner, i, LeafPath(lb));
    DataFrame(g, b.st, b.inos, b.owner, v, data);
  }

  lemma PokedBlock(g: Geo, b: Image, i: nat, lb: nat, v: nat, off: nat, chunk: seq<u8>, j: nat, l: nat)
    requires TreeInv(g, b.st, b.inos, b.owner) && i < |b.inos| && Ptr(g, b.st, b.inos[i], LeafPath(lb)) == Some(v) && j < |b.inos|
    requires g.FirstData() + v < |b.st| && off + |chunk| <= BLKSZ
    ensures var c := Poked(g, b, v, off, chunk);
      && HasBlock(g, c.st, c.inos[j], l) == HasBlock(g, b.st, b.inos[j], l)
      && Ptr(g, c.st, c.inos[j], LeafPath(l)) == Ptr(g, b.st, b.inos[j], LeafPath(l))
      && BlockOf(g, c.st, c.inos[j], l) == if j == i && l == lb then Patch(BlockOf(g, b.st, b.inos[i], lb), off, chunk) else BlockOf(g, b.st, b.inos[j], l)
  {
    hide Used, Patch;
    var data := Patch(b.st[g.FirstData() + v], off, chunk);
    PokeBlock(g, b.st, b.inos, b.owner, i, lb, v, data, j, l);
    PtrInRange(g, b.st, b.inos, b.owner, i, LeafPath(lb));
    DataFrame(g, b.st, b.inos, b.owner, v, data);
    PtrFrame(g, b.st, b.st[g.FirstData() + v := data], b.inos, b.owner, j, LeafPath(l));
  }

  // ---- blocks behind a skipped one ----

  /** Direct block k of the writer's inode is set aside and holds the written bytes. */
  ghost predicate GapBlock(g: Geo, b: Image, ino: Inode, i: nat, pos: nat, data: seq<u8>, k: nat)
    requires k < NDIRECT
  {
    && SetAside(b.owner, ino.block[k], Node(i, Direct(k)))
    && g.FirstData() + ino.block[k] < |b.st| && b.st[g.FirstData() + ino.block[k]] == Overlay(ZERO_BLOCK, k, pos, data)
  }

  ghost predicate GapBlocks(g: Geo, b: Image, ino: Inode, i: nat, pos: nat, data: seq<u8>) {
    data != [] ==> forall k: nat :: pos / BLKSZ <= k < NDIRECT && k < NBlocks(pos + |data|) ==> GapBlock(g, b, ino, i, pos, data, k)
  }

  /** Copying a chunk into a block that is set aside changes nothing the tree knows of. */
  lemma AsideLays(g: Geo, b: Image, i: nat, lb: nat, v: nat, off: nat, chunk: seq<u8>)
    requires TreeInv(g, b.st, b.inos, b.owner) && i < |b.inos| && NBlocks(b.inos[i].size) <= lb < NDIRECT
    requires SetAside(b.owner, v, Node(i, Direct(lb))) && off + |chunk| <= BLKSZ
    ensures g.FirstData() + v < |b.st| && Pasted(g, b, Poked(g, b, v, off, chunk), i, lb, off, chunk)
  {
    hide Used, Patch;
    DirectBeyond(g, b.st, b.inos[i], lb);
    var st' := b.st[g.FirstData() + v := Patch(b.st[g.FirstData() + v], off, chunk)];
    DataFrame(g, b.st, b.inos, b.owner, v, Patch(b.st[g.FirstData() + v], off, chunk));
    var c := Poked(g, b, v, off, chunk);
    forall j: nat, l: nat | j < |b.inos| ensures PastedAt(g, b, c, i, lb, off, chunk, j, l) {
      PtrFrame(g, b.st, st', b.inos, b.owner, j, LeafPath(l));
      if HasBlock(g, b.st, b.inos[j], l) {
        PtrInRange(g, b.st, b.inos, b.owner, j, LeafPath(l));
        if Ptr(g, b.st, b.inos[j], LeafPath(l)).value == v {
          LeafPathInjective(l, lb);
        }
      }
    }
  }

  lemma DirectBeyond(g: Geo, st: seq<Block>, ino: Inode, lb: nat)
    requires NBlocks(ino.size) <= lb < NDIRECT
    ensures !HasBlock(g, st, ino, lb) && LeafPath(lb) == Direct(lb)
  {
  }

  /** What is set aside stays where it is while the image grows. */
  lemma GapKept(g: Geo, b: Image, c: Image, ino: Inode, ino': Inode, i: nat, pos: nat, data: seq<u8>, k: nat, target: Node)
    requires k < NDIRECT && GapBlock(g, b, ino, i, pos, data, k) && ino'.block[k] == ino.block[k]
    requires Extends(g, b.st, b.inos, b.owner, c.st, c.inos, c.owner, target)
    ensures GapBlock(g, c, ino', i, pos, data, k)
  {
    hide Overlay;
    assert !IsIndex(Direct(k));
  }

  /** Copying a chunk elsewhere keeps what is set aside. */
  lemma GapPoked(g: Geo, c: Image, ino: Inode, i: nat, pos: nat, data: seq<u8>, k: nat, lb: nat, v: nat, chunk: seq<u8>)
    requires k < NDIRECT && k != lb && GapBlock(g, c, ino, i, pos, data, k) && g.FirstData() + v < |c.st|
    requires (pos + |data|) / BLKSZ == lb && (pos + |data|) % BLKSZ + |chunk| <= BLKSZ
    requires v in c.owner && c.owner[v] != Node(i, Direct(k))
    ensures GapBlock(g, Poked(g, c, v, (pos + |data|) % BLKSZ, chunk), ino, i, pos, data + chunk, k)
  {
    hide Overlay, Patch;
    OverlayChunk(ZERO_BLOCK, k, pos, data, chunk);
  }

  /** The block just set aside, with its first chunk. */
  lemma GapFilled(g: Geo, c: Image, ino: Inode, i: nat, pos: nat, data: seq<u8>, lb: nat, chunk: seq<u8>)
    requires lb < NDIRECT && SetAside(c.owner, ino.block[lb], Node(i, Direct(lb))) && IsZero(g, c.st, ino.block[lb])
    requires (pos + |data|) / BLKSZ == lb && (pos + |data|) % BLKSZ + |chunk| <= BLKSZ && (data != [] ==> (pos + |data|) % BLKSZ == 0)
    ensures GapBlock(g, Poked(g, c, ino.block[lb], (pos + |data|) % BLKSZ, chunk), ino, i, pos, data + chunk, lb)
  {
    hide Patch, Overlay;
    BeyondWritten(lb, pos, data);
    OverlayChunk(ZERO_BLOCK, lb, pos, data, chunk);
  }

  // ---- the end of a write ----

  /** The inode on disk has fewer pointers than the writer's copy, so its tree is sound too. */
  lemma TreeShrink(g: Geo, st: seq<Block>, inos: seq<Inode>, owner: map<nat, Node>, i: nat, ino: Inode)
    requires TreeInv(g, st, inos, owner) && i < |inos| && InoLeq(ino, inos[i])
    ensures TreeInv(g, st, inos[i := ino], owner)
  {
    hide Used;
    var inos' := inos[i := ino];
    forall j: nat, p | j < |inos'| && Ptr(g, st, inos'[j], p).Some?
      ensures Ptr(g, st, inos'[j], p).value in owner && owner[Ptr(g, st, inos'[j], p).value] == Node(j, p)
    {
      if j == i { InoLeqPtr(g, st, ino, inos[i], p); }
      assert Ptr(g, st, inos[j], p) == Ptr(g, st, inos'[j], p);
    }
  }

  /** An inode keeps its pointers while a larger copy of it keeps them. */
  lemma InoLeqBack(g: Geo, st: seq<Block>, st': seq<Block>, a: Inode, b: Inode, p: Path)
    requires InoLeq(a, b) && Ptr(g, st, a, p).Some? && Ptr(g, st', b, p) == Ptr(g, st, a, p)
    requires p.IndLeaf? || p.Direct? || p.DindLeaf?
    requires p.DindLeaf? ==> p.j < NDIND && Ptr(g, st', b, p).Some?
    ensures Ptr(g, st', a, p) == Ptr(g, st, a, p)
  {
  }

  /** A write that stopped early leaves an image that is sound, with the same inodes, every other file
      unchanged, and this file unchanged outside the bytes that were being written. */
  lemma WriteAborted(g: Geo, a: Image, b: Image, i: nat, pos: nat, data: seq<u8>)
    requires FsInv(g, a.st, a.owner) && a.inos == Table(g, a.st) && WriteSafe(g, a, b, i, pos, data)
    ensures GeoOk(g, b.st) && Table(g, b.st) == a.inos && FsInv(g, b.st, b.owner)
    ensures forall j: nat :: j < |a.inos| && j != i ==> Contents(g, b.st, a.inos[j]) == Contents(g, a.st, a.inos[j])
    ensures forall o :: 0 <= o < a.inos[i].size && !(pos <= o < pos + |data|) ==>
      Contents(g, b.st, a.inos[i])[o] == Contents(g, a.st, a.inos[i])[o]
  {
    hide Used, Ptr, BlockOf, Owned, OwnerUsed, Tidy, InoLeq, HasBlock;
    TableFrame(g, a.st, b.st);
    TreeShrink(g, b.st, b.inos, b.owner, i, a.inos[i]);
    assert b.inos[i := a.inos[i]] == a.inos;
    forall j: nat | j < |a.inos| && j != i
      ensures Contents(g, b.st, a.inos[j]) == Contents(g, a.st, a.inos[j]) && Full(g, b.st, a.inos[j])
    {
      FileSameContents(g, a.st, b.st, a.inos[j]);
    }
    forall lb: nat | HasBlock(g, a.st, a.inos[i], lb)
      ensures HasBlock(g, b.st, a.inos[i], lb) && BlockOf(g, b.st, a.inos[i], lb) == Overlay(BlockOf(g, a.st, a.inos[i], lb), lb, pos, data)
    {
      KeptOnDisk(g, a, b, i, lb, pos, data);
    }
    forall o | 0 <= o < a.inos[i].size && !(pos <= o < pos + |data|)
      ensures Contents(g, b.st, a.inos[i])[o] == Contents(g, a.st, a.inos[i])[o]
    {
      assert HasBlock(g, a.st, a.inos[i], o / BLKSZ);
    }
  }

  lemma KeptOnDisk(g: Geo, a: Image, b: Image, i: nat, lb: nat, pos: nat, data: seq<u8>)
    requires i < |a.inos| == |b.inos| && InoLeq(a.inos[i], b.inos[i])
    requires HasBlock(g, a.st, a.inos[i], lb) && KeptBlock(g, a, b, i, lb, pos, data)
    ensures HasBlock(g, b.st, a.inos[i], lb) && BlockOf(g, b.st, a.inos[i], lb) == Overlay(BlockOf(g, a.st, a.inos[i], lb), lb, pos, data)
  {
    hide Overlay;
    InoLeqBack(g, a.st, b.st, a.inos[i], b.inos[i], LeafPath(lb));
  }

  /** Changing inode blocks only leaves every tree and every file alone. */
  lemma InodeBlocksFrame(g: Geo, st: seq<Block>, st': seq<Block>, inos: seq<Inode>, owner: map<nat, Node>)
    requires TreeInv(g, st, inos, owner) && GeoOk(g, st')
    requires forall b :: 0 <= b < |st| && !(g.FirstInode() <= b < g.FirstData()) ==> st'[b] == st[b]
    ensures TreeInv(g, st', inos, owner)
    ensures forall j: nat :: j < |inos| ==> FileSame(g, st, inos[j], st', inos[j])
  {
    hide Used;
    forall v | v in owner ensures Used(g, st', g.FirstData() + v) {
      UsedSame(g, st, st', g.FirstData() + v);
    }
    TreeFrame(g, st, st', inos, owner);
    forall j: nat, lb: nat | j < |inos|
      ensures HasBlock(g, st', inos[j], lb) == HasBlock(g, st, inos[j], lb) && BlockOf(g, st', inos[j], lb) == BlockOf(g, st, inos[j], lb)
    {
      PtrFrame(g, st, st', inos, owner, j, LeafPath(lb));
    }
  }

  function WithSize(ino: Inode, size: u32): Inode {
    Inode(size, ino.flags, ino.block, ino.indirect, ino.dindirect)
  }

  /** Raising the size without reaching another direct block changes no pointer. */
  lemma PtrOfWithSize(g: Geo, st: seq<Block>, ino: Inode, size: u32, p: Path)
    requires Min(NDIRECT, NBlocks(size)) == Min(NDIRECT, NBlocks(ino.size))
    ensures Ptr(g, st, WithSize(ino, size), p) == Ptr(g, st, ino, p)
  {
  }

  /** The bytes of a file's blocks up to n, whether or not they lie below its size. */
  ghost function Raw(g: Geo, st: seq<Block>, ino: Inode, n: nat): (c: seq<u8>)
    ensures |c| == n
  {
    seq(n, o requires 0 <= o < n => BlockOf(g, st, ino, o / BLKSZ)[o % BLKSZ])
  }

  lemma RawAt(g: Geo, st: seq<Block>, ino: Inode, n: nat, o: nat)
    requires o < n
    ensures Raw(g, st, ino, n)[o] == BlockOf(g, st, ino, o / BLKSZ)[o % BLKSZ]
  {
    hide BlockOf;
  }

  /** The bytes of a file after data was written at pos over was. */
  ghost function NewContents(was: seq<u8>, pos: nat, data: seq<u8>): (c: seq<u8>)
    ensures |c| == |was|
  {
    seq(|was|, o requires 0 <= o < |was| => if pos <= o < pos + |data| then data[o - pos] else was[o])
  }

  /** The size after a completed write: the end of the data or the old size, rounded up to the block when a
      direct block was added. */
  function NewSize(size: nat, pos: nat, len: nat): nat {
    if NBlocks(size) < NBlocks(pos + len) <= NDIRECT then NBlocks(pos + len) * BLKSZ else Max(size, pos + len)
  }

  lemma NewSizeIsFinal(size: nat, pos: nat, len: nat)
    requires len > 0
    ensures Max(LoopSize(size, pos, len), pos + len) == NewSize(size, pos, len)
    ensures NBlocks(size) >= NDIRECT || pos / BLKSZ < NDIRECT ==>
      Min(NDIRECT, NBlocks(NewSize(size, pos, len))) == Min(NDIRECT, NBlocks(LoopSize(size, pos, len)))
    ensures NBlocks(NewSize(size, pos, len)) == Max(NBlocks(size), NBlocks(pos + len))
  {
  }

  /** Every block between the end of the file and the place of the write is there. */
  ghost predicate NoGap(g: Geo, st: seq<Block>, ino: Inode, pos: nat) {
    forall lb: nat :: NBlocks(ino.size) <= lb < pos / BLKSZ ==> HasBlock(g, st, ino, lb)
  }

  lemma NoGapDirect(g: Geo, st: seq<Block>, ino: Inode, pos: nat)
    requires NoGap(g, st, ino, pos)
    ensures !Skips(ino.size, pos) && (NBlocks(ino.size) >= NDIRECT || pos / BLKSZ < NDIRECT)
  {
    var n := NBlocks(ino.size);
    if n < NDIRECT && n < pos / BLKSZ {
      DirectBeyond(g, st, ino, n);
    }
  }

  /** A completed write without a gap: the written bytes, and around them what the blocks held. */
  lemma WrittenByte(g: Geo, a: Image, b: Image, i: nat, pos: nat, data: seq<u8>, o: nat)
    requires Core(g, a, b, i, pos, data) && |data| > 0 && NoGap(g, a.st, a.inos[i], pos) && Full(g, a.st, a.inos[i])
    requires o < NewSize(a.inos[i].size, pos, |data|)
    ensures HasBlock(g, b.st, b.inos[i], o / BLKSZ)
    ensures BlockOf(g, b.st, b.inos[i], o / BLKSZ)[o % BLKSZ] ==
      NewContents(Raw(g, a.st, a.inos[i], NewSize(a.inos[i].size, pos, |data|)), pos, data)[o]
  {
    var size, lb := a.inos[i].size, o / BLKSZ;
    NewSizeIsFinal(size, pos, |data|);
    NoGapDirect(g, a.st, a.inos[i], pos);
    RawAt(g, a.st, a.inos[i], NewSize(size, pos, |data|), o);
    var was := BlockOf(g, a.st, a.inos[i], lb);
    OverlayAt(was, lb, pos, data, o);
    assert !HasBlock(g, a.st, a.inos[i], lb) ==> was == ZERO_BLOCK;
    hide TreeInv, Ptr, InoLeq, Tidy, SameMeta, BlockOf, Overlay, HasBlock, NewSize, LoopSize, Raw, FileSame;
    if HasBlock(g, a.st, a.inos[i], lb) {
      assert KeptBlock(g, a, b, i, lb, pos, data);
    } else {
      assert lb >= NBlocks(size);
      assert HasBlock(g, b.st, b.inos[i], lb);
    }
  }

  lemma FinalTree(g: Geo, b: Image, i: nat, size: u32)
    requires TreeInv(g, b.st, b.inos, b.owner) && i < |b.inos|
    requires Min(NDIRECT, NBlocks(size)) == Min(NDIRECT, NBlocks(b.inos[i].size))
    ensures TreeInv(g, b.st, b.inos[i := WithSize(b.inos[i], size)], b.owner)
    ensures Tidy(b.inos[i]) ==> Tidy(WithSize(b.inos[i], size))
  {
    hide Used;
    var inos' := b.inos[i := WithSize(b.inos[i], size)];
    forall j: nat, p | j < |inos'| && Ptr(g, b.st, inos'[j], p).Some?
      ensures Ptr(g, b.st, inos'[j], p).value in b.owner && b.owner[Ptr(g, b.st, inos'[j], p).value] == Node(j, p)
    {
      if j == i { PtrOfWithSize(g, b.st, b.inos[i], size, p); }
      assert Ptr(g, b.st, b.inos[j], p) == Ptr(g, b.st, inos'[j], p);
    }
  }

  /** The written file, read through its new inode. */
  lemma FinalFile(g: Geo, a: Image, b: Image, st': seq<Block>, i: nat, pos: nat, data: seq<u8>, ino': Inode)
    requires Core(g, a, b, i, pos, data) && |data| > 0 && NoGap(g, a.st, a.inos[i], pos) && Full(g, a.st, a.inos[i])
    requires b.inos[i].size == LoopSize(a.inos[i].size, pos, |data|)
    requires NewSize(a.inos[i].size, pos, |data|) < TWO32 && ino' == WithSize(b.inos[i], NewSize(a.inos[i].size, pos, |data|))
    requires FileSame(g, b.st, ino', st', ino')
    ensures Full(g, st', ino')
    ensures Contents(g, st', ino') == NewContents(Raw(g, a.st, a.inos[i], ino'.size), pos, data)
  {
    assert |b.inos| == |a.inos|;
    hide Used, BlockOf, HasBlock, LoopSize, NewSize, Core, TreeInv, Contents, NewContents, NoGap, Raw;
    NewSizeIsFinal(a.inos[i].size, pos, |data|);
    NoGapDirect(g, a.st, a.inos[i], pos);
    var was := Raw(g, a.st, a.inos[i], ino'.size);
    forall o: nat | o < ino'.size
      ensures HasBlock(g, st', ino', o / BLKSZ)
      ensures Contents(g, st', ino')[o] == NewContents(was, pos, data)[o]
    {
      WrittenByte(g, a, b, i, pos, data, o);
      SameWithSize(g, b.st, b.inos[i], ino'.size, o / BLKSZ);
      ContentsAt(g, st', ino', o);
    }
    forall lb: nat | lb < NBlocks(ino'.size) ensures HasBlock(g, st', ino', lb) {
      assert lb * BLKSZ < ino'.size && lb * BLKSZ / BLKSZ == lb;
    }
  }

  lemma SameWithSize(g: Geo, st: seq<Block>, ino: Inode, size: u32, lb: nat)
    requires Min(NDIRECT, NBlocks(size)) == Min(NDIRECT, NBlocks(ino.size))
    ensures HasBlock(g, st, WithSize(ino, size), lb) == HasBlock(g, st, ino, lb)
    ensures BlockOf(g, st, WithSize(ino, size), lb) == BlockOf(g, st, ino, lb)
  {
    PtrOfWithSize(g, st, ino, size, LeafPath(lb));
  }

  lemma WriteFinished(g: Geo, a: Image, b: Image, st': seq<Block>, i: nat, pos: nat, data: seq<u8>)
    requires FsInv(g, a.st, a.owner) && a.inos == Table(g, a.st) && Core(g, a, b, i, pos, data)
    requires |data| > 0 && NoGap(g, a.st, a.inos[i], pos) && b.inos[i].size == LoopSize(a.inos[i].size, pos, |data|)
    requires NewSize(a.inos[i].size, pos, |data|) < TWO32
    requires st' == InodeStore(g, b.st, i, WithSize(b.inos[i], NewSize(a.inos[i].size, pos, |data|)))
    ensures FsInv(g, st', b.owner)
    ensures Table(g, st') == a.inos[i := WithSize(b.inos[i], NewSize(a.inos[i].size, pos, |data|))]
    ensures forall j: nat :: j < |a.inos| && j != i ==> Contents(g, st', a.inos[j]) == Contents(g, a.st, a.inos[j])
    ensures Contents(g, st', Table(g, st')[i]) == NewContents(Raw(g, a.st, a.inos[i], NewSize(a.inos[i].size, pos, |data|)), pos, data)
  {
    hide Used, Ptr, BlockOf, Owned, OwnerUsed, Tidy, InoLeq, HasBlock, NewSize, LoopSize, NewContents, NewBlocks, Reached, InodeAt, KeptBlock, NoGap, Raw, Confined;
    var size' := NewSize(a.inos[i].size, pos, |data|);
    var ino' := WithSize(b.inos[i], size');
    NewSizeIsFinal(a.inos[i].size, pos, |data|);
    NoGapDirect(g, a.st, a.inos[i], pos);
    TableFrame(g, a.st, b.st);
    TableOfWrite(g, b.st, i, ino');
    var inos' := a.inos[i := ino'];
    FinalTree(g, b, i, size');
    assert b.inos[i := ino'] == inos';
    InodeBlocksFrame(g, b.st, st', inos', b.owner);
    forall j: nat | j < |a.inos| && j != i
      ensures Contents(g, st', a.inos[j]) == Contents(g, a.st, a.inos[j]) && Full(g, st', a.inos[j])
    {
      FileSameContents(g, a.st, b.st, a.inos[j]);
      FileSameContents(g, b.st, st', inos'[j]);
    }
    assert inos'[i] == ino';
    FinalFile(g, a, b, st', i, pos, data, ino');
  }

  // ---- the end of a write that left a gap ----

  /** The writer's inode at the end of a write, compared with what the tree knows. */
  ghost predicate Wrote(g: Geo, a: Image, b: Image, ino: Inode, i: nat, pos: nat, data: seq<u8>) {
    && Core(g, a, b, i, pos, data)
    && ino.size == LoopSize(a.inos[i].size, pos, |data|) && b.inos[i] == Shadow(a.inos[i], ino, pos)
    && (Skips(a.inos[i].size, pos) ==>
         && GapBlocks(g, b, ino, i, pos, data)
         && forall k: nat :: k < pos / BLKSZ && k < NDIRECT ==> ino.block[k] == a.inos[i].block[k])
  }

  /** An inode whose first missing direct block counts although its pointer is zero cannot be in a sound image,
      since block 0 is the root's. */
  lemma ZeroDirect(g: Geo, st: seq<Block>, owner: map<nat, Node>, i: nat, n: nat)
    requires GeoOk(g, st) && i < g.Inodes() && i != g.root && n < NDIRECT && n < NBlocks(InodeAt(g, st, i).size) && InodeAt(g, st, i).block[n] == 0
    ensures !FsInv(g, st, owner)
  {
    hide Used;
    assert Ptr(g, st, Table(g, st)[i], Direct(n)) == Some(0);
  }

  /** Pointers below the index blocks do not depend on the size or the direct blocks. */
  lemma IndexOnly(g: Geo, st: seq<Block>, a: Inode, b: Inode, lb: nat)
    requires lb >= NDIRECT && a == Over(a, b)
    ensures HasBlock(g, st, a, lb) == HasBlock(g, st, b, lb) && BlockOf(g, st, a, lb) == BlockOf(g, st, b, lb)
  {
  }

  /** The writer's inode has a zero where the first skipped direct block would be. */
  lemma GapZero(g: Geo, a: Image, b: Image, ino: Inode, i: nat, pos: nat, data: seq<u8>)
    requires Wrote(g, a, b, ino, i, pos, data) && Tidy(a.inos[i])
    requires NBlocks(a.inos[i].size) < NDIRECT && NBlocks(a.inos[i].size) < pos / BLKSZ
    ensures ino.block[NBlocks(a.inos[i].size)] == 0
  {
    hide TreeInv, Ptr, NewBlocks, Confined, Reached, KeptBlock, FileSame, InoLeq, GapBlocks, HasBlock;
  }

  lemma WriteBroken(g: Geo, a: Image, b: Image, ino: Inode, st': seq<Block>, i: nat, pos: nat, data: seq<u8>, owner: map<nat, Node>)
    requires FsInv(g, a.st, a.owner) && a.inos == Table(g, a.st) && Wrote(g, a, b, ino, i, pos, data)
    requires |data| > 0 && !NoGap(g, a.st, a.inos[i], pos) && i != g.root && NewSize(a.inos[i].size, pos, |data|) < TWO32
    requires GeoOk(g, st') && InodeAt(g, st', i) == WithSize(ino, NewSize(a.inos[i].size, pos, |data|))
    requires FileSame(g, b.st, b.inos[i], st', b.inos[i])
    ensures !FsInv(g, st', owner)
  {
    var size, n := a.inos[i].size, NBlocks(a.inos[i].size);
    NewSizeIsFinal(size, pos, |data|);
    var lb: nat :| n <= lb < pos / BLKSZ && !HasBlock(g, a.st, a.inos[i], lb);
    assert Tidy(a.inos[i]) by { assert Tidy(InodeAt(g, a.st, i)); }
    hide TreeInv, Ptr, NewBlocks, Reached, KeptBlock, InoLeq, GapBlocks, HasBlock, InodeAt, Tidy, BlockOf, NewSize, LoopSize, WriteSafe, Full;
    var ino' := InodeAt(g, st', i);
    if n < NDIRECT {
      GapZero(g, a, b, ino, i, pos, data);
      ZeroDirect(g, st', owner, i, n);
    } else {
      assert !HasBlock(g, b.st, b.inos[i], lb);
      IndexOnly(g, st', ino', b.inos[i], lb);
      HoleNotFull(g, st', owner, i, lb);
    }
  }

  lemma HoleNotFull(g: Geo, st: seq<Block>, owner: map<nat, Node>, i: nat, lb: nat)
    requires GeoOk(g, st) && i < g.Inodes() && lb < NBlocks(InodeAt(g, st, i).size) && !HasBlock(g, st, InodeAt(g, st, i), lb)
    ensures !FsInv(g, st, owner)
  {
    hide TreeInv, HasBlock, InodeAt, Tidy;
    assert !Full(g, st, InodeAt(g, st, i));
  }

  /** The written bytes can be read back even so. */
  lemma GapReads(g: Geo, a: Image, b: Image, ino: Inode, st': seq<Block>, i: nat, pos: nat, data: seq<u8>, o: nat)
    requires Wrote(g, a, b, ino, i, pos, data) && |data| > 0 && !NoGap(g, a.st, a.inos[i], pos) && NewSize(a.inos[i].size, pos, |data|) < TWO32
    requires pos <= o < pos + |data| && FileSame(g, b.st, b.inos[i], st', b.inos[i]) && |st'| == |b.st|
    requires forall v: nat :: g.FirstData() <= v < |b.st| ==> st'[v] == b.st[v]
    ensures o < NewSize(a.inos[i].size, pos, |data|)
    ensures Contents(g, st', WithSize(ino, NewSize(a.inos[i].size, pos, |data|)))[o] == data[o - pos]
  {
    NewSizeIsFinal(a.inos[i].size, pos, |data|);
    hide Core, LoopSize, NewSize, Contents, BlockOf, HasBlock, Overlay, GapBlock;
    var ino', lb := WithSize(ino, NewSize(a.inos[i].size, pos, |data|)), o / BLKSZ;
    ContentsAt(g, st', ino', o);
    if lb < NDIRECT {
      GapInDirect(g, a.st, a.inos[i], pos);
      assert GapBlock(g, b, ino, i, pos, data, lb);
      GapDirect(g, b, ino, ino', st', i, pos, data, lb);
      OverlayAt(ZERO_BLOCK, lb, pos, data, o);
    } else {
      GapIndirect(g, a, b, ino, i, pos, data, lb);
      IndexOnly(g, st', ino', b.inos[i], lb);
      var base: Block :| BlockOf(g, b.st, b.inos[i], lb) == Overlay(base, lb, pos, data);
      OverlayAt(base, lb, pos, data, o);
    }
  }

  /** A gap in front of a place in the direct area skips a direct block. */
  lemma GapInDirect(g: Geo, st: seq<Block>, ino: Inode, pos: nat)
    requires !NoGap(g, st, ino, pos)
    ensures pos / BLKSZ < NDIRECT ==> Skips(ino.size, pos)
  {
    hide HasBlock;
  }

  lemma OverlayAt(base: Block, lb: nat, pos: nat, data: seq<u8>, o: nat)
    requires lb == o / BLKSZ
    ensures Overlay(base, lb, pos, data)[o % BLKSZ] == if pos <= o < pos + |data| then data[o - pos] else base[o % BLKSZ]
  {
  }

  lemma GapDirect(g: Geo, b: Image, ino: Inode, ino': Inode, st': seq<Block>, i: nat, pos: nat, data: seq<u8>, lb: nat)
    requires lb < NDIRECT && lb < NBlocks(ino'.size) && ino'.block == ino.block && GapBlock(g, b, ino, i, pos, data, lb) && |st'| == |b.st|
    requires forall v: nat :: g.FirstData() <= v < |b.st| ==> st'[v] == b.st[v]
    ensures BlockOf(g, st', ino', lb) == Overlay(ZERO_BLOCK, lb, pos, data)
  {
    hide Overlay;
  }

  lemma GapIndirect(g: Geo, a: Image, b: Image, ino: Inode, i: nat, pos: nat, data: seq<u8>, lb: nat)
    requires Wrote(g, a, b, ino, i, pos, data) && |data| > 0 && NDIRECT <= lb && pos / BLKSZ <= lb < NBlocks(pos + |data|)
    ensures exists base: Block :: BlockOf(g, b.st, b.inos[i], lb) == Overlay(base, lb, pos, data)
  {
    hide TreeInv, InoLeq, Tidy, LoopSize, BlockOf, Ptr;
    assert HasBlock(g, b.st, b.inos[i], lb);
    if HasBlock(g, a.st, a.inos[i], lb) {
      assert KeptBlock(g, a, b, i, lb, pos, data);
      assert BlockOf(g, b.st, b.inos[i], lb) == Overlay(BlockOf(g, a.st, a.inos[i], lb), lb, pos, data);
    } else {
      assert BlockOf(g, b.st, b.inos[i], lb) == Overlay(ZERO_BLOCK, lb, pos, data);
    }
  }
}
