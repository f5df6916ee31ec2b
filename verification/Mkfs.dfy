/** tools/mkfs_ktfs.py: building an image from a list of files. The image is a sequence of blocks, so byte
    offset b * 512 + k of the tool is byte k of block b. A raised exception is a false result. */
module Mkfs {
  import opened Base
  import opened Format
  import opened KtfsTree
  import opened KtfsKernel
  import opened KtfsFiles
  import opened KtfsDir
  import opened Layout
  import opened MkfsTree
  import opened MkfsState
  import opened MkfsRoot

  /** The outer block at `at` followed by its inner blocks. */
  ghost predicate DindWritten(g: Geo, im: seq<Block>, at: nat, inner: map<nat, seq<u32>>, count: nat)
    requires g.FirstData() <= at && at + 1 + count <= |im| < TWO32
  {
    && count <= PTRS
    && OuterPacked(g, im, at, count)
    && forall k: nat :: k < count && k in inner ==> Packed(im[at + 1 + k], inner[k])
  }

  ghost predicate OuterPacked(g: Geo, im: seq<Block>, at: nat, count: nat)
    requires g.FirstData() <= at < |im|
  {
    forall k: nat :: k < PTRS ==> WordAt(im[at], k) == if k < count then at + 1 + k - g.FirstData() else 0
  }

  /** One index block's worth of pointers, packed as struct.pack_into does. */
  method PackWords(ptrs: seq<u32>) returns (buf: Block)
    requires |ptrs| <= PTRS
    ensures Packed(buf, ptrs)
  {
    hide WordAt, PutWord;
    buf := ZERO_BLOCK;
    ZeroPacked(buf);
    for i := 0 to |ptrs|
      invariant forall j: nat :: j < PTRS ==> WordAt(buf, j) == if j < i then ptrs[j] else 0
    {
      ghost var before := buf;
      buf := PutWord(buf, i, ptrs[i]);
      forall j: nat | j < PTRS ensures WordAt(buf, j) == if j < i + 1 then ptrs[j] else 0 {
        WordOfPut(before, i, ptrs[i], j);
      }
    }
  }

  /** Which list of add_file the pointer of a logical block goes to; past both double-indirect blocks it fails. */
  method CollectOne(logical: nat, rel: u32, direct: seq<u32>, ind: seq<u32>, dind: seq<map<nat, seq<u32>>>, ghost base: nat)
    returns (ok: bool, direct': seq<u32>, ind': seq<u32>, dind': seq<map<nat, seq<u32>>>)
    requires Collected(logical, base, direct, ind, dind) && rel == base + logical && logical <= MAXBLOCKS
    ensures ok <==> logical < MAXBLOCKS
    ensures ok ==> Collected(logical + 1, base, direct', ind', dind')
  {
    hide DindCollected;
    ok, direct', ind', dind' := true, direct, ind, dind;
    if logical < NDIRECT {
      direct' := direct[logical := rel];
      CollectSmall(logical, base, dind);
    } else if logical < NDIRECT + PTRS {
      ind' := ind + [rel];
      CollectSmall(logical, base, dind);
    } else {
      var dindOff := logical - NDIRECT - PTRS;
      var outer, innerIdx := dindOff / DIND_SPAN, dindOff / PTRS % PTRS;
      if outer >= NDIND {
        return false, direct, ind, dind;
      }
      DindSplit(logical, outer, innerIdx, dindOff % PTRS);
      CollectDind(logical, base, dind, outer, innerIdx, dindOff % PTRS, rel);
      dind' := dind[outer := Appended(dind[outer], innerIdx, rel)];
    }
  }

  /** The class Image of the tool. */
  class Builder {
    const g: Geo
    const numInodes: nat
    var image: seq<Block>
    var inodes: seq<Inode>
    var nextBlock: nat
    var dentries: seq<(nat, string)>
    var rootBlocks: seq<nat>

    constructor (g: Geo, numInodes: nat, image: seq<Block>)
      ensures this.g == g && this.numInodes == numInodes && this.image == image && inodes == seq(numInodes, i => ZERO_INODE)
      ensures nextBlock == g.FirstData() && dentries == [] && rootBlocks == []
    {
      this.g, this.numInodes, this.image := g, numInodes, image;
      inodes := seq(numInodes, i => ZERO_INODE);
      nextBlock, dentries, rootBlocks := g.FirstData(), [], [];
    }

    /** _mark_used: the range check never fires for a block of the image. */
    method MarkUsed(blk: nat) returns (ok: bool)
      requires GeoOk(g, image) && blk < g.blockCount
      modifies this`image
      ensures ok && image == MarkStore(g, old(image), blk)
    {
      var bmpBlk, byte, bit := BitPosition(blk);
      if bmpBlk >= g.bitmapBlocks {
        return false;
      }
      var b := image[1 + bmpBlk];
      image := image[1 + bmpBlk := b[byte := WithBit8(b[byte], bit)]];
      return true;
    }

    /** _alloc_block */
    method AllocBlock() returns (ok: bool, blk: nat)
      requires Bump(g, image, nextBlock)
      modifies this`image, this`nextBlock
      ensures Bump(g, image, nextBlock) && (ok <==> old(nextBlock) < g.blockCount)
      ensures ok ==> blk == old(nextBlock) && nextBlock == blk + 1 && image[blk] == ZERO_BLOCK && Grown(g, old(image), image, blk)
      ensures !ok ==> image == old(image) && nextBlock == old(nextBlock)
    {
      hide Used, MarkStore;
      if nextBlock >= g.blockCount {
        return false, 0;
      }
      blk := nextBlock;
      nextBlock := nextBlock + 1;
      BumpMark(g, image, blk);
      ok := MarkUsed(blk);
    }

    /** _write_block, on a block already taken. */
    method WriteBlock(blk: nat, data: seq<u8>) returns (ok: bool)
      requires Bump(g, image, nextBlock) && g.FirstData() <= blk < nextBlock
      modifies this`image
      ensures Bump(g, image, nextBlock) && (ok <==> |data| <= BLKSZ)
      ensures ok ==> image == old(image)[blk := Patch(old(image)[blk], 0, data)] && Grown(g, old(image), image, blk)
    {
      hide Used, Patch;
      if |data| > BLKSZ {
        return false;
      }
      BumpWrite(g, image, nextBlock, blk, Patch(image[blk], 0, data));
      image := image[blk := Patch(image[blk], 0, data)];
      return true;
    }

    /** Allocate a block and fill it with pointers, as add_file does for every index block. */
    method WriteIndex(ptrs: seq<u32>) returns (ok: bool, rel: u32)
      requires Bump(g, image, nextBlock) && |ptrs| <= PTRS
      modifies this`image, this`nextBlock
      ensures Bump(g, image, nextBlock) && (ok <==> old(nextBlock) < g.blockCount)
      ensures ok ==> nextBlock == old(nextBlock) + 1 && rel == old(nextBlock) - g.FirstData() && Grown(g, old(image), image, old(nextBlock))
      ensures ok ==> Packed(image[old(nextBlock)], ptrs)
    {
      hide Used, Bump, Packed;
      var blk;
      BumpRange(g, image, nextBlock);
      ok, blk := AllocBlock();
      if !ok {
        return false, 0;
      }
      ghost var im := image;
      var buf := PackWords(ptrs);
      BumpRange(g, image, nextBlock);
      ok := WriteBlock(blk, buf);
      BumpRange(g, image, nextBlock);
      GrownTrans(g, old(image), im, image, blk, blk);
      assert image[blk] == buf;
      rel := blk - g.FirstData();
    }

    /** A double-indirect block and the inner blocks behind it, in the order of the sorted keys. */
    method WriteDind(inner: map<nat, seq<u32>>, ghost count: nat) returns (ok: bool, rel: u32)
      requires Bump(g, image, nextBlock) && count <= PTRS
      requires forall k: nat :: k in inner <==> k < count
      requires forall k: nat :: k in inner ==> |inner[k]| <= PTRS
      modifies this`image, this`nextBlock
      ensures Bump(g, image, nextBlock) && (ok <==> old(nextBlock) + 1 + count <= g.blockCount)
      ensures ok ==> nextBlock == old(nextBlock) + 1 + count && Grown(g, old(image), image, old(nextBlock))
      ensures ok ==> rel == old(nextBlock) - g.FirstData() && nextBlock <= |image| < TWO32 && g.FirstData() <= old(nextBlock)
      ensures ok ==> DindWritten(g, image, old(nextBlock), inner, count)
    {
      hide Used, Bump, Packed, WordAt, PutWord;
      BumpRange(g, image, nextBlock);
      var outer;
      ok, outer := AllocBlock();
      if !ok {
        return false, 0;
      }
      ghost var im := image;
      var outerBuf;
      ok, outerBuf := WriteInner(inner, count, outer);
      if !ok {
        return false, 0;
      }
      BumpRange(g, image, nextBlock);
      ghost var im1 := image;
      ok := WriteBlock(outer, outerBuf);
      assert image[outer] == outerBuf;
      GrownTrans(g, im, im1, image, outer, outer);
      GrownTrans(g, old(image), im, image, outer, outer);
      rel := outer - g.FirstData();
    }

    /** The inner blocks of a double-indirect block, and the words that lead to them. */
    method WriteInner(inner: map<nat, seq<u32>>, ghost count: nat, ghost outer: nat) returns (ok: bool, outerBuf: Block)
      requires Bump(g, image, nextBlock) && count <= PTRS && nextBlock == outer + 1 && g.FirstData() <= outer
      requires forall k: nat :: k in inner <==> k < count
      requires forall k: nat :: k in inner ==> |inner[k]| <= PTRS
      modifies this`image, this`nextBlock
      ensures Bump(g, image, nextBlock) && (ok <==> old(nextBlock) + count <= g.blockCount)
      ensures ok ==> nextBlock == outer + 1 + count <= |image| && Grown(g, old(image), image, outer + 1)
      ensures ok ==> forall j: nat :: j < PTRS ==> WordAt(outerBuf, j) == if j < count then outer + 1 + j - g.FirstData() else 0
      ensures ok ==> forall j: nat :: j in inner ==> Packed(image[outer + 1 + j], inner[j])
    {
      hide Used, Bump, Packed, WordAt, PutWord;
      BumpRange(g, image, nextBlock);
      GrownRefl(g, image, outer + 1);
      outerBuf := ZERO_BLOCK;
      ZeroPacked(outerBuf);
      for k := 0 to PTRS
        invariant nextBlock == outer + 1 + Min(k, count)
        invariant Bump(g, image, nextBlock) && Grown(g, old(image), image, outer + 1) && nextBlock <= |image| == g.blockCount
        invariant forall j: nat :: j < PTRS ==> WordAt(outerBuf, j) == if j < Min(k, count) then outer + 1 + j - g.FirstData() else 0
        invariant forall j: nat :: j < k && j in inner ==> Packed(image[outer + 1 + j], inner[j])
      {
        if k in inner {
          ghost var im0, buf0 := image, outerBuf;
          var r;
          ok, r := WriteIndex(inner[k]);
          if !ok {
            return;
          }
          BumpRange(g, image, nextBlock);
          GrownTrans(g, old(image), im0, image, outer + 1, outer + 1 + k);
          outerBuf := PutWord(outerBuf, k, r);
          forall j: nat | j < PTRS ensures WordAt(outerBuf, j) == if j == k then r else WordAt(buf0, j) {
            WordOfPut(buf0, k, r, j);
          }
          assert forall b :: outer + 1 <= b < outer + 1 + k ==> image[b] == im0[b];
        }
      }
      ok := true;
    }

    /** The loop of add_file over the data blocks. */
    method WriteData(data: seq<u8>) returns (ok: bool, direct: seq<u32>, ind: seq<u32>, dind: seq<map<nat, seq<u32>>>)
      requires Bump(g, image, nextBlock)
      modifies this`image, this`nextBlock
      ensures ok <==> NBlocks(|data|) <= MAXBLOCKS && old(nextBlock) + NBlocks(|data|) <= g.blockCount
      ensures ok ==> Bump(g, image, nextBlock) && nextBlock == old(nextBlock) + NBlocks(|data|) && Grown(g, old(image), image, old(nextBlock))
      ensures ok ==> Collected(NBlocks(|data|), old(nextBlock) - g.FirstData(), direct, ind, dind)
      ensures ok ==> DataWritten(image, old(nextBlock), data, NBlocks(|data|))
    {
      hide Used, Bump, Chunk, Collected, Patch;
      var nblks := NBlocks(|data|);
      ghost var first := nextBlock;
      direct, ind, dind := [0, 0, 0], [], [map[], map[]];
      BumpRange(g, image, nextBlock);
      GrownRefl(g, image, first);
      NoneCollected(first - g.FirstData());
      var logical := 0;
      while logical < nblks
        invariant 0 <= logical <= nblks && logical <= MAXBLOCKS
        invariant Bump(g, image, nextBlock) && nextBlock == first + logical <= g.blockCount == |image|
        invariant Grown(g, old(image), image, first)
        invariant Collected(logical, first - g.FirstData(), direct, ind, dind)
        invariant DataWritten(image, first, data, logical)
      {
        ghost var im := image;
        var blk;
        ok, blk := AllocBlock();
        if !ok {
          return;
        }
        ghost var im1 := image;
        var chunk := data[logical * BLKSZ..Min((logical + 1) * BLKSZ, |data|)];
        ok := WriteBlock(blk, chunk);
        GrownTrans(g, im, im1, image, blk, blk);
        GrownTrans(g, old(image), im, image, first, blk);
        PatchChunk(data, logical);
        BumpRange(g, image, nextBlock);
        var rel: u32 := blk - g.FirstData();
        ok, direct, ind, dind := CollectOne(logical, rel, direct, ind, dind, first - g.FirstData());
        if !ok {
          return;
        }
        logical := logical + 1;
      }
      ok := true;
    }

    /** The loop of add_file over the two double-indirect slots. */
    method WriteDinds(dind: seq<map<nat, seq<u32>>>, ghost n: nat, ghost first: nat) returns (ok: bool, rels: seq<u32>)
      requires g.FirstData() < first && AllCollected(n, first - g.FirstData(), dind)
      requires Bump(g, image, nextBlock) && nextBlock == first + EndPos(n, 0)
      modifies this`image, this`nextBlock
      ensures ok <==> first + Need(n) <= g.blockCount
      ensures ok ==> Bump(g, image, nextBlock) && nextBlock == first + Need(n) && Grown(g, old(image), image, old(nextBlock))
      ensures ok ==> |rels| == NDIND && DindsWritten(g, image, dind, n, first, rels, NDIND)
    {
      hide Used, Bump, DindCollected, DindBlocks, Inner, DindWritten, DindPos, EndPos, Need;
      rels := [0, 0];
      GrownRefl(g, image, nextBlock);
      BumpRange(g, image, nextBlock);
      for outer := 0 to NDIND
        invariant Bump(g, image, nextBlock) && nextBlock == first + EndPos(n, outer) && Grown(g, old(image), image, old(nextBlock))
        invariant |rels| == NDIND && DindsWritten(g, image, dind, n, first, rels, outer) && old(nextBlock) <= nextBlock
        invariant |image| == g.blockCount
      {
        EndPosSteps(n, outer);
        CollectedKeys(n, first - g.FirstData(), outer, dind[outer]);
        ghost var im, at := image, nextBlock;
        var rel: u32 := 0;
        if dind[outer] != map[] {
          ok, rel := WriteDind(dind[outer], Inner(n, outer));
          if !ok {
            EndPosNeed(n);
            return false, rels;
          }
          BumpRange(g, image, nextBlock);
          GrownTrans(g, old(image), im, image, old(nextBlock), at);
        }
        DindsMore(g, im, image, dind, n, first, rels, outer, rel);
        rels := rels[outer := rel];
      }
      EndPosNeed(n);
      BumpRange(g, image, nextBlock);
      ok := true;
    }

    /** add_file: place the file and record its inode and its directory entry. */
    method AddFile(name: string, data: seq<u8>, idx: nat) returns (ok: bool)
      requires Bump(g, image, nextBlock) && g.FirstData() < nextBlock && idx < |inodes|
      modifies this`image, this`nextBlock, this`inodes, this`dentries
      ensures ok <==> NBlocks(|data|) <= MAXBLOCKS && old(nextBlock) + Need(NBlocks(|data|)) <= g.blockCount
      ensures ok ==> Bump(g, image, nextBlock) && nextBlock == old(nextBlock) + Need(NBlocks(|data|)) && Grown(g, old(image), image, old(nextBlock))
      ensures ok ==> |inodes| == |old(inodes)| && inodes == old(inodes)[idx := inodes[idx]]
      ensures ok ==> Laid(g, image, inodes[idx], old(nextBlock) - g.FirstData(), data)
      ensures ok ==> dentries == old(dentries) + [(idx, name)]
    {
      hide Used, Bump, Collected, Laid, EndPos, DindsWritten;
      var size := |data|;
      ghost var n, first := NBlocks(size), nextBlock;
      NeedAtLeast(n);
      var direct, ind, dind;
      ok, direct, ind, dind := WriteData(data);
      if !ok {
        return;
      }
      ghost var im := image;
      CollectedInd(n, first - g.FirstData(), direct, ind, dind);
      EndPosFirst(n);
      BumpRange(g, image, nextBlock);
      var indirectRel: u32 := 0;
      if ind != [] {
        ok, indirectRel := WriteIndex(ind);
        if !ok {
          return;
        }
      } else {
        GrownRefl(g, im, nextBlock);
      }
      ghost var im1 := image;
      var dindirectRel;
      ok, dindirectRel := WriteDinds(dind, n, first);
      if !ok {
        return;
      }
      BumpRange(g, image, nextBlock);
      SizeFits(size);
      GrownTrans(g, old(image), im, im1, first, first + n);
      GrownTrans(g, old(image), im1, image, first, first + EndPos(n, 0));
      var ino: Inode := Inode(size, 0, direct, indirectRel, dindirectRel);
      FileLaid(g, im, im1, image, data, first, direct, ind, dind, ino);
      inodes := inodes[idx := ino];
      dentries := dentries + [(idx, name)];
    }

    /** reserve_root: the first data blocks are set aside for the directory. */
    method ReserveRoot(names: seq<string>) returns (ok: bool)
      requires Bump(g, image, nextBlock)
      modifies this`image, this`nextBlock, this`rootBlocks
      ensures ok <==> RootFits(names) && old(nextBlock) + NBlocks(|names| * DENSZ) <= g.blockCount
      ensures ok ==> Bump(g, image, nextBlock) && nextBlock == old(nextBlock) + NBlocks(|names| * DENSZ)
      ensures ok ==> rootBlocks == old(rootBlocks) + seq(NBlocks(|names| * DENSZ), i => old(nextBlock) + i)
      ensures ok ==> forall k :: old(nextBlock) <= k < nextBlock ==> image[k] == ZERO_BLOCK
    {
      hide Used, Bump, NBlocks;
      if exists i :: 0 <= i < |names| && |names[i]| > NAMELEN {
        return false;
      }
      var nblks := NBlocks(|names| * DENSZ);
      if nblks > NDIRECT {
        return false;
      }
      BumpRange(g, image, nextBlock);
      for i := 0 to nblks
        invariant Bump(g, image, nextBlock) && nextBlock == old(nextBlock) + i <= g.blockCount == |image|
        invariant rootBlocks == old(rootBlocks) + seq(i, j => old(nextBlock) + j)
        invariant forall k :: old(nextBlock) <= k < nextBlock ==> image[k] == ZERO_BLOCK
      {
        var blk;
        ok, blk := AllocBlock();
        if !ok {
          return false;
        }
        BumpRange(g, image, nextBlock);
        rootBlocks := rootBlocks + [blk];
      }
      ok := true;
    }

    /** The part of finalize that writes the directory and the root inode. */
    method WriteRoot() returns (ok: bool)
      requires Bump(g, image, nextBlock) && |rootBlocks| <= NDIRECT && |inodes| > 0
      requires rootBlocks == seq(|rootBlocks|, i => g.FirstData() + i) && g.FirstData() + |rootBlocks| <= nextBlock
      requires |rootBlocks| == NBlocks(|dentries| * DENSZ)
      requires forall i :: 0 <= i < |dentries| ==> |dentries[i].1| <= NAMELEN
      modifies this`image, this`inodes
      ensures Bump(g, image, nextBlock) && (ok <==> AllPackable(dentries))
      ensures |dentries| <= NDIRECT * DENTS_PER_BLOCK
      ensures ok ==> inodes == old(inodes)[0 := RootInode(|dentries|)]
      ensures ok ==> DirWritten(g, image, DirBytes(dentries))
      ensures ok ==> forall b: nat :: b < |image| && !(g.FirstData() <= b < g.FirstData() + |rootBlocks|) ==> image[b] == old(image)[b]
    {
      hide Used, Bump, Chunk, DirBytes, Patch, AllPackable;
      BumpRange(g, image, nextBlock);
      RootRoom(|dentries|);
      ghost var r := |rootBlocks|;
      var buf;
      ok, buf := PackDents(dentries, |rootBlocks| * BLKSZ);
      if !ok {
        return;
      }
      var direct: seq<u32> := [0, 0, 0];
      for i := 0 to |rootBlocks|
        invariant Bump(g, image, nextBlock) && |image| == g.blockCount && inodes == old(inodes)
        invariant forall k: nat :: k < i ==> image[g.FirstData() + k] == Chunk(DirBytes(dentries), k)
        invariant forall b: nat :: b < |image| && !(g.FirstData() <= b < g.FirstData() + r) ==> image[b] == old(image)[b]
        invariant |direct| == NDIRECT && forall k: nat :: k < NDIRECT ==> direct[k] == if k < i then k else 0
      {
        var blk := rootBlocks[i];
        PaddedChunk(DirBytes(dentries), r, i);
        var chunk := buf[i * BLKSZ..(i + 1) * BLKSZ];
        ghost var im := image;
        ok := WriteBlock(blk, chunk);
        BumpRange(g, image, nextBlock);
        PatchAll(im[blk], chunk);
        direct := direct[i := blk - g.FirstData()];
      }
      var rootSize := |dentries| * DENSZ;
      var ino: Inode := Inode(rootSize, 0, direct, 0, [0, 0]);
      RootInodeIs(ino, |dentries|, direct);
      inodes := inodes[0 := ino];
      ok := true;
    }

    /** The rest of finalize: the inode table and the superblock. */
    method WriteTable()
      requires GeoOk(g, image) && |inodes| <= g.Inodes() && g.root == 0
      requires forall b: nat :: b < |image| && (b == 0 || g.FirstInode() <= b < g.FirstData()) ==> image[b] == ZERO_BLOCK
      modifies this`image
      ensures GeoOk(g, image) && SuperGeo(image[0]) == g
      ensures forall i: nat :: i < g.Inodes() ==> InodeAt(g, image, i) == if i < |inodes| then inodes[i] else ZERO_INODE
      ensures forall b: nat :: b < |image| && b != 0 && !(g.FirstInode() <= b < g.FirstData()) ==> image[b] == old(image)[b]
    {
      hide InodeAt, InodeStore, PutInode, SuperGeo;
      forall i: nat | i < g.Inodes() ensures InodeAt(g, image, i) == ZERO_INODE {
        InodeOfZeros(g, image, i);
      }
      for i := 0 to |inodes|
        invariant GeoOk(g, image) && image[0] == ZERO_BLOCK
        invariant forall j: nat :: j < g.Inodes() ==> InodeAt(g, image, j) == if j < i then inodes[j] else ZERO_INODE
        invariant forall b: nat :: b < |image| && b != 0 && !(g.FirstInode() <= b < g.FirstData()) ==> image[b] == old(image)[b]
      {
        ghost var im := image;
        StoreInode(i, inodes[i]);
        forall j: nat | j < g.Inodes() ensures InodeAt(g, image, j) == if j == i then inodes[i] else InodeAt(g, im, j) {
          InodeAtWrite(g, im, i, inodes[i], j);
        }
      }
      ghost var im := image;
      var sb := Bytes4(g.blockCount) + Bytes4(g.bitmapBlocks) + Bytes4(g.inodeBlocks) + [0, 0];
      SuperBlock(g);
      image := image[0 := Patch(image[0], 0, sb)];
      forall j: nat | j < g.Inodes() ensures InodeAt(g, image, j) == InodeAt(g, im, j) {
        InodeSame(g, im, image, j);
      }
    }

    /** One row of the inode table. */
    method StoreInode(i: nat, ino: Inode)
      requires GeoOk(g, image) && i < g.Inodes()
      modifies this`image
      ensures image == InodeStore(g, old(image), i, ino)
      ensures image[0] == old(image)[0]
      ensures forall b: nat :: b < |image| && !(g.FirstInode() <= b < g.FirstData()) ==> image[b] == old(image)[b]
    {
      hide PutInode;
      var blk := g.FirstInode() + i / INODES_PER_BLOCK;
      image := image[blk := PutInode(image[blk], i % INODES_PER_BLOCK, ino)];
    }
  }

  predicate RootFits(names: seq<string>) {
    (forall i :: 0 <= i < |names| ==> |names[i]| <= NAMELEN) && NBlocks(|names| * DENSZ) <= NDIRECT
  }

  lemma RootRoom(nd: nat)
    requires NBlocks(nd * DENSZ) <= NDIRECT
    ensures nd <= NDIRECT * DENTS_PER_BLOCK && nd * DENSZ <= NBlocks(nd * DENSZ) * BLKSZ
  {
  }

  ghost predicate DirWritten(g: Geo, im: seq<Block>, dir: seq<u8>) {
    && g.FirstData() + NBlocks(|dir|) <= |im|
    && forall k: nat :: k < NBlocks(|dir|) ==> im[g.FirstData() + k] == Chunk(dir, k)
  }

  lemma PatchAll(b: Block, data: seq<u8>)
    requires |data| == BLKSZ
    ensures Patch(b, 0, data) == data
  {
  }

  lemma RootInodeIs(ino: Inode, nd: nat, direct: seq<u32>)
    requires nd <= NDIRECT * DENTS_PER_BLOCK && ino == Inode(nd * DENSZ, 0, direct, 0, [0, 0])
    requires forall k: nat :: k < NDIRECT ==> direct[k] == if k < NBlocks(nd * DENSZ) then k else 0
    ensures ino == RootInode(nd)
  {
    assert direct == RootInode(nd).block;
  }

  lemma InodeOfZeros(g: Geo, im: seq<Block>, i: nat)
    requires GeoOk(g, im) && i < g.Inodes()
    requires forall b: nat :: b < |im| && g.FirstInode() <= b < g.FirstData() ==> im[b] == ZERO_BLOCK
    ensures InodeAt(g, im, i) == ZERO_INODE
  {
    hide WordAt;
    assert im[g.FirstInode() + i / INODES_PER_BLOCK] == ZERO_BLOCK;
    ZeroPacked(ZERO_BLOCK);
  }

  lemma InodeSame(g: Geo, im: seq<Block>, im': seq<Block>, i: nat)
    requires GeoOk(g, im) && GeoOk(g, im') && i < g.Inodes()
    requires forall b: nat :: b < |im| && g.FirstInode() <= b < g.FirstData() ==> im'[b] == im[b]
    ensures InodeAt(g, im', i) == InodeAt(g, im, i)
  {
    hide InodeIn;
    assert im'[g.FirstInode() + i / INODES_PER_BLOCK] == im[g.FirstInode() + i / INODES_PER_BLOCK];
  }

  /** Packed, the superblock names the layout. */
  lemma SuperBlock(g: Geo)
    requires g.blockCount < TWO32 && g.bitmapBlocks < TWO32 && g.inodeBlocks < TWO32 && g.root == 0
    ensures SuperGeo(Patch(ZERO_BLOCK, 0, Bytes4(g.blockCount) + Bytes4(g.bitmapBlocks) + Bytes4(g.inodeBlocks) + [0, 0])) == g
  {
    hide Bytes4, U32;
    var sb := Bytes4(g.blockCount) + Bytes4(g.bitmapBlocks) + Bytes4(g.inodeBlocks) + [0, 0];
    var b := Patch(ZERO_BLOCK, 0, sb);
    assert b[0..4] == Bytes4(g.blockCount);
    assert b[4..8] == Bytes4(g.bitmapBlocks);
    assert b[8..12] == Bytes4(g.inodeBlocks);
    assert b[12..16] == ZERO_BLOCK[12..16];
    WordOfZero(3);
  }

  lemma CollectedInd(n: nat, base: nat, direct: seq<u32>, ind: seq<u32>, dind: seq<map<nat, seq<u32>>>)
    requires Collected(n, base, direct, ind, dind)
    ensures (ind != [] <==> n > NDIRECT) && |ind| <= PTRS && |direct| == NDIRECT && AllCollected(n, base, dind)
  {
  }

  lemma EndPosFirst(n: nat)
    ensures EndPos(n, 0) == (if n > NDIRECT then n + 1 else n) <= Need(n)
  {
  }

  lemma SizeFits(size: nat)
    requires NBlocks(size) <= MAXBLOCKS
    ensures size < TWO32
  {
  }

  /** The pieces add_file has written make up the placed file. */
  lemma FileLaid(g: Geo, im: seq<Block>, im1: seq<Block>, im2: seq<Block>, data: seq<u8>, first: nat,
                 direct: seq<u32>, ind: seq<u32>, dind: seq<map<nat, seq<u32>>>, ino: Inode)
    requires g.FirstData() < first && NBlocks(|data|) <= MAXBLOCKS && first + Need(NBlocks(|data|)) <= |im2|
    requires DataWritten(im, first, data, NBlocks(|data|)) && Collected(NBlocks(|data|), first - g.FirstData(), direct, ind, dind)
    requires Grown(g, im, im1, first + NBlocks(|data|)) && Grown(g, im1, im2, first + EndPos(NBlocks(|data|), 0))
    requires ino.indirect == if ind != [] then first + NBlocks(|data|) - g.FirstData() else 0
    requires ind != [] ==> Packed(im1[first + NBlocks(|data|)], ind)
    requires DindsWritten(g, im2, dind, NBlocks(|data|), first, ino.dindirect, NDIND)
    requires ino.size == |data| && ino.flags == 0 && ino.block == direct
    ensures Laid(g, im2, ino, first - g.FirstData(), data)
  {
    var n, base := NBlocks(|data|), first - g.FirstData();
    hide Collected, DindsWritten, NBlocks, EndPos, Need, Packed, DataLaid, IndexLaid, InodeLaid;
    CollectedInd(n, base, direct, ind, dind);
    EndPosFirst(n);
    NeedAtLeast(n);
    DataLaidOf(g, im, im1, im2, data, first);
    InodeLaidOf(g, im2, ino, |data|, first, direct, ind, dind);
    IndexLaidOf(g, im2, n, first, direct, ind, dind, ino.dindirect);
  }

  lemma DataLaidOf(g: Geo, im: seq<Block>, im1: seq<Block>, im2: seq<Block>, data: seq<u8>, first: nat)
    requires g.FirstData() < first && first + NBlocks(|data|) <= |im2| && DataWritten(im, first, data, NBlocks(|data|))
    requires Grown(g, im, im1, first + NBlocks(|data|)) && Grown(g, im1, im2, first + NBlocks(|data|))
    ensures DataLaid(g, im2, data, first - g.FirstData())
  {
    hide Chunk, NBlocks;
    forall lb: nat | lb < NBlocks(|data|) ensures im2[g.FirstData() + (first - g.FirstData()) + lb] == Chunk(data, lb) {
      assert im2[first + lb] == im1[first + lb] == im[first + lb];
    }
  }

  lemma InodeLaidOf(g: Geo, im: seq<Block>, ino: Inode, size: nat, first: nat,
                    direct: seq<u32>, ind: seq<u32>, dind: seq<map<nat, seq<u32>>>)
    requires g.FirstData() < first && Collected(NBlocks(size), first - g.FirstData(), direct, ind, dind)
    requires DindsWritten(g, im, dind, NBlocks(size), first, ino.dindirect, NDIND)
    requires ino.indirect == if ind != [] then first + NBlocks(size) - g.FirstData() else 0
    requires ino.size == size && ino.flags == 0 && ino.block == direct
    ensures InodeLaid(ino, size, first - g.FirstData())
  {
    hide DindWritten, NBlocks, DindBlocks, DindPos, DindCollected;
    forall j: nat | j < NDIND ensures ino.dindirect[j] == Entry(NBlocks(size), first - g.FirstData(), Dind(j)) {
      assert DindSlot(g, im, dind[j], NBlocks(size), first, ino.dindirect[j], j);
    }
  }

  lemma IndexLaidOf(g: Geo, im: seq<Block>, n: nat, first: nat, direct: seq<u32>, ind: seq<u32>,
                    dind: seq<map<nat, seq<u32>>>, rels: seq<u32>)
    requires g.FirstData() < first && |rels| == NDIND && Collected(n, first - g.FirstData(), direct, ind, dind)
    requires ind != [] ==> first + n < |im| && Packed(im[first + n], ind)
    requires DindsWritten(g, im, dind, n, first, rels, NDIND)
    ensures IndexLaid(g, im, n, first - g.FirstData())
  {
    hide Word, Entry, DindsWritten, Collected, Has, Pos, Packed;
    var base := first - g.FirstData();
    forall p, k: nat | IsIndex(p) && Has(n, p) && k < PTRS
      ensures Word(g, im, base + Pos(n, p), k) == Entry(n, base, Child(p, k))
    {
      IndexWord(g, im, n, first, direct, ind, dind, rels, p, k);
    }
  }

  lemma IndexWord(g: Geo, im: seq<Block>, n: nat, first: nat, direct: seq<u32>, ind: seq<u32>,
                  dind: seq<map<nat, seq<u32>>>, rels: seq<u32>, p: Path, k: nat)
    requires g.FirstData() < first && |rels| == NDIND && Collected(n, first - g.FirstData(), direct, ind, dind)
    requires ind != [] ==> first + n < |im| && Packed(im[first + n], ind)
    requires DindsWritten(g, im, dind, n, first, rels, NDIND)
    requires IsIndex(p) && Has(n, p) && k < PTRS
    ensures Word(g, im, first - g.FirstData() + Pos(n, p), k) == Entry(n, first - g.FirstData(), Child(p, k))
  {
    FirstBeforeSecond(n);
    CollectedInd(n, first - g.FirstData(), direct, ind, dind);
    hide Word, Entry, DindsWritten, Collected, AllCollected, Packed, Inner, DindBlocks, DindPos;
    match p {
      case Ind => IndWords(g, im, n, first, direct, ind, dind, k);
      case Dind(j) => DindWords(g, im, dind, n, first, rels, j, 0, k);
      case DindMid(j, m) => DindWords(g, im, dind, n, first, rels, j, m, k);
    }
  }

  lemma IndWords(g: Geo, im: seq<Block>, n: nat, first: nat, direct: seq<u32>, ind: seq<u32>, dind: seq<map<nat, seq<u32>>>, k: nat)
    requires g.FirstData() < first && Collected(n, first - g.FirstData(), direct, ind, dind) && n > NDIRECT && k < PTRS
    requires first + n < |im| && Packed(im[first + n], ind)
    ensures Word(g, im, first - g.FirstData() + n, k) == Entry(n, first - g.FirstData(), IndLeaf(k))
  {
    hide AllCollected, WordAt;
  }

  lemma DindWords(g: Geo, im: seq<Block>, dind: seq<map<nat, seq<u32>>>, n: nat, first: nat, rels: seq<u32>, j: nat, m: nat, k: nat)
    requires g.FirstData() < first && |rels| == NDIND && AllCollected(n, first - g.FirstData(), dind)
    requires DindsWritten(g, im, dind, n, first, rels, NDIND)
    requires j < NDIND && Has(n, Dind(j)) && k < PTRS && m < Inner(n, j)
    ensures Word(g, im, first - g.FirstData() + DindPos(n, j), k) == Entry(n, first - g.FirstData(), DindMid(j, k))
    ensures Word(g, im, first - g.FirstData() + DindPos(n, j) + 1 + m, k) == Entry(n, first - g.FirstData(), DindLeaf(j, m, k))
  {
    hide WordAt, DindBlocks, DindPos;
    assert DindSlot(g, im, dind[j], n, first, rels[j], j);
    assert DindCollected(n, first - g.FirstData(), j, dind[j]);
    FirstBeforeSecond(n);
    assert InnerLeaves(n, first - g.FirstData(), j, m, dind[j][m]);
    hide Inner;
    assert Packed(im[first + DindPos(n, j) + 1 + m], dind[j][m]);
  }

  /** Where add_file stands before double-indirect slot j. */
  function EndPos(n: nat, j: nat): nat
    requires j <= NDIND
  {
    n + (if n > NDIRECT then 1 else 0)
      + (if j > 0 && DindBlocks(n, 0) > 0 then 1 + Inner(n, 0) else 0)
      + (if j > 1 && DindBlocks(n, 1) > 0 then 1 + Inner(n, 1) else 0)
  }

  lemma EndPosSteps(n: nat, j: nat)
    requires j < NDIND
    ensures DindBlocks(n, j) > 0 ==> EndPos(n, j) == DindPos(n, j) && EndPos(n, j + 1) == DindPos(n, j) + 1 + Inner(n, j)
    ensures DindBlocks(n, j) == 0 ==> EndPos(n, j + 1) == EndPos(n, j)
  {
    FirstBeforeSecond(n);
  }

  lemma EndPosNeed(n: nat)
    ensures EndPos(n, NDIND) == Need(n) && EndPos(n, 1) <= EndPos(n, 2)
  {
  }

  lemma CollectedKeys(n: nat, base: nat, j: nat, inner: map<nat, seq<u32>>)
    requires DindCollected(n, base, j, inner)
    ensures inner == map[] <==> DindBlocks(n, j) == 0
    ensures Inner(n, j) <= PTRS
    ensures forall k: nat :: k in inner <==> k < Inner(n, j)
    ensures forall k: nat :: k in inner ==> |inner[k]| <= PTRS
  {
    if Inner(n, j) > 0 {
      assert 0 in inner;
    }
  }

  /** Double-indirect slot j holds what the layout says, and so do the blocks behind it. */
  ghost predicate DindSlot(g: Geo, im: seq<Block>, inner: map<nat, seq<u32>>, n: nat, first: nat, rel: u32, j: nat)
    requires g.FirstData() < first
  {
    && rel == Entry(n, first - g.FirstData(), Dind(j))
    && (Has(n, Dind(j)) ==>
          && first + DindPos(n, j) + 1 + Inner(n, j) <= |im| < TWO32
          && DindWritten(g, im, first + DindPos(n, j), inner, Inner(n, j)))
  }

  ghost predicate DindsWritten(g: Geo, im: seq<Block>, dind: seq<map<nat, seq<u32>>>, n: nat, first: nat, rels: seq<u32>, upto: nat)
    requires |dind| == NDIND && |rels| == NDIND && g.FirstData() < first
  {
    forall j: nat :: j < NDIND ==> if j < upto then DindSlot(g, im, dind[j], n, first, rels[j], j) else rels[j] == 0
  }

  lemma DindsMore(g: Geo, im: seq<Block>, im': seq<Block>, dind: seq<map<nat, seq<u32>>>, n: nat, first: nat,
                  rels: seq<u32>, j: nat, rel: u32)
    requires |dind| == NDIND && |rels| == NDIND && g.FirstData() < first && j < NDIND
    requires DindsWritten(g, im, dind, n, first, rels, j) && Grown(g, im, im', first + EndPos(n, j))
    requires DindSlot(g, im', dind[j], n, first, rel, j)
    ensures DindsWritten(g, im', dind, n, first, rels[j := rel], j + 1)
  {
    hide DindWritten, DindBlocks, Inner, Entry, DindPos, EndPos;
    if j == 1 {
      assert DindSlot(g, im, dind[0], n, first, rels[0], 0);
      if Has(n, Dind(0)) {
        EndPosSteps(n, 0);
        DindKept(g, im, im', first + EndPos(n, 1), first + DindPos(n, 0), dind[0], Inner(n, 0));
      }
    }
  }

  lemma DindKept(g: Geo, im: seq<Block>, im': seq<Block>, next: nat, at: nat, inner: map<nat, seq<u32>>, count: nat)
    requires g.FirstData() <= at && at + 1 + count <= |im| < TWO32 && at + 1 + count <= next
    requires DindWritten(g, im, at, inner, count) && Grown(g, im, im', next)
    ensures DindWritten(g, im', at, inner, count)
  {
    hide Packed, WordAt;
    assert forall b :: at <= b < at + 1 + count ==> im'[b] == im[b];
  }

  ghost predicate DataWritten(im: seq<Block>, first: nat, data: seq<u8>, n: nat)
  {
    first + n <= |im| && forall b :: first <= b < first + n ==> im[b] == Chunk(data, b - first)
  }

  lemma NoneCollected(base: nat)
    ensures Collected(0, base, [0, 0, 0], [], [map[], map[]])
  {
  }

  /** A written chunk leaves the block padded with the zeros it held. */
  lemma PatchChunk(data: seq<u8>, lb: nat)
    requires lb < NBlocks(|data|)
    ensures lb * BLKSZ <= Min((lb + 1) * BLKSZ, |data|) <= lb * BLKSZ + BLKSZ
    ensures Patch(ZERO_BLOCK, 0, data[lb * BLKSZ..Min((lb + 1) * BLKSZ, |data|)]) == Chunk(data, lb)
  {
  }

  lemma GrownRefl(g: Geo, im: seq<Block>, n: nat)
    ensures Grown(g, im, im, n)
  {
  }

  lemma ZeroPacked(b: Block)
    requires b == ZERO_BLOCK
    ensures forall j: nat :: j < PTRS ==> WordAt(b, j) == 0
  {
    hide WordAt;
    forall j: nat | j < PTRS ensures WordAt(b, j) == 0 {
      WordOfZero(j);
    }
  }

  lemma BumpRange(g: Geo, im: seq<Block>, next: nat)
    requires Bump(g, im, next)
    ensures g.FirstData() <= next <= g.blockCount == |im| < TWO32
  {
  }
}
