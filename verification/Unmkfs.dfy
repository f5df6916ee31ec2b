/** tools/unmkfs_ktfs.py: reading an image back, and the round trip with the builder. A raised exception is None. */
module Unmkfs {
  import opened Base
  import opened Format
  import opened BlockCache
  import opened KtfsTree
  import opened KtfsKernel
  import opened KtfsFiles
  import opened KtfsDir
  import opened KtfsIo
  import opened KtfsDirOps
  import opened KtfsRun
  import opened MkfsRoot
  import opened MkfsBuild

  /** KTFS.__init__ */
  method OpenImage(im: seq<Block>) returns (g: Option<Geo>)
    ensures g.Some? <==> |im| > 0 && SuperGeo(im[0]).blockCount == |im|
    ensures g.Some? ==> g.value == SuperGeo(im[0])
  {
    if |im| == 0 {
      return None;
    }
    var geo := SuperGeo(im[0]);
    if |im| != geo.blockCount {
      return None;
    }
    return Some(geo);
  }

  /** KTFS.read_inode */
  method ReadInode(g: Geo, im: seq<Block>, i: nat) returns (r: Option<Inode>)
    ensures r.Some? <==> InodeBlock(g, i) < |im|
    ensures r.Some? ==> r.value == InodeIn(im[InodeBlock(g, i)], i % INODES_PER_BLOCK)
    ensures GeoOk(g, im) && i < g.Inodes() ==> r == Some(InodeAt(g, im, i))
  {
    var blk := g.FirstInode() + i / INODES_PER_BLOCK;
    if blk >= |im| {
      return None;
    }
    return Some(InodeIn(im[blk], i % INODES_PER_BLOCK));
  }

  /** KTFS._data_block: a slice, so empty past the end of the image. */
  function DataBlock(g: Geo, im: seq<Block>, rel: nat): seq<u8> {
    if g.FirstData() + rel < |im| then im[g.FirstData() + rel] else []
  }

  /** One entry of KTFS._ptrs: unpacking a missing block fails. */
  method PtrAt(g: Geo, im: seq<Block>, rel: nat, k: nat) returns (r: Option<nat>)
    requires k < PTRS
    ensures r == if g.FirstData() + rel < |im| then Some(Word(g, im, rel, k)) else None
  {
    if g.FirstData() + rel >= |im| {
      return None;
    }
    return Some(WordAt(im[g.FirstData() + rel], k));
  }

  /** KTFS.resolve_block finds the block the kernel's resolve_block finds, for every logical block. */
  method ResolveBlock(g: Geo, im: seq<Block>, ino: Inode, logical: nat) returns (r: Option<nat>)
    ensures r.Some? <==> CanResolve(g, im, ino, logical)
    ensures r.Some? ==> r.value == Resolve(g, im, ino, logical)
  {
    if logical < NDIRECT {
      return Some(ino.block[logical]);
    }
    var rest := logical - NDIRECT;
    if rest < PTRS {
      r := PtrAt(g, im, ino.indirect, rest);
      return;
    }
    rest := rest - PTRS;
    var outer, into := rest / (PTRS * PTRS), rest % (PTRS * PTRS);
    var innerIdx, leafIdx := into / PTRS, into % PTRS;
    assert leafIdx == rest % PTRS;
    if outer >= NDIND {
      return None;
    }
    r := PtrAt(g, im, ino.dindirect[outer], innerIdx);
    if r.Some? {
      r := PtrAt(g, im, r.value, leafIdx);
    }
  }

  ghost predicate CanResolve(g: Geo, im: seq<Block>, ino: Inode, lb: nat) {
    lb < MAXBLOCKS && IndexInRange(g, im, ino, lb)
  }

  /** Every block of the file can be reached. */
  ghost predicate Readable(g: Geo, im: seq<Block>, ino: Inode, n: nat) {
    forall lb: nat :: lb < n ==> CanResolve(g, im, ino, lb)
  }

  /** A sound image holds its files whole: no reader runs off the image. */
  ghost predicate Whole(g: Geo, im: seq<Block>, ino: Inode) {
    && Readable(g, im, ino, NBlocks(ino.size))
    && forall lb: nat :: lb < NBlocks(ino.size) ==> DataBlock(g, im, Resolve(g, im, ino, lb)) == BlockOf(g, im, ino, lb)
  }

  lemma SoundBlock(g: Geo, im: seq<Block>, owner: map<nat, Node>, i: nat, lb: nat)
    requires GeoOk(g, im) && TreeInv(g, im, Table(g, im), owner) && i < g.Inodes() && HasBlock(g, im, InodeAt(g, im, i), lb)
    ensures CanResolve(g, im, InodeAt(g, im, i), lb)
    ensures DataBlock(g, im, Resolve(g, im, InodeAt(g, im, i), lb)) == BlockOf(g, im, InodeAt(g, im, i), lb)
  {
    hide Used, InodeAt;
    var inos := Table(g, im);
    var ino := inos[i];
    ResolveIsPtr(g, im, ino, lb);
    PtrInRange(g, im, inos, owner, i, LeafPath(lb));
    if lb >= NDIRECT + PTRS {
      var m := lb - NDIRECT - PTRS;
      var j, k := m / (PTRS * PTRS), m % (PTRS * PTRS) / PTRS;
      PtrInRange(g, im, inos, owner, i, Dind(j));
      PtrInRange(g, im, inos, owner, i, DindMid(j, k));
    } else if lb >= NDIRECT {
      PtrInRange(g, im, inos, owner, i, Ind);
    }
  }

  lemma SoundWhole(g: Geo, im: seq<Block>, owner: map<nat, Node>, i: nat)
    requires FsInv(g, im, owner) && i < g.Inodes()
    ensures Whole(g, im, InodeAt(g, im, i))
  {
    hide InodeAt, TreeInv, HasBlock, CanResolve, Resolve, DataBlock, BlockOf, NBlocks;
    forall lb: nat | lb < NBlocks(InodeAt(g, im, i).size)
      ensures CanResolve(g, im, InodeAt(g, im, i), lb)
      ensures DataBlock(g, im, Resolve(g, im, InodeAt(g, im, i), lb)) == BlockOf(g, im, InodeAt(g, im, i), lb)
    {
      assert HasBlock(g, im, InodeAt(g, im, i), lb);
      SoundBlock(g, im, owner, i, lb);
    }
  }

  /** The bytes of the first n blocks, as far as they lie on the image. */
  ghost function BlockBytes(g: Geo, im: seq<Block>, ino: Inode, n: nat): seq<u8> {
    if n == 0 then [] else BlockBytes(g, im, ino, n - 1) + DataBlock(g, im, Resolve(g, im, ino, n - 1))
  }

  ghost function FileBytes(g: Geo, im: seq<Block>, ino: Inode): seq<u8> {
    var c := BlockBytes(g, im, ino, NBlocks(ino.size));
    c[..Min(ino.size, |c|)]
  }

  lemma {:induction false} BlockBytesWhole(g: Geo, im: seq<Block>, ino: Inode, n: nat)
    requires Whole(g, im, ino) && n <= NBlocks(ino.size)
    ensures |BlockBytes(g, im, ino, n)| == n * BLKSZ
    ensures forall o: nat :: o < n * BLKSZ ==> BlockBytes(g, im, ino, n)[o] == BlockOf(g, im, ino, o / BLKSZ)[o % BLKSZ]
  {
    hide CanResolve, Resolve, BlockOf, NBlocks, DataBlock;
    if n > 0 {
      BlockBytesWhole(g, im, ino, n - 1);
      GrowBytes(g, im, ino, BlockBytes(g, im, ino, n - 1), n - 1);
      assert DataBlock(g, im, Resolve(g, im, ino, n - 1)) == BlockOf(g, im, ino, n - 1);
    }
  }

  /** A file that is held whole is read as the kernel reads it. */
  lemma WholeBytes(g: Geo, im: seq<Block>, ino: Inode)
    requires Whole(g, im, ino)
    ensures FileBytes(g, im, ino) == Contents(g, im, ino)
  {
    BlockBytesWhole(g, im, ino, NBlocks(ino.size));
    BlocksCover(ino.size);
    hide BlockBytes, BlockOf, Whole, NBlocks;
  }

  /** KTFS.read_file */
  method ReadFile(g: Geo, im: seq<Block>, ino: Inode) returns (r: Option<seq<u8>>)
    ensures r == if Readable(g, im, ino, NBlocks(ino.size)) then Some(FileBytes(g, im, ino)) else None
    ensures Whole(g, im, ino) ==> r == Some(Contents(g, im, ino))
  {
    hide CanResolve, Resolve, BlockOf, NBlocks, DataBlock, Contents;
    var nblks := NBlocks(ino.size);
    var out := [];
    var i := 0;
    while i < nblks
      invariant 0 <= i <= nblks && Readable(g, im, ino, i) && out == BlockBytes(g, im, ino, i)
    {
      var rel := ResolveBlock(g, im, ino, i);
      if rel.None? {
        assert !Readable(g, im, ino, nblks);
        return None;
      }
      out := out + DataBlock(g, im, rel.value);
      i := i + 1;
    }
    if Whole(g, im, ino) {
      WholeBytes(g, im, ino);
    }
    return Some(out[..Min(ino.size, |out|)]);
  }

  lemma GrowBytes(g: Geo, im: seq<Block>, ino: Inode, out: seq<u8>, i: nat)
    requires |out| == i * BLKSZ
    requires forall o: nat :: o < |out| ==> out[o] == BlockOf(g, im, ino, o / BLKSZ)[o % BLKSZ]
    ensures forall o: nat :: o < |out| + BLKSZ ==> (out + BlockOf(g, im, ino, i))[o] == BlockOf(g, im, ino, o / BLKSZ)[o % BLKSZ]
  {
    hide BlockOf;
    forall o: nat | |out| <= o < |out| + BLKSZ ensures o / BLKSZ == i && o % BLKSZ == o - |out| {
    }
  }

  lemma BlocksCover(size: nat)
    ensures size <= NBlocks(size) * BLKSZ
  {
  }

  /** The entries as the reader prints them. */
  ghost function Listing(g: Geo, im: seq<Block>): seq<(nat, string)>
    requires GeoOk(g, im)
  {
    var ds := RootDents(g, im);
    seq(|ds|, i requires 0 <= i < |ds| => (ds[i].inode, Decode(ds[i].name)))
  }

  /** The inode a number leads to, if it lies on the image. */
  ghost function InodeOf(g: Geo, im: seq<Block>, i: nat): Option<Inode> {
    if InodeBlock(g, i) < |im| then Some(InodeIn(im[InodeBlock(g, i)], i % INODES_PER_BLOCK)) else None
  }

  /** The file of an inode number can be read. */
  ghost predicate CanRead(g: Geo, im: seq<Block>, i: nat) {
    InodeOf(g, im, i).Some? && Readable(g, im, InodeOf(g, im, i).value, NBlocks(InodeOf(g, im, i).value.size))
  }

  ghost function BytesOf(g: Geo, im: seq<Block>, i: nat): seq<u8>
    requires CanRead(g, im, i)
  {
    FileBytes(g, im, InodeOf(g, im, i).value)
  }

  /** The directory can be read to its last entry. */
  ghost predicate Listable(g: Geo, im: seq<Block>) {
    CanRead(g, im, g.root) && |BytesOf(g, im, g.root)| >= InodeOf(g, im, g.root).value.size / DENSZ * DENSZ
  }

  /** The entries of the directory, whatever the image. */
  ghost function Listed(g: Geo, im: seq<Block>): seq<(nat, string)>
    requires Listable(g, im)
  {
    var ds := Dents(BytesOf(g, im, g.root));
    seq(InodeOf(g, im, g.root).value.size / DENSZ, i requires 0 <= i < InodeOf(g, im, g.root).value.size / DENSZ => (ds[i].inode, Decode(ds[i].name)))
  }

  /** KTFS.list_root */
  method ListRoot(g: Geo, im: seq<Block>) returns (r: Option<seq<(nat, string)>>)
    ensures r.Some? <==> Listable(g, im)
    ensures r.Some? ==> r.value == Listed(g, im)
    ensures GeoOk(g, im) && Whole(g, im, InodeAt(g, im, g.root)) ==> r == Some(Listing(g, im))
  {
    hide Whole, InodeAt, Decode, Contents, InodeIn, Readable, FileBytes, ParseDent;
    var root := ReadInode(g, im, g.root);
    if root.None? {
      return None;
    }
    var raw := ReadFile(g, im, root.value);
    if raw.None? {
      return None;
    }
    var entries := [];
    var ndents := root.value.size / DENSZ;
    // unpacking an entry past the end of what was read fails
    if |raw.value| < ndents * DENSZ {
      return None;
    }
    for i := 0 to ndents
      invariant entries == seq(i, k requires 0 <= k < i => (Dents(raw.value)[k].inode, Decode(Dents(raw.value)[k].name)))
    {
      var d := ParseDent(raw.value[i * DENSZ..i * DENSZ + DENSZ]);
      entries := entries + [(d.inode, Decode(d.name))];
    }
    return Some(entries);
  }

  /** An image every listed file of which can be read. */
  ghost predicate SoundImage(g: Geo, im: seq<Block>) {
    && GeoOk(g, im)
    && Whole(g, im, InodeAt(g, im, g.root))
    && forall j :: 0 <= j < |Listing(g, im)| ==> Listing(g, im)[j].0 < g.Inodes() && Whole(g, im, InodeAt(g, im, Listing(g, im)[j].0))
  }

  /** File j of the directory: its name and its bytes. */
  ghost function FileAt(g: Geo, im: seq<Block>, j: nat): File
    requires SoundImage(g, im) && j < |Listing(g, im)|
  {
    File(Listing(g, im)[j].1, Contents(g, im, InodeAt(g, im, Listing(g, im)[j].0)))
  }

  ghost function Extracted(g: Geo, im: seq<Block>): seq<File>
    requires SoundImage(g, im)
  {
    seq(|Listing(g, im)|, j requires 0 <= j < |Listing(g, im)| => FileAt(g, im, j))
  }

  /** Every listed file can be read. */
  ghost predicate Extractable(im: seq<Block>) {
    && |im| > 0 && SuperGeo(im[0]).blockCount == |im| && Listable(SuperGeo(im[0]), im)
    && forall j :: 0 <= j < |Listed(SuperGeo(im[0]), im)| ==> CanRead(SuperGeo(im[0]), im, Listed(SuperGeo(im[0]), im)[j].0)
  }

  /** main with an output directory: every listed file, name and bytes; it fails exactly when one cannot be read. */
  method Extract(im: seq<Block>) returns (r: Option<seq<File>>)
    ensures r.Some? <==> Extractable(im)
    ensures r.Some? ==> |r.value| == |Listed(SuperGeo(im[0]), im)|
    ensures r.Some? ==> forall j :: 0 <= j < |r.value| ==>
      r.value[j] == File(Listed(SuperGeo(im[0]), im)[j].1, BytesOf(SuperGeo(im[0]), im, Listed(SuperGeo(im[0]), im)[j].0))
    ensures |im| > 0 && SoundImage(SuperGeo(im[0]), im) ==> r == Some(Extracted(SuperGeo(im[0]), im))
  {
    hide SuperGeo, Whole, InodeAt, Contents, Listable, Listed, InodeIn, FileBytes, Readable, NBlocks;
    var geo := OpenImage(im);
    if geo.None? {
      return None;
    }
    var g := geo.value;
    var entries := ListRoot(g, im);
    if entries.None? {
      return None;
    }
    var files: seq<File> := [];
    for j := 0 to |entries.value|
      invariant |files| == j
      invariant forall k: nat :: k < j ==> CanRead(g, im, entries.value[k].0) && files[k] == File(entries.value[k].1, BytesOf(g, im, entries.value[k].0))
    {
      var (inode, name) := entries.value[j];
      var ino := ReadInode(g, im, inode);
      if ino.None? {
        assert !CanRead(g, im, inode);
        return None;
      }
      var data := ReadFile(g, im, ino.value);
      if data.None? {
        assert !CanRead(g, im, inode);
        return None;
      }
      files := files + [File(name, data.value)];
    }
    if SoundImage(g, im) {
      SoundExtracts(g, im, files, entries.value);
    }
    return Some(files);
  }

  lemma SoundExtracts(g: Geo, im: seq<Block>, files: seq<File>, entries: seq<(nat, string)>)
    requires SoundImage(g, im) && entries == Listing(g, im) && |files| == |entries|
    requires forall k: nat :: k < |files| ==> CanRead(g, im, entries[k].0) && files[k] == File(entries[k].1, BytesOf(g, im, entries[k].0))
    ensures files == Extracted(g, im)
  {
    hide Whole, Contents, InodeIn, FileBytes, Readable, Listing;
    forall k: nat | k < |files| ensures files[k] == FileAt(g, im, k) {
      assert InodeOf(g, im, entries[k].0) == Some(InodeAt(g, im, entries[k].0));
      WholeBytes(g, im, InodeAt(g, im, entries[k].0));
    }
  }

  /** A command-line argument holds no NUL. */
  predicate Nameable(files: seq<File>) {
    forall i :: 0 <= i < |files| ==> '\0' !in files[i].name
  }

  /** The directory of a built image lists the files in order. */
  lemma BuiltDents(g: Geo, im: seq<Block>, files: seq<File>)
    requires Holds(g, im, files) && Nameable(files)
    ensures RootDents(g, im) == seq(|files|, i requires 0 <= i < |files| => AsDent(Entries(files)[i]))
    ensures Listing(g, im) == Entries(files)
  {
    hide FsInv, InodeAt, Contents, Dents, DirBytes, Decode, Encode;
    var es := Entries(files);
    forall i | 0 <= i < |files| ensures NoNul(Encode(es[i].1)) && Decode(Encode(es[i].1)) == es[i].1 {
      assert Packable(es[i]);
      EncodeNoNul(files[i].name);
      DecodeEncode(files[i].name);
    }
    DentsOfBytes(es);
  }

  lemma EncodeNoNul(s: string)
    requires IsAscii(s) && '\0' !in s
    ensures NoNul(Encode(s))
  {
    forall k | 0 <= k < |s| ensures Encode(s)[k] != 0 {
      assert s[k] != '\0';
    }
  }

  /** A built image extracts to the files it was built from. */
  lemma BuiltExtracts(g: Geo, im: seq<Block>, files: seq<File>)
    requires Holds(g, im, files) && Nameable(files)
    ensures SoundImage(g, im) && Extracted(g, im) == files
  {
    hide FsInv, InodeAt, Contents, Whole, Listing, DirBytes;
    BuiltDents(g, im, files);
    var owner :| FsInv(g, im, owner);
    forall i: nat | i < g.Inodes() ensures Whole(g, im, InodeAt(g, im, i)) {
      SoundWhole(g, im, owner, i);
    }
    forall j: nat | j < |files| ensures FileAt(g, im, j) == files[j] {
      assert Listing(g, im)[j] == (j + 1, files[j].name);
    }
  }

  /** Building an image and extracting it gives back the same files, names and bytes, in order; and the build
      fails exactly when they do not fit. */
  method RoundTrip(size: int, numInodes: int, files: seq<File>) returns (r: Option<seq<File>>)
    requires files != [] && Nameable(files)
    ensures r == if Fits(size, numInodes, files) then Some(files) else None
  {
    var im := Build(size, numInodes, files);
    if im.None? {
      return None;
    }
    assert size > 0 && numInodes > 0;
    hide Holds, SoundImage, Fits, GeoFor;
    BuiltExtracts(GeoFor(size, numInodes), im.value, files);
    HoldsSuper(GeoFor(size, numInodes), im.value, files);
    r := Extract(im.value);
  }

  lemma HoldsSuper(g: Geo, im: seq<Block>, files: seq<File>)
    requires Holds(g, im, files)
    ensures GeoOk(g, im) && |im| > 0 && SuperGeo(im[0]) == g
  {
  }

  // ---- the kernel on a built image ----

  ghost predicate DistinctNames(files: seq<File>) {
    forall i, j :: 0 <= i < j < |files| ==> files[i].name != files[j].name
  }

  /** The directory of a built image is well-formed for the kernel. */
  lemma BuiltDir(g: Geo, im: seq<Block>, files: seq<File>)
    requires Holds(g, im, files) && Nameable(files) && DistinctNames(files) && g.Inodes() <= 0x1_0000
    ensures DirOk(g, im)
    ensures forall i :: 0 <= i < |files| ==> IsAscii(files[i].name) && Lookup(RootDents(g, im), Encode(files[i].name)) == Some(i + 1)
  {
    hide FsInv, InodeAt, Contents, Dents, Lookup, DirBytes, Encode, Decode;
    BuiltDents(g, im, files);
    var ds, es := RootDents(g, im), Entries(files);
    forall i | 0 <= i < |files| ensures ds[i].inode == i + 1 && |ds[i].name| <= NAMELEN && Decode(ds[i].name) == files[i].name {
      assert Packable(es[i]);
      DecodeEncode(files[i].name);
    }
    RootSize(g, im, files);
    assert Distinct(ds);
    forall i | 0 <= i < |files| ensures IsAscii(files[i].name) && Lookup(ds, Encode(files[i].name)) == Some(i + 1) {
      assert Packable(es[i]);
      LookupAt(ds, i);
    }
  }

  lemma RootSize(g: Geo, im: seq<Block>, files: seq<File>)
    requires Holds(g, im, files)
    ensures InodeAt(g, im, g.root).size == |files| * DENSZ
  {
    hide InodeAt, Contents, FsInv, DirBytes;
  }

  /** ktfs_mount on a built image: every invariant the other operations need holds from the start, and every
      file can be found under its name with its bytes. */
  method MountBuilt(dev: Device, ghost files: seq<File>, ghost g: Geo) returns (rc: int, fs: Ktfs?)
    requires Holds(g, dev.blocks, files) && Nameable(files) && DistinctNames(files) && g.Inodes() <= 0x1_0000
    modifies dev
    ensures rc == 0 <==> fs != null
    ensures dev.healthy ==> rc == 0
    ensures fs != null ==> fresh(fs) && fresh(fs.cache) && fs.cache.dev == dev && fs.geo == g && Mounted(fs) && fs.cache.store == old(dev.blocks)
    ensures fs != null ==> Clean(g, fs.cache.store)
    ensures fs != null ==> forall i :: 0 <= i < |files| ==>
      && IsAscii(files[i].name) && Lookup(RootDents(g, fs.cache.store), Encode(files[i].name)) == Some(i + 1)
      && i + 1 < g.Inodes() && FileContents(fs, i + 1) == files[i].data
  {
    hide Inv, FsInv, DirOk, InodeAt, Contents, Lookup, Clean, Encode, IsAscii;
    rc, fs := Ktfs.Mount(dev);
    if fs != null {
      HoldsSuper(g, fs.cache.store, files);
      BuiltDir(g, fs.cache.store, files);
      ghost var owner :| FsInv(g, fs.cache.store, owner);
      fs.owner := owner;
      MountedIsClean(g, fs.cache.store, owner);
    }
  }
}
