/** The run of tools/mkfs_ktfs.py: when it succeeds, and what the image it writes holds. */
module MkfsBuild {
  import opened Base
  import opened Format
  import opened KtfsTree
  import opened KtfsKernel
  import opened KtfsFiles
  import opened KtfsDir
  import opened KtfsDirOps
  import opened Layout
  import opened MkfsTree
  import opened MkfsState
  import opened MkfsRoot
  import opened Mkfs

  datatype File = File(name: string, data: seq<u8>)

  /** The layout of an image of this size. */
  function GeoFor(size: nat, numInodes: nat): Geo {
    Geo(size / BLKSZ, (size / BLKSZ + BITS_PER_BLOCK - 1) / BITS_PER_BLOCK, (numInodes + INODES_PER_BLOCK - 1) / INODES_PER_BLOCK, 0)
  }

  /** The layout covers the image with as few bitmap blocks as possible, and the inodes with as few inode blocks. */
  lemma FewestMetaBlocks(size: nat, numInodes: nat, n: nat)
    requires size % BLKSZ == 0
    ensures GeoFor(size, numInodes).blockCount * BLKSZ == size && GeoFor(size, numInodes).root == 0
    ensures n * BITS_PER_BLOCK >= GeoFor(size, numInodes).blockCount <==> n >= GeoFor(size, numInodes).bitmapBlocks
    ensures n * INODES_PER_BLOCK >= numInodes <==> n >= GeoFor(size, numInodes).inodeBlocks
  {
  }

  /** The image is large enough for its own metadata and small enough for the 32-bit superblock. */
  predicate LayoutOk(size: int, numInodes: int) {
    && size > 0 && size % BLKSZ == 0 && numInodes >= 1
    && GeoFor(size, numInodes).FirstData() < GeoFor(size, numInodes).blockCount < TWO32
  }

  /** The blocks the files take. */
  function Total(files: seq<File>): nat {
    if files == [] then 0 else Total(files[..|files| - 1]) + Need(NBlocks(|files[|files| - 1].data|))
  }

  function Names(files: seq<File>): seq<string> {
    seq(|files|, i requires 0 <= i < |files| => files[i].name)
  }

  /** The directory entries: file i gets inode i + 1. */
  function Entries(files: seq<File>): (es: seq<(nat, string)>)
    ensures |es| == |files|
  {
    seq(|files|, i requires 0 <= i < |files| => (i + 1, files[i].name))
  }

  /** Everything the tool demands of its arguments. */
  predicate Fits(size: int, numInodes: int, files: seq<File>) {
    && |files| <= numInodes - 1
    && LayoutOk(size, numInodes)
    && RootFits(Names(files))
    && AllAscii(files) && AllSmall(files)
    && var g := GeoFor(size, numInodes);
       g.FirstData() + NBlocks(|files| * DENSZ) + Total(files) <= g.blockCount
  }

  lemma {:induction false} BitOfZero(k: nat)
    ensures !Bit(0, k)
  {
    if k > 0 {
      BitOfZero(k - 1);
    }
  }

  lemma UnusedInZeros(g: Geo, im: seq<Block>, n: nat)
    requires GeoOk(g, im) && n < g.blockCount && im[1 + n / BITS_PER_BLOCK] == ZERO_BLOCK
    ensures !Used(g, im, n)
  {
    BitOfZero(n % BITS_PER_BLOCK % 8);
  }

  /** Image.__init__: an empty image with its metadata marked used. */
  method NewImage(size: int, numInodes: int) returns (img: Builder?)
    ensures img != null <==> LayoutOk(size, numInodes)
    ensures img != null ==> fresh(img) && img.g == GeoFor(size, numInodes) && img.inodes == seq(numInodes, i => ZERO_INODE)
    ensures img != null ==> img.nextBlock == img.g.FirstData() && img.dentries == [] && img.rootBlocks == []
    ensures img != null ==> Bump(img.g, img.image, img.nextBlock)
  {
    hide Used, MarkStore;
    if size <= 0 || size % BLKSZ != 0 {
      return null;
    }
    if numInodes < 1 {
      return null;
    }
    var g := GeoFor(size, numInodes);
    // a block count over 32 bits makes packing the superblock fail
    if g.FirstData() >= g.blockCount || g.blockCount >= TWO32 {
      return null;
    }
    img := new Builder(g, numInodes, seq(g.blockCount, i => ZERO_BLOCK));
    forall b: nat | b < g.blockCount ensures !Used(g, img.image, b) {
      UnusedInZeros(g, img.image, b);
    }
    for blk := 0 to g.FirstData()
      invariant GeoOk(g, img.image) && img.inodes == seq(numInodes, i => ZERO_INODE)
      invariant img.nextBlock == g.FirstData() && img.dentries == [] && img.rootBlocks == []
      invariant forall b: nat :: b < g.blockCount ==> (Used(g, img.image, b) <==> b < blk)
      invariant forall b: nat :: b < g.blockCount && !(1 <= b < g.FirstInode()) ==> img.image[b] == ZERO_BLOCK
    {
      ghost var im := img.image;
      var ok := img.MarkUsed(blk);
      MarkBitmapOnly(g, im, blk);
      forall b: nat | b < g.blockCount ensures Used(g, img.image, b) <==> b < blk + 1 {
        UsedOfMark(g, im, blk, b);
      }
    }
  }

  // ---- what the image holds ----

  /** The table with the unused rows of its last block. */
  ghost function Pad(inodes: seq<Inode>, n: nat): (r: seq<Inode>)
    requires |inodes| <= n
    ensures |r| == n
  {
    inodes + seq(n - |inodes|, i => ZERO_INODE)
  }

  /** The files are placed one behind the other, between the directory and next. */
  ghost predicate PlacedAll(g: Geo, im: seq<Block>, inodes: seq<Inode>, files: seq<File>, bases: seq<nat>, r: nat, next: nat) {
    && |bases| == |files| < |inodes|
    && forall i: nat :: i < |files| ==>
         && Laid(g, im, inodes[i + 1], bases[i], files[i].data)
         && r <= bases[i] && g.FirstData() + bases[i] + Need(NBlocks(|files[i].data|)) <= next
  }

  ghost predicate RootOwned(owner: map<nat, Node>, r: nat) {
    forall k: nat :: k < r ==> k in owner && owner[k] == Node(0, Direct(k))
  }

  /** The rows behind the files are still zero, and so is the root's. */
  ghost predicate RestZero(inodes: seq<Inode>, done: nat) {
    forall i: nat :: i < |inodes| && (i == 0 || i > done) ==> inodes[i] == ZERO_INODE
  }

  lemma PlaceNext(g: Geo, im: seq<Block>, im': seq<Block>, inodes: seq<Inode>, files: seq<File>, bases: seq<nat>, r: nat, next: nat,
                  ino: Inode, f: File)
    requires PlacedAll(g, im, inodes, files, bases, r, next) && Grown(g, im, im', next)
    requires g.FirstData() + r <= next && |files| + 1 < |inodes| && Laid(g, im', ino, next - g.FirstData(), f.data)
    ensures PlacedAll(g, im', inodes[|files| + 1 := ino], files + [f], bases + [next - g.FirstData()], r, next + Need(NBlocks(|f.data|)))
  {
    hide Laid, Need, NBlocks;
    forall i: nat | i < |files| ensures Laid(g, im', inodes[i + 1], bases[i], files[i].data) {
      LaidRange(g, im, inodes[i + 1], bases[i], files[i].data);
      LaidKept(g, im, im', inodes[i + 1], bases[i], files[i].data);
    }
  }

  ghost predicate OwnerBelow(owner: map<nat, Node>, n: int) {
    forall v :: v in owner ==> v < n
  }

  lemma TreeNext(g: Geo, im: seq<Block>, im': seq<Block>, inodes: seq<Inode>, owner: map<nat, Node>, owner': map<nat, Node>, r: nat, next: nat,
                 i: nat, ino: Inode, data: seq<u8>)
    requires |inodes| <= g.Inodes() && TreeInv(g, im, Pad(inodes, g.Inodes()), owner) && i < |inodes|
    requires Grown(g, im, im', next) && g.FirstData() < next && OwnerBelow(owner, next - g.FirstData())
    requires Laid(g, im', ino, next - g.FirstData(), data) && Bump(g, im', next + Need(NBlocks(|data|)))
    requires RootOwned(owner, r) && g.FirstData() + r <= next
    requires owner' == owner + LaidOwner(i, NBlocks(|data|), next - g.FirstData())
    ensures TreeInv(g, im', Pad(inodes[i := ino], g.Inodes()), owner')
    ensures RootOwned(owner', r) && OwnerBelow(owner', next + Need(NBlocks(|data|)) - g.FirstData())
  {
    hide Used, Laid, Need, NBlocks, OwnerAt, Ptr, Owned;
    AddLaid(g, im, im', Pad(inodes, g.Inodes()), owner, i, ino, next - g.FirstData(), data);
    assert Pad(inodes, g.Inodes())[i := ino] == Pad(inodes[i := ino], g.Inodes());
  }

  /** The tree before any file is placed. */
  lemma TreeStart(g: Geo, im: seq<Block>, inodes: seq<Inode>, r: nat)
    requires Bump(g, im, g.FirstData() + r) && 0 < r && |inodes| <= g.Inodes() && g.root == 0
    requires forall i :: 0 <= i < |inodes| ==> inodes[i] == ZERO_INODE
    ensures TreeInv(g, im, Pad(inodes, g.Inodes()), map k: nat | k < r :: Node(0, Direct(k)))
  {
    hide Used;
  }

  /** The root directory's pointers are its own. */
  lemma TreeRoot(g: Geo, im: seq<Block>, inos: seq<Inode>, owner: map<nat, Node>, nd: nat)
    requires TreeInv(g, im, inos, owner) && 0 < |inos| && nd <= NDIRECT * DENTS_PER_BLOCK && RootOwned(owner, NBlocks(nd * DENSZ))
    ensures TreeInv(g, im, inos[0 := RootInode(nd)], owner)
  {
    hide Used, Ptr, RootInode;
    var inos' := inos[0 := RootInode(nd)];
    forall i: nat, p | i < |inos'| && Ptr(g, im, inos'[i], p).Some?
      ensures Ptr(g, im, inos'[i], p).value in owner && owner[Ptr(g, im, inos'[i], p).value] == Node(i, p)
    {
      if i == 0 {
        RootPtr(g, im, nd, p);
      } else {
        assert inos'[i] == inos[i];
      }
    }
  }

  /** The image after some files have been added. */
  ghost predicate Building(g: Geo, im: seq<Block>, inodes: seq<Inode>, files: seq<File>, bases: seq<nat>, owner: map<nat, Node>, r: nat, next: nat) {
    && Bump(g, im, next) && g.root == 0 && 0 < r && g.FirstData() + r <= next && |inodes| <= g.Inodes()
    && TreeInv(g, im, Pad(inodes, g.Inodes()), owner) && OwnerBelow(owner, next - g.FirstData()) && RootOwned(owner, r)
    && PlacedAll(g, im, inodes, files, bases, r, next) && RestZero(inodes, |files|)
  }

  lemma BuildStart(g: Geo, im: seq<Block>, inodes: seq<Inode>, r: nat)
    requires Bump(g, im, g.FirstData() + r) && 0 < r && 0 < |inodes| <= g.Inodes() && g.root == 0
    requires forall i :: 0 <= i < |inodes| ==> inodes[i] == ZERO_INODE
    ensures Building(g, im, inodes, [], [], map k: nat | k < r :: Node(0, Direct(k)), r, g.FirstData() + r)
  {
    hide Used, TreeInv, Bump;
    TreeStart(g, im, inodes, r);
  }

  lemma BuildNext(g: Geo, im: seq<Block>, im': seq<Block>, inodes: seq<Inode>, files: seq<File>, bases: seq<nat>,
                  owner: map<nat, Node>, owner': map<nat, Node>, r: nat, next: nat, ino: Inode, f: File)
    requires Building(g, im, inodes, files, bases, owner, r, next) && Grown(g, im, im', next) && |files| + 1 < |inodes|
    requires Laid(g, im', ino, next - g.FirstData(), f.data) && Bump(g, im', next + Need(NBlocks(|f.data|)))
    requires owner' == owner + LaidOwner(|files| + 1, NBlocks(|f.data|), next - g.FirstData())
    ensures Building(g, im', inodes[|files| + 1 := ino], files + [f], bases + [next - g.FirstData()], owner', r, next + Need(NBlocks(|f.data|)))
  {
    hide TreeInv, Bump, Laid, Need, NBlocks, PlacedAll, RootOwned, OwnerBelow, LaidOwner, Grown;
    TreeNext(g, im, im', inodes, owner, owner', r, next, |files| + 1, ino, f.data);
    PlaceNext(g, im, im', inodes, files, bases, r, next, ino, f);
  }

  /** The image holds exactly these files, under these names, and is sound. */
  ghost predicate Holds(g: Geo, im: seq<Block>, files: seq<File>) {
    && GeoOk(g, im) && SuperGeo(im[0]) == g && g.root == 0 && |files| < g.Inodes()
    && (exists owner :: FsInv(g, im, owner))
    && AllPackable(Entries(files))
    && Contents(g, im, InodeAt(g, im, 0)) == DirBytes(Entries(files))
    && forall i: nat :: i < |files| ==> Contents(g, im, InodeAt(g, im, i + 1)) == files[i].data
  }

  /** What finalize changes: the directory blocks, the inode table and the superblock. */
  ghost predicate Finalized(g: Geo, im: seq<Block>, im': seq<Block>, r: nat) {
    |im'| == |im| && forall b: nat :: b < |im| && (1 <= b < g.FirstInode() || g.FirstData() + r <= b) ==> im'[b] == im[b]
  }

  lemma FinishTree(g: Geo, im: seq<Block>, im': seq<Block>, inos: seq<Inode>, owner: map<nat, Node>, r: nat, nd: nat)
    requires TreeInv(g, im, inos, owner) && RootOwned(owner, r) && Finalized(g, im, im', r) && GeoOk(g, im') && 0 < |inos|
    requires nd <= NDIRECT * DENTS_PER_BLOCK && r == NBlocks(nd * DENSZ)
    ensures TreeInv(g, im', inos[0 := RootInode(nd)], owner)
  {
    hide Used, Ptr, NBlocks, RootInode, Owned;
    forall v | v in owner ensures Used(g, im', g.FirstData() + v) {
      UsedSame(g, im, im', g.FirstData() + v);
    }
    assert SameIndex(g, im, im', owner) by {
      forall v | v in owner && IsIndex(owner[v].p) && g.FirstData() + v < |im|
        ensures im'[g.FirstData() + v] == im[g.FirstData() + v]
      {
        assert v >= r;
      }
    }
    TreeFrame(g, im, im', inos, owner);
    TreeRoot(g, im', inos, owner, nd);
  }

  lemma FinishFile(g: Geo, im: seq<Block>, im': seq<Block>, inodes: seq<Inode>, files: seq<File>, bases: seq<nat>, r: nat, next: nat, i: nat)
    requires PlacedAll(g, im, inodes, files, bases, r, next) && Finalized(g, im, im', r) && i < |files|
    ensures Contents(g, im', inodes[i + 1]) == files[i].data && Full(g, im', inodes[i + 1]) && Tidy(inodes[i + 1])
  {
    hide Laid, Need, NBlocks;
    LaidRange(g, im, inodes[i + 1], bases[i], files[i].data);
    LaidKept(g, im, im', inodes[i + 1], bases[i], files[i].data);
    LaidContents(g, im', inodes[i + 1], bases[i], files[i].data);
  }

  lemma BuildFinish(g: Geo, im: seq<Block>, im': seq<Block>, inodes: seq<Inode>, files: seq<File>, bases: seq<nat>, owner: map<nat, Node>, r: nat, next: nat)
    requires Building(g, im, inodes, files, bases, owner, r, next) && Finalized(g, im, im', r) && GeoOk(g, im') && SuperGeo(im'[0]) == g
    requires |files| <= NDIRECT * DENTS_PER_BLOCK && r == NBlocks(|files| * DENSZ)
    requires AllPackable(Entries(files)) && DirWritten(g, im', DirBytes(Entries(files)))
    requires forall i: nat :: i < g.Inodes() ==> InodeAt(g, im', i) == Pad(inodes[0 := RootInode(|files|)], g.Inodes())[i]
    ensures Holds(g, im', files)
  {
    hide Used, Bump, TreeInv, PlacedAll, Finalized, InodeAt, RootInode, DirBytes, DirWritten, Contents, Full, Tidy, SuperGeo, AllPackable, Entries, NBlocks;
    var inos, nd := Pad(inodes, g.Inodes()), |files|;
    PlacedLen(g, im, inodes, files, bases, r, next);
    FinishTree(g, im, im', inos, owner, r, nd);
    assert Table(g, im') == inos[0 := RootInode(nd)];
    RootIn(g, im', nd, DirBytes(Entries(files)));
    forall i: nat | i < |files|
      ensures Contents(g, im', InodeAt(g, im', i + 1)) == files[i].data && Full(g, im', InodeAt(g, im', i + 1)) && Tidy(InodeAt(g, im', i + 1))
    {
      FinishFile(g, im, im', inodes, files, bases, r, next, i);
    }
    ZeroFile(g, im');
    forall i: nat | i < g.Inodes() ensures Full(g, im', InodeAt(g, im', i)) && (i != g.root ==> Tidy(InodeAt(g, im', i))) {
      if 0 < i <= |files| {
        FinishFile(g, im, im', inodes, files, bases, r, next, i - 1);
      }
    }
    assert FsInv(g, im', owner);
  }

  lemma PlacedLen(g: Geo, im: seq<Block>, inodes: seq<Inode>, files: seq<File>, bases: seq<nat>, r: nat, next: nat)
    requires PlacedAll(g, im, inodes, files, bases, r, next)
    ensures |files| < |inodes|
  {
  }

  lemma RootIn(g: Geo, im: seq<Block>, nd: nat, dir: seq<u8>)
    requires nd <= NDIRECT * DENTS_PER_BLOCK && |dir| == nd * DENSZ && DirWritten(g, im, dir)
    ensures Full(g, im, RootInode(nd)) && Contents(g, im, RootInode(nd)) == dir
  {
    hide RootInode, Chunk;
    RootContents(g, im, nd, dir);
  }

  lemma TotalNext(files: seq<File>, i: nat)
    requires i < |files|
    ensures Total(files[..i + 1]) == Total(files[..i]) + Need(NBlocks(|files[i].data|))
  {
    assert files[..i + 1][..i] == files[..i];
  }

  lemma {:induction false} TotalGrows(files: seq<File>, i: nat)
    requires i <= |files|
    ensures Total(files[..i]) <= Total(files)
    decreases |files| - i
  {
    if i == |files| {
      assert files[..i] == files;
    } else {
      TotalNext(files, i);
      TotalGrows(files, i + 1);
    }
  }

  /** The loop of main over the files. */
  method AddFiles(img: Builder, files: seq<File>, ghost k: nat, ghost start: map<nat, Node>)
    returns (ok: bool, ghost owner: map<nat, Node>, ghost bases: seq<nat>)
    requires Building(img.g, img.image, img.inodes, [], [], start, k, img.nextBlock) && |files| < |img.inodes| && img.dentries == []
    modifies img`image, img`nextBlock, img`inodes, img`dentries
    ensures ok <==> AllSmall(files) && old(img.nextBlock) + Total(files) <= img.g.blockCount
    ensures ok ==> Building(img.g, img.image, img.inodes, files, bases, owner, k, img.nextBlock)
    ensures ok ==> img.dentries == Entries(files) && |img.inodes| == |old(img.inodes)|
  {
    SmallNone();
    hide Bump, Building, Laid, NBlocks, Need, Grown, LaidOwner, AllSmall, Entries;
    owner, bases := start, [];
    ghost var g, first := img.g, img.nextBlock;
    BuildBump(g, img.image, img.inodes, [], [], start, k, first);
    assert files[..0] == [] && Total([]) == 0;
    for i := 0 to |files|
      invariant |img.inodes| == |old(img.inodes)| && Building(g, img.image, img.inodes, files[..i], bases, owner, k, img.nextBlock)
      invariant img.nextBlock == first + Total(files[..i]) <= g.blockCount
      invariant img.dentries == Entries(files[..i])
      invariant AllSmall(files[..i])
    {
      BuildBump(g, img.image, img.inodes, files[..i], bases, owner, k, img.nextBlock);
      TotalNext(files, i);
      TotalGrows(files, i + 1);
      SmallNext(files, i);
      EntriesNext(files, i);
      ghost var im, inodes, next := img.image, img.inodes, img.nextBlock;
      ok := img.AddFile(files[i].name, files[i].data, i + 1);
      if !ok {
        return;
      }
      ghost var owner0 := owner;
      owner := owner + LaidOwner(i + 1, NBlocks(|files[i].data|), next - g.FirstData());
      BuildNext(g, im, img.image, inodes, files[..i], bases, owner0, owner, k, next, img.inodes[i + 1], files[i]);
      bases := bases + [next - g.FirstData()];
      assert files[..i + 1] == files[..i] + [files[i]];
      BumpRange(g, img.image, img.nextBlock);
    }
    assert files[..|files|] == files;
    ok := true;
  }

  predicate AllSmall(files: seq<File>) {
    forall i :: 0 <= i < |files| ==> NBlocks(|files[i].data|) <= MAXBLOCKS
  }

  lemma SmallNone()
    ensures AllSmall([]) && Entries([]) == []
  {
  }

  lemma SmallNext(files: seq<File>, i: nat)
    requires i < |files|
    ensures AllSmall(files[..i + 1]) <==> AllSmall(files[..i]) && NBlocks(|files[i].data|) <= MAXBLOCKS
    ensures AllSmall(files) ==> AllSmall(files[..i + 1])
  {
    var more := files[..i + 1];
    assert files[..i] == more[..i] && more[i] == files[i];
    assert forall k :: 0 <= k < i ==> files[..i][k] == files[k];
    hide NBlocks;
  }

  lemma EntriesNext(files: seq<File>, i: nat)
    requires i < |files|
    ensures Entries(files[..i + 1]) == Entries(files[..i]) + [(i + 1, files[i].name)]
  {
  }

  predicate AllAscii(files: seq<File>) {
    forall i :: 0 <= i < |files| ==> IsAscii(files[i].name)
  }

  /** finalize, after every file has been added. */
  method Finalize(img: Builder, files: seq<File>, ghost k: nat, ghost owner: map<nat, Node>, ghost bases: seq<nat>) returns (ok: bool)
    requires Building(img.g, img.image, img.inodes, files, bases, owner, k, img.nextBlock) && img.dentries == Entries(files)
    requires k == NBlocks(|files| * DENSZ) && RootFits(Names(files)) && img.rootBlocks == seq(k, j => img.g.FirstData() + j)
    modifies img`image, img`inodes
    ensures ok <==> AllAscii(files)
    ensures ok ==> Holds(img.g, img.image, files)
  {
    hide Bump, Building, NBlocks, Holds, AllPackable, InodeAt, DirWritten, SuperGeo, RootInode, DirBytes, AllAscii;
    ghost var g, im, inodes := img.g, img.image, img.inodes;
    BuildBump(g, im, inodes, files, bases, owner, k, img.nextBlock);
    RootNeeds(|files|);
    forall i | 0 <= i < |files| ensures |Entries(files)[i].1| <= NAMELEN {
      assert |Names(files)[i]| <= NAMELEN;
    }
    ok := img.WriteRoot();
    PackableNames(files);
    if !ok {
      return;
    }
    ghost var im1 := img.image;
    BumpZero(g, im1, img.nextBlock);
    img.WriteTable();
    DirKept(g, im1, img.image, DirBytes(Entries(files)));
    assert Finalized(g, im, img.image, k);
    BuildFinish(g, im, img.image, inodes, files, bases, owner, k, img.nextBlock);
  }

  lemma DirKept(g: Geo, im: seq<Block>, im': seq<Block>, dir: seq<u8>)
    requires DirWritten(g, im, dir) && |im'| == |im|
    requires forall b: nat :: b < |im| && b != 0 && !(g.FirstInode() <= b < g.FirstData()) ==> im'[b] == im[b]
    ensures DirWritten(g, im', dir)
  {
    hide Chunk;
  }

  /** main: the tool succeeds exactly when everything fits, and then the image holds the files. */
  method Build(size: int, numInodes: int, files: seq<File>) returns (r: Option<seq<Block>>)
    requires files != []
    ensures r.Some? <==> Fits(size, numInodes, files)
    ensures r.Some? ==> Holds(GeoFor(size, numInodes), r.value, files)
  {
    hide Bump, Building, NBlocks, Need, GeoFor, Holds, LayoutOk, Total, RootFits;
    if |files| > numInodes - 1 {
      return None;
    }
    var img := NewImage(size, numInodes);
    if img == null {
      return None;
    }
    GeoRoom(size, numInodes);
    BumpRange(img.g, img.image, img.nextBlock);
    var ok := img.ReserveRoot(Names(files));
    if !ok {
      return None;
    }
    ghost var k := NBlocks(|files| * DENSZ);
    RootNeeds(|files|);
    BuildStart(img.g, img.image, img.inodes, k);
    ghost var owner, bases;
    ok, owner, bases := AddFiles(img, files, k, map j: nat | j < k :: Node(0, Direct(j)));
    if !ok {
      return None;
    }
    ok := Finalize(img, files, k, owner, bases);
    if !ok {
      return None;
    }
    return Some(img.image);
  }

  lemma GeoRoom(size: int, numInodes: int)
    requires LayoutOk(size, numInodes)
    ensures GeoFor(size, numInodes).root == 0 && numInodes <= GeoFor(size, numInodes).Inodes()
  {
  }

  lemma RootNeeds(nd: nat)
    ensures nd > 0 ==> NBlocks(nd * DENSZ) > 0
    ensures NBlocks(nd * DENSZ) <= NDIRECT ==> nd <= NDIRECT * DENTS_PER_BLOCK
  {
  }

  lemma BuildBump(g: Geo, im: seq<Block>, inodes: seq<Inode>, files: seq<File>, bases: seq<nat>, owner: map<nat, Node>, r: nat, next: nat)
    requires Building(g, im, inodes, files, bases, owner, r, next)
    ensures Bump(g, im, next) && g.FirstData() < next && g.FirstData() + r <= next <= |im| == g.blockCount && 0 < |inodes| <= g.Inodes() && g.root == 0
  {
  }

  lemma BumpZero(g: Geo, im: seq<Block>, next: nat)
    requires Bump(g, im, next)
    ensures GeoOk(g, im) && forall b: nat :: b < |im| && (b == 0 || g.FirstInode() <= b < g.FirstData()) ==> im[b] == ZERO_BLOCK
  {
  }

  /** Packing fails only on a name that is not ASCII. */
  lemma PackableNames(files: seq<File>)
    requires RootFits(Names(files)) && |files| <= NDIRECT * DENTS_PER_BLOCK
    ensures AllPackable(Entries(files)) <==> AllAscii(files)
  {
    hide IsAscii;
    forall i | 0 <= i < |files| ensures Packable(Entries(files)[i]) <==> IsAscii(files[i].name) {
      assert |Names(files)[i]| <= NAMELEN;
    }
  }
}
