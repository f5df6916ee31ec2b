/** Where everything lies in an image, byte by byte: the structures of kernel/ktfs.h, with no padding. The image is one run of
    bytes here, and a number is read from it lowest byte first. */
module OnDisk {
  import opened Base
  import opened Format
  import opened KtfsTree
  import opened KtfsKernel
  import opened KtfsFiles
  import opened KtfsDir
  import opened KtfsDirOps

  /** Byte p of the image. */
  function ByteAt(st: seq<Block>, p: nat): nat {
    if p / BLKSZ < |st| then st[p / BLKSZ][p % BLKSZ] as nat else 0
  }

  /** The number in the n bytes from p on. */
  function Number(st: seq<Block>, p: nat, n: nat): nat
    decreases n
  {
    if n == 0 then 0 else ByteAt(st, p) + 0x100 * Number(st, p + 1, n - 1)
  }

  lemma InBlock(st: seq<Block>, b: nat, o: nat)
    requires b < |st| && o < BLKSZ
    ensures ByteAt(st, b * BLKSZ + o) == st[b][o] as nat
  {
    assert (b * BLKSZ + o) / BLKSZ == b && (b * BLKSZ + o) % BLKSZ == o;
  }

  lemma NumberFour(st: seq<Block>, p: nat)
    ensures Number(st, p, 4) == ByteAt(st, p) + 0x100 * ByteAt(st, p + 1) + 0x1_0000 * ByteAt(st, p + 2) + 0x100_0000 * ByteAt(st, p + 3)
    ensures Number(st, p, 2) == ByteAt(st, p) + 0x100 * ByteAt(st, p + 1)
  {
    hide ByteAt;
    assert Number(st, p + 3, 1) == ByteAt(st, p + 3) + 0x100 * Number(st, p + 4, 0);
    assert Number(st, p + 2, 2) == ByteAt(st, p + 2) + 0x100 * Number(st, p + 3, 1);
    assert Number(st, p + 1, 3) == ByteAt(st, p + 1) + 0x100 * Number(st, p + 2, 2);
    assert Number(st, p + 1, 1) == ByteAt(st, p + 1) + 0x100 * Number(st, p + 2, 0);
  }

  /** Word k of block b is the number at byte 4 * k of the block. */
  lemma WordIs(st: seq<Block>, b: nat, k: nat)
    requires b < |st| && k < PTRS
    ensures WordAt(st[b], k) == Number(st, b * BLKSZ + 4 * k, 4)
  {
    var p := b * BLKSZ + 4 * k;
    NumberFour(st, p);
    InBlock(st, b, 4 * k);
    InBlock(st, b, 4 * k + 1);
    InBlock(st, b, 4 * k + 2);
    InBlock(st, b, 4 * k + 3);
    var w := st[b][4 * k..4 * k + 4];
    assert w[0] == st[b][4 * k] && w[1] == st[b][4 * k + 1] && w[2] == st[b][4 * k + 2] && w[3] == st[b][4 * k + 3];
  }

  /** The superblock: four numbers from the first byte on, the last of two bytes. */
  lemma SuperLayout(st: seq<Block>)
    requires |st| > 0
    ensures SuperGeo(st[0]) == Geo(Number(st, 0, 4), Number(st, 4, 4), Number(st, 8, 4), Number(st, 12, 2))
  {
    hide WordAt, Number;
    WordIs(st, 0, 0);
    WordIs(st, 0, 1);
    WordIs(st, 0, 2);
    WordIs(st, 0, 3);
    LowTwo(st, 12);
  }

  lemma LowTwo(st: seq<Block>, p: nat)
    ensures Number(st, p, 4) % 0x1_0000 == Number(st, p, 2)
  {
    hide Number, ByteAt;
    NumberFour(st, p);
    ByteRange(st, p);
    ByteRange(st, p + 1);
    LowHalf(Number(st, p, 4), Number(st, p, 2), ByteAt(st, p + 2) + 0x100 * ByteAt(st, p + 3));
  }

  lemma LowHalf(w: nat, low: nat, high: nat)
    requires w == low + 0x1_0000 * high && low < 0x1_0000
    ensures w % 0x1_0000 == low
  {
  }

  lemma ByteRange(st: seq<Block>, p: nat)
    ensures ByteAt(st, p) < 0x100
  {
  }

  /** Bit n of the bitmap, which starts with block 1, is bit n % 8 of its byte n / 8, the lowest bit first. */
  lemma BitmapLayout(g: Geo, st: seq<Block>, n: nat)
    requires GeoOk(g, st) && n < g.blockCount
    ensures Used(g, st, n) <==> ByteAt(st, BLKSZ + n / 8) / Pow2(n % 8) % 2 == 1
  {
    var q, r := n / BITS_PER_BLOCK, n % BITS_PER_BLOCK;
    assert BLKSZ + n / 8 == (1 + q) * BLKSZ + r / 8 && n % 8 == r % 8;
    InBlock(st, 1 + q, r / 8);
    BitDivides(st[1 + q][r / 8] as nat, r % 8);
    hide Bit, Pow2;
  }

  lemma {:induction false} BitDivides(x: nat, k: nat)
    requires k < 8
    ensures Bit(x, k) <==> x / Pow2(k) % 2 == 1
  {
    if k > 0 {
      BitDivides(x / 2, k - 1);
      HalfFirst(x, k);
    }
  }

  lemma HalfFirst(x: nat, k: nat)
    requires 0 < k < 8
    ensures x / Pow2(k) == x / 2 / Pow2(k - 1)
  {
    assert Pow2(0) == 1 && Pow2(1) == 2 && Pow2(2) == 4;
    assert Pow2(3) == 8 && Pow2(4) == 16;
    assert Pow2(5) == 32 && Pow2(6) == 64;
    assert Pow2(7) == 128;
    hide Pow2;
    assert x / 4 == x / 2 / 2 && x / 8 == x / 2 / 4 && x / 16 == x / 2 / 8;
    assert x / 32 == x / 2 / 16 && x / 64 == x / 2 / 32 && x / 128 == x / 2 / 64;
  }

  /** Inode i: eight numbers from byte 32 * i of the inode blocks on. */
  lemma InodeLayout(g: Geo, st: seq<Block>, i: nat)
    requires GeoOk(g, st) && i < g.Inodes()
    ensures var p := (1 + g.bitmapBlocks) * BLKSZ + INOSZ * i; var ino := InodeAt(g, st, i);
      && ino.size == Number(st, p, 4) && ino.flags == Number(st, p + 4, 4)
      && ino.block == [Number(st, p + 8, 4), Number(st, p + 12, 4), Number(st, p + 16, 4)]
      && ino.indirect == Number(st, p + 20, 4) && ino.dindirect == [Number(st, p + 24, 4), Number(st, p + 28, 4)]
  {
    hide WordAt, Number;
    var b, s := 1 + g.bitmapBlocks + i / INODES_PER_BLOCK, i % INODES_PER_BLOCK;
    var p := (1 + g.bitmapBlocks) * BLKSZ + INOSZ * i;
    assert p == b * BLKSZ + 4 * (8 * s);
    forall k: nat | k < 8 ensures WordAt(st[b], 8 * s + k) == Number(st, p + 4 * k, 4) {
      WordIs(st, b, 8 * s + k);
      assert b * BLKSZ + 4 * (8 * s + k) == p + 4 * k;
    }
    var w := st[b];
    assert WordAt(w, 8 * s + 0) == Number(st, p + 4 * 0, 4) && WordAt(w, 8 * s + 1) == Number(st, p + 4 * 1, 4);
    assert WordAt(w, 8 * s + 2) == Number(st, p + 4 * 2, 4) && WordAt(w, 8 * s + 3) == Number(st, p + 4 * 3, 4);
    assert WordAt(w, 8 * s + 4) == Number(st, p + 4 * 4, 4) && WordAt(w, 8 * s + 5) == Number(st, p + 4 * 5, 4);
    assert WordAt(w, 8 * s + 6) == Number(st, p + 4 * 6, 4) && WordAt(w, 8 * s + 7) == Number(st, p + 4 * 7, 4);
  }

  /** The byte at which data block q begins. */
  function DataPos(g: Geo, q: nat): nat {
    (1 + g.bitmapBlocks + g.inodeBlocks + q) * BLKSZ
  }

  /** Pointer k of the index block q. */
  function PointerAt(g: Geo, st: seq<Block>, q: nat, k: nat): nat {
    Number(st, DataPos(g, q) + 4 * k, 4)
  }

  lemma PointerIs(g: Geo, st: seq<Block>, q: nat, k: nat)
    requires g.FirstData() + q < |st| && k < PTRS
    ensures Word(g, st, q, k) == PointerAt(g, st, q, k)
  {
    WordIs(st, g.FirstData() + q, k);
  }

  /** The logical blocks of a file in order: three in the inode, then 128 in the indirect block, then 128 times 128
      in each of the two double-indirect ones. */
  lemma PathsInOrder(j: nat, k: nat, l: nat)
    requires k < PTRS && l < PTRS
    ensures j < NDIRECT ==> LeafPath(j) == Direct(j)
    ensures LeafPath(3 + k) == IndLeaf(k)
    ensures LeafPath(3 + 128 + (j * 128 + k) * 128 + l) == DindLeaf(j, k, l)
  {
    Digits(j, k, l);
  }

  lemma Digits(j: nat, k: nat, l: nat)
    requires k < 128 && l < 128
    ensures var m := (j * 128 + k) * 128 + l; m / 0x4000 == j && m % 0x4000 / 128 == k && m % 128 == l
  {
    var low := k * 128 + l;
    var m := j * 0x4000 + low;
    assert (j * 128 + k) * 128 + l == m && low < 0x4000;
    assert m / 0x4000 == j;
    assert m % 0x4000 == low;
  }

  /** Byte o of logical block lb lies in the block its pointer names, and every pointer on the way to it is there. */
  lemma FileByte(g: Geo, st: seq<Block>, owner: map<nat, Node>, i: nat, lb: nat, o: nat)
    requires FsInv(g, st, owner) && i < g.Inodes() && o < BLKSZ && lb * BLKSZ + o < InodeAt(g, st, i).size
    ensures var ino := InodeAt(g, st, i); var q := Ptr(g, st, ino, LeafPath(lb));
      q.Some? && g.FirstData() + q.value < |st| && Contents(g, st, ino)[lb * BLKSZ + o] as nat == ByteAt(st, DataPos(g, q.value) + o)
  {
    hide TreeInv, ByteAt, Ptr, LeafPath, InodeAt, Tidy;
    var ino := InodeAt(g, st, i);
    assert Full(g, st, ino) && lb < NBlocks(ino.size) && HasBlock(g, st, ino, lb);
    PtrInRange(g, st, Table(g, st), owner, i, LeafPath(lb));
    ContentsAt(g, st, ino, lb * BLKSZ + o);
    assert (lb * BLKSZ + o) / BLKSZ == lb && (lb * BLKSZ + o) % BLKSZ == o;
    InBlock(st, g.FirstData() + Ptr(g, st, ino, LeafPath(lb)).value, o);
  }

  lemma GeoIs(g: Geo, st: seq<Block>, owner: map<nat, Node>)
    requires FsInv(g, st, owner)
    ensures GeoOk(g, st)
  {
  }

  /** The index blocks above a pointer that is there are in the image. */
  lemma IndexInRange(g: Geo, st: seq<Block>, owner: map<nat, Node>, i: nat, p: Path)
    requires FsInv(g, st, owner) && i < g.Inodes() && Ptr(g, st, InodeAt(g, st, i), p).Some?
    ensures g.FirstData() + Ptr(g, st, InodeAt(g, st, i), p).value < |st|
  {
    hide TreeInv, Ptr, InodeAt, Full, Tidy;
    PtrInRange(g, st, Table(g, st), owner, i, p);
  }

  /** Byte o of a file's block that a pointer of the inode names. */
  lemma DirectLayout(g: Geo, st: seq<Block>, owner: map<nat, Node>, i: nat, j: nat, o: nat)
    requires FsInv(g, st, owner) && i < g.Inodes() && j < NDIRECT && o < BLKSZ && j * BLKSZ + o < InodeAt(g, st, i).size
    ensures var ino := InodeAt(g, st, i); Contents(g, st, ino)[j * BLKSZ + o] as nat == ByteAt(st, DataPos(g, ino.block[j]) + o)
  {
    hide FsInv, ByteAt, Contents, InodeAt;
    GeoIs(g, st, owner);
    FileByte(g, st, owner, i, j, o);
  }

  /** The same for a pointer of the indirect block. */
  lemma IndirectLayout(g: Geo, st: seq<Block>, owner: map<nat, Node>, i: nat, k: nat, o: nat)
    requires FsInv(g, st, owner) && i < g.Inodes() && k < PTRS && o < BLKSZ && (3 + k) * BLKSZ + o < InodeAt(g, st, i).size
    ensures var ino := InodeAt(g, st, i);
      Contents(g, st, ino)[(3 + k) * BLKSZ + o] as nat == ByteAt(st, DataPos(g, PointerAt(g, st, ino.indirect, k)) + o)
  {
    hide FsInv, ByteAt, Contents, InodeAt, PointerAt, LeafPath, Word;
    GeoIs(g, st, owner);
    PathsInOrder(0, k, 0);
    FileByte(g, st, owner, i, 3 + k, o);
    IndexInRange(g, st, owner, i, Ind);
    PointerIs(g, st, InodeAt(g, st, i).indirect, k);
  }

  /** And for a pointer of a block that a double-indirect block names. */
  lemma DoubleLayout(g: Geo, st: seq<Block>, owner: map<nat, Node>, i: nat, j: nat, k: nat, l: nat, lb: nat, o: nat)
    requires FsInv(g, st, owner) && i < g.Inodes() && j < NDIND && k < PTRS && l < PTRS && o < BLKSZ
    requires lb == 3 + 128 + (j * 128 + k) * 128 + l && lb * BLKSZ + o < InodeAt(g, st, i).size
    ensures var ino := InodeAt(g, st, i);
      Contents(g, st, ino)[lb * BLKSZ + o] as nat == ByteAt(st, DataPos(g, PointerAt(g, st, PointerAt(g, st, ino.dindirect[j], k), l)) + o)
  {
    hide FsInv, ByteAt, Contents, InodeAt, PointerAt, LeafPath, Word;
    GeoIs(g, st, owner);
    PathsInOrder(j, k, l);
    FileByte(g, st, owner, i, lb, o);
    var ino := InodeAt(g, st, i);
    IndexInRange(g, st, owner, i, Dind(j));
    IndexInRange(g, st, owner, i, DindMid(j, k));
    PointerIs(g, st, ino.dindirect[j], k);
    PointerIs(g, st, Word(g, st, ino.dindirect[j], k), l);
  }

  /** Entry j of the directory: sixteen bytes, the inode's number in the first two, lowest first, and behind it the
      name up to its terminator. */
  lemma DentLayout(g: Geo, st: seq<Block>, j: nat)
    requires GeoOk(g, st) && (j + 1) * DENSZ <= InodeAt(g, st, g.root).size
    ensures var c := Contents(g, st, InodeAt(g, st, g.root)); var d := RootDents(g, st);
      && j < |d| && d[j].inode == c[16 * j] as nat + 0x100 * c[16 * j + 1] as nat
      && |d[j].name| <= 14 && (|d[j].name| < 14 ==> c[16 * j + 2 + |d[j].name|] == 0)
      && forall k :: 0 <= k < |d[j].name| ==> d[j].name[k] == c[16 * j + 2 + k] && d[j].name[k] != 0
  {
    hide InodeAt, Contents, CStr;
    var c := Contents(g, st, InodeAt(g, st, g.root));
    assert j < |c| / DENSZ;
    var raw := c[j * DENSZ..j * DENSZ + DENSZ];
    assert RootDents(g, st)[j] == ParseDent(raw);
    assert forall k :: 0 <= k < 14 ==> raw[2..][k] == c[16 * j + 2 + k];
  }
}
