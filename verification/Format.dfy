/** The byte-level layout of a KTFS image: little-endian words, bitmap bits, inodes and directory entries. */
module Format {
  import opened Base

  const INOSZ: nat := 32
  const DENSZ: nat := 16
  const NAMELEN: nat := 13
  const NDIRECT: nat := 3
  const NDIND: nat := 2
  const PTRS: nat := 128
  const INODES_PER_BLOCK: nat := 16
  const DENTS_PER_BLOCK: nat := 32
  const BITS_PER_BLOCK: nat := 4096
  const TWO32: nat := 0x1_0000_0000

  type u32 = x: nat | x < TWO32

  // ---- words ----

  function U32(b: seq<u8>): u32
    requires |b| == 4
  {
    b[0] as int + 0x100 * b[1] as int + 0x1_0000 * b[2] as int + 0x100_0000 * b[3] as int
  }

  function Bytes4(v: u32): (b: seq<u8>)
    ensures |b| == 4 && U32(b) == v
  {
    var v1 := v / 0x100;
    var v2 := v1 / 0x100;
    var v3 := v2 / 0x100;
    [(v % 0x100) as u8, (v1 % 0x100) as u8, (v2 % 0x100) as u8, v3 as u8]
  }

  function WordAt(b: Block, k: nat): u32
    requires k < PTRS
  {
    U32(b[4 * k..4 * k + 4])
  }

  /** A memory copy into a block. */
  function Patch(b: Block, off: nat, data: seq<u8>): (r: Block)
    requires off + |data| <= BLKSZ
    ensures forall k :: 0 <= k < BLKSZ ==> r[k] == if off <= k < off + |data| then data[k - off] else b[k]
  {
    b[..off] + data + b[off + |data|..]
  }

  function PutWord(b: Block, k: nat, v: u32): (r: Block)
    requires k < PTRS
  {
    Patch(b, 4 * k, Bytes4(v))
  }

  lemma WordOfPut(b: Block, k: nat, v: u32, j: nat)
    requires k < PTRS && j < PTRS
    ensures WordAt(PutWord(b, k, v), j) == if j == k then v else WordAt(b, j)
  {
    var r := PutWord(b, k, v);
    if j == k {
      assert r[4 * j..4 * j + 4] == Bytes4(v);
    } else {
      assert r[4 * j..4 * j + 4] == b[4 * j..4 * j + 4];
    }
  }

  lemma WordOfZero(k: nat)
    requires k < PTRS
    ensures WordAt(ZERO_BLOCK, k) == 0
  {
  }

  /** Consecutive words written from word k on. */
  function PutWords(b: Block, k: nat, ws: seq<u32>): Block
    requires k + |ws| <= PTRS
    decreases |ws|
  {
    if ws == [] then b else PutWords(PutWord(b, k, ws[0]), k + 1, ws[1..])
  }

  lemma {:induction false} WordOfPuts(b: Block, k: nat, ws: seq<u32>, j: nat)
    requires k + |ws| <= PTRS && j < PTRS
    ensures WordAt(PutWords(b, k, ws), j) == if k <= j < k + |ws| then ws[j - k] else WordAt(b, j)
    decreases |ws|
  {
    if ws != [] {
      WordOfPuts(PutWord(b, k, ws[0]), k + 1, ws[1..], j);
      WordOfPut(b, k, ws[0], j);
    }
  }

  // ---- bits ----

  /** Bit k of x, least significant first. */
  predicate Bit(x: nat, k: nat) {
    if k == 0 then x % 2 == 1 else Bit(x / 2, k - 1)
  }

  /** x | (1 << k) */
  function WithBit(x: nat, k: nat): nat {
    if k == 0 then x / 2 * 2 + 1 else WithBit(x / 2, k - 1) * 2 + x % 2
  }

  /** x & ~(1 << k) */
  function WithoutBit(x: nat, k: nat): nat {
    if k == 0 then x / 2 * 2 else WithoutBit(x / 2, k - 1) * 2 + x % 2
  }

  lemma {:induction false} BitOfWith(x: nat, k: nat, j: nat)
    ensures Bit(WithBit(x, k), j) <==> j == k || Bit(x, j)
    ensures Bit(WithoutBit(x, k), j) <==> j != k && Bit(x, j)
  {
    var half := x / 2;
    assert x == 2 * half + x % 2;
    if k > 0 && j > 0 {
      BitOfWith(half, k - 1, j - 1);
      BitUp(WithBit(half, k - 1), x % 2, j);
      BitUp(WithoutBit(half, k - 1), x % 2, j);
      assert Bit(x, j) == Bit(half, j - 1);
      hide Bit;
    } else if k > 0 {
      BitUp(WithBit(half, k - 1), x % 2, 0);
      BitUp(WithoutBit(half, k - 1), x % 2, 0);
    } else {
      BitUp(half, 1, j);
      BitUp(half, 0, j);
      BitUp(half, x % 2, j);
      hide Bit;
    }
  }

  lemma BitUp(half: nat, low: nat, j: nat)
    requires low < 2
    ensures Bit(half * 2 + low, j) == if j == 0 then low == 1 else Bit(half, j - 1)
  {
    assert (half * 2 + low) / 2 == half && (half * 2 + low) % 2 == low;
  }

  function Pow2(k: nat): (r: nat)
    ensures r >= 1
  {
    if k == 0 then 1 else 2 * Pow2(k - 1)
  }

  lemma Pow2Byte()
    ensures Pow2(8) == 256
  {
    assert Pow2(2) == 4 && Pow2(4) == 16 && Pow2(6) == 64;
  }

  lemma {:induction false} BitFits(x: nat, k: nat, n: nat)
    requires x < Pow2(n) && k < n
    ensures WithBit(x, k) < Pow2(n) && WithoutBit(x, k) < Pow2(n)
  {
    assert Pow2(n) == 2 * Pow2(n - 1);
    var half := x / 2;
    assert x == 2 * half + x % 2;
    if k > 0 {
      BitFits(half, k - 1, n - 1);
      assert WithBit(x, k) == WithBit(half, k - 1) * 2 + x % 2;
      assert WithoutBit(x, k) == WithoutBit(half, k - 1) * 2 + x % 2;
      hide Pow2, WithBit, WithoutBit;
    } else {
      assert WithBit(x, 0) == half * 2 + 1 && WithoutBit(x, 0) == half * 2;
      hide Pow2, WithBit, WithoutBit;
    }
  }

  function WithBit8(x: u8, k: nat): u8 {
    (WithBit(x as nat, k) % 256) as u8
  }

  function WithoutBit8(x: u8, k: nat): u8 {
    (WithoutBit(x as nat, k) % 256) as u8
  }

  lemma BitOfWith8(x: u8, k: nat, j: nat)
    requires k < 8
    ensures Bit(WithBit8(x, k) as nat, j) <==> j == k || Bit(x as nat, j)
    ensures Bit(WithoutBit8(x, k) as nat, j) <==> j != k && Bit(x as nat, j)
  {
    hide Bit, WithBit, WithoutBit, Pow2;
    Pow2Byte();
    BitFits(x as nat, k, 8);
    BitOfWith(x as nat, k, j);
  }

  lemma {:induction false} AllOnes(k: nat, n: nat)
    requires k < n
    ensures Bit(Pow2(n) - 1, k)
  {
    if k > 0 {
      AllOnes(k - 1, n - 1);
    }
  }

  lemma FullByte(k: nat)
    requires k < 8
    ensures Bit(255, k)
  {
    Pow2Byte();
    AllOnes(k, 8);
  }

  predicate BitAt(b: Block, n: nat)
    requires n < BITS_PER_BLOCK
  {
    Bit(b[n / 8] as nat, n % 8)
  }

  function SetBit(b: Block, n: nat): Block
    requires n < BITS_PER_BLOCK
  {
    b[n / 8 := WithBit8(b[n / 8], n % 8)]
  }

  function ClearBit(b: Block, n: nat): Block
    requires n < BITS_PER_BLOCK
  {
    b[n / 8 := WithoutBit8(b[n / 8], n % 8)]
  }

  lemma BitOfSet(b: Block, n: nat, m: nat)
    requires n < BITS_PER_BLOCK && m < BITS_PER_BLOCK
    ensures BitAt(SetBit(b, n), m) <==> m == n || BitAt(b, m)
    ensures BitAt(ClearBit(b, n), m) <==> m != n && BitAt(b, m)
  {
    if n / 8 == m / 8 {
      BitOfWith8(b[n / 8], n % 8, m % 8);
    }
  }

  // ---- inodes ----

  datatype InodeRec = Inode(size: u32, flags: u32, block: seq<u32>, indirect: u32, dindirect: seq<u32>)

  type Inode = i: InodeRec | |i.block| == NDIRECT && |i.dindirect| == NDIND witness Inode(0, 0, [0, 0, 0], 0, [0, 0])

  const ZERO_INODE: Inode := Inode(0, 0, [0, 0, 0], 0, [0, 0])

  function InodeWords(ino: Inode): (ws: seq<u32>)
    ensures |ws| == 8
  {
    [ino.size, ino.flags] + ino.block + [ino.indirect] + ino.dindirect
  }

  /** The inode in slot s of an inode block. */
  function InodeIn(b: Block, s: nat): Inode
    requires s < INODES_PER_BLOCK
  {
    Inode(WordAt(b, 8 * s), WordAt(b, 8 * s + 1),
          [WordAt(b, 8 * s + 2), WordAt(b, 8 * s + 3), WordAt(b, 8 * s + 4)],
          WordAt(b, 8 * s + 5), [WordAt(b, 8 * s + 6), WordAt(b, 8 * s + 7)])
  }

  function PutInode(b: Block, s: nat, ino: Inode): Block
    requires s < INODES_PER_BLOCK
  {
    PutWords(b, 8 * s, InodeWords(ino))
  }

  lemma InodeOfPut(b: Block, s: nat, ino: Inode, t: nat)
    requires s < INODES_PER_BLOCK && t < INODES_PER_BLOCK
    ensures InodeIn(PutInode(b, s, ino), t) == if s == t then ino else InodeIn(b, t)
  {
    hide WordAt, PutWords, PutWord;
    var ws := InodeWords(ino);
    forall j | 8 * t <= j < 8 * t + 8
      ensures WordAt(PutInode(b, s, ino), j) == if s == t then ws[j - 8 * s] else WordAt(b, j)
    {
      WordOfPuts(b, 8 * s, ws, j);
    }
    assert ino.block == [ws[2], ws[3], ws[4]] && ino.dindirect == [ws[6], ws[7]];
  }

  /** The number of blocks a file of this size spans. */
  function NBlocks(size: nat): nat {
    (size + BLKSZ - 1) / BLKSZ
  }

  /** They hold the file, and one block fewer does not. */
  lemma FewestBlocks(size: nat, n: nat)
    ensures n * BLKSZ >= size <==> n >= NBlocks(size)
  {
  }
}
