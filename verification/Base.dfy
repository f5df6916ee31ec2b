/** Bytes, blocks, error numbers and the option type shared by every model. */
module Base {

  datatype Option<+T> = None | Some(value: T)

  /** A byte of memory or of the disk. */
  newtype u8 = x: int | 0 <= x < 256

  const BLKSZ: nat := 512

  /** One disk block. The disk, the cache and the file system all move whole blocks. */
  type Block = b: seq<u8> | |b| == BLKSZ witness seq(BLKSZ, i => 0 as u8)

  function Zeros(n: nat): (s: seq<u8>)
    ensures |s| == n && forall i :: 0 <= i < n ==> s[i] == 0
  {
    seq(n, i => 0)
  }

  const ZERO_BLOCK: Block := Zeros(BLKSZ)

  // Error numbers of kernel/error.h. The kernel returns them negated.
  const EINVAL: int := 1
  const EIO: int := 5
  const ENOENT: int := 7
  const EBADFD: int := 9
  const EMFILE: int := 10
  const EMPROC: int := 11
  const EMTHR: int := 12
  const ENOMEM: int := 14
  const EPIPE: int := 15

  function Min(a: int, b: int): int {
    if a < b then a else b
  }

  function Max(a: int, b: int): int {
    if a > b then a else b
  }

  /** No element twice. */
  predicate NoDup(s: seq<nat>) {
    forall i, j :: 0 <= i < j < |s| ==> s[i] != s[j]
  }
}
