/** The write-back block cache of kernel/cache.c over an abstract block device.

    A block handed out by the cache is identified by its block number: a pinned entry never changes
    its position, so the data pointer of the C code and the block number name the same thing. */
module BlockCache {
  import opened Base

  const NENT: nat := 128

  /** A device that moves one whole block or fails with a negative code and changes nothing.
      A healthy device never fails on a block it has. */
  class Device {
    const healthy: bool
    var blocks: seq<Block>
    ghost var readLog: seq<nat>  // the blocks read so far, in order

    constructor (healthy: bool, blocks: seq<Block>)
      ensures this.healthy == healthy && this.blocks == blocks && readLog == []
    {
      this.healthy, this.blocks, this.readLog := healthy, blocks, [];
    }

    method ReadAt(b: nat) returns (n: int, data: Block)
      modifies this`readLog
      ensures n == BLKSZ || n == -EIO
      ensures n == BLKSZ ==> b < |blocks| && data == blocks[b] && readLog == old(readLog) + [b]
      ensures n < 0 ==> readLog == old(readLog)
      ensures healthy && b < |blocks| ==> n == BLKSZ
    {
      var fault: bool := *;
      if b < |blocks| && (healthy || !fault) {
        readLog := readLog + [b];
        return BLKSZ, blocks[b];
      }
      return -EIO, ZERO_BLOCK;
    }

    method WriteAt(b: nat, data: Block) returns (n: int)
      modifies this`blocks
      ensures n == BLKSZ || n == -EIO
      ensures n == BLKSZ ==> b < |old(blocks)| && blocks == old(blocks)[b := data]
      ensures n < 0 ==> blocks == old(blocks)
      ensures healthy && b < |blocks| ==> n == BLKSZ
    {
      var fault: bool := *;
      if b < |blocks| && (healthy || !fault) {
        blocks := blocks[b := data];
        return BLKSZ;
      }
      return -EIO;
    }
  }

  datatype Entry = Entry(blk: nat, valid: bool, refcnt: nat, dirty: bool, data: Block)

  const EMPTY_ENTRY: Entry := Entry(0, false, 0, false, ZERO_BLOCK)

  predicate Hit(e: Entry, b: nat) {
    e.valid && e.blk == b
  }

  /** The index of the first entry holding block b, or |ents|. */
  function Find(ents: seq<Entry>, b: nat): (i: nat)
    ensures i <= |ents|
    ensures i < |ents| ==> Hit(ents[i], b)
    ensures forall j :: 0 <= j < i ==> !Hit(ents[j], b)
  {
    if ents == [] then 0
    else if Hit(ents[0], b) then 0
    else 1 + Find(ents[1..], b)
  }

  ghost predicate Unique(ents: seq<Entry>) {
    forall i, j :: 0 <= i < j < |ents| && ents[i].valid && ents[j].valid ==> ents[i].blk != ents[j].blk
  }

  /** The references outstanding on block b. */
  ghost function RefCount(ents: seq<Entry>, b: nat): nat {
    if Find(ents, b) < |ents| then ents[Find(ents, b)].refcnt else 0
  }

  /** What the cache and the device together hold for block b. */
  ghost function Logical(ents: seq<Entry>, blocks: seq<Block>, b: nat): Block
    requires b < |blocks|
  {
    if Find(ents, b) < |ents| then ents[Find(ents, b)].data else blocks[b]
  }

  /** An entry without unreleased writes is dirty or agrees with the device. */
  ghost predicate EntryOk(e: Entry, blocks: seq<Block>, touched: set<nat>) {
    e.valid ==>
      && e.blk < |blocks|
      && (e.blk !in touched ==> e.dirty || e.data == blocks[e.blk])
      && (e.blk in touched ==> e.refcnt > 0)
  }

  /** Only the entry holding b answers for b. */
  lemma FindHit(ents: seq<Entry>, i: nat, b: nat)
    requires Unique(ents) && i < |ents| && Hit(ents[i], b)
    ensures Find(ents, b) == i
  {
  }

  /** Changing an entry but not its position moves no lookup. */
  lemma FindSame(ents: seq<Entry>, i: nat, e: Entry, b: nat)
    requires Unique(ents) && i < |ents| && e.valid == ents[i].valid && e.blk == ents[i].blk
    ensures Unique(ents[i := e]) && Find(ents[i := e], b) == Find(ents, b)
  {
    var k := Find(ents, b);
    if k < |ents| {
      FindHit(ents[i := e], k, b);
    }
  }

  /** Re-homing entry i from its old block to the uncached block nb moves exactly those two lookups. */
  lemma FindMoved(ents: seq<Entry>, i: nat, e: Entry, b: nat)
    requires Unique(ents) && i < |ents| && e.valid && Find(ents, e.blk) == |ents|
    ensures Unique(ents[i := e])
    ensures Find(ents[i := e], b) ==
      if b == e.blk then i else if Hit(ents[i], b) then |ents| else Find(ents, b)
  {
    var ents' := ents[i := e];
    forall j | 0 <= j < |ents| && j != i && ents[j].valid ensures ents[j].blk != e.blk {
      assert !Hit(ents[j], e.blk);
    }
    var k := Find(ents, b);
    if b == e.blk {
      FindHit(ents', i, b);
    } else if Hit(ents[i], b) {
      FindHit(ents, i, b);
    } else if k < |ents| {
      FindHit(ents', k, b);
    }
  }

  /** The invariant of the cache: what its entries, the device, the store it stands for, the outstanding
      references and the unreleased writes have to do with each other. */
  ghost predicate Inv(ents: seq<Entry>, blocks: seq<Block>, store: seq<Block>, held: multiset<nat>, touched: set<nat>) {
    && |ents| == NENT
    && |store| == |blocks|
    && Unique(ents)
    && (forall i :: 0 <= i < NENT ==> EntryOk(ents[i], blocks, touched))
    && (forall b: nat {:trigger Logical(ents, blocks, b)} :: b < |blocks| ==> store[b] == Logical(ents, blocks, b))
    && (forall b: nat {:trigger RefCount(ents, b)} :: held[b] == RefCount(ents, b))
    && (forall b :: b in touched ==> b in held)
  }

  /** Writing an entry back to its home block keeps the invariant, with the same store. */
  lemma WritebackInv(ents: seq<Entry>, blocks: seq<Block>, store: seq<Block>, held: multiset<nat>, touched: set<nat>, i: nat)
    requires Inv(ents, blocks, store, held, touched)
    requires i < NENT && ents[i].valid
    ensures ents[i].blk < |blocks|
    ensures Inv(ents[i := ents[i].(dirty := false)], blocks[ents[i].blk := ents[i].data], store, held, touched)
  {
    hide Find, Logical, RefCount;
    var e := ents[i];
    assert EntryOk(e, blocks, touched);
    var ents', blocks' := ents[i := e.(dirty := false)], blocks[e.blk := e.data];
    FindSame(ents, i, e.(dirty := false), 0);
    hide Unique;
    forall b: nat ensures RefCount(ents', b) == held[b] {
      CleanLookup(ents, blocks, i, b);
      assert RefCount(ents, b) == held[b];
    }
    forall b: nat | b < |blocks| ensures store[b] == Logical(ents', blocks', b) {
      CleanLookup(ents, blocks, i, b);
      assert store[b] == Logical(ents, blocks, b);
    }
    forall j | 0 <= j < NENT ensures EntryOk(ents'[j], blocks', touched) {
      assert EntryOk(ents[j], blocks, touched);
    }
  }

  /** A lookup sees no difference when an entry is written home. */
  lemma CleanLookup(ents: seq<Entry>, blocks: seq<Block>, i: nat, b: nat)
    requires Unique(ents) && i < |ents| && ents[i].valid && ents[i].blk < |blocks|
    ensures RefCount(ents[i := ents[i].(dirty := false)], b) == RefCount(ents, b)
    ensures b < |blocks| ==>
      Logical(ents[i := ents[i].(dirty := false)], blocks[ents[i].blk := ents[i].data], b) == Logical(ents, blocks, b)
  {
    FindSame(ents, i, ents[i].(dirty := false), b);
    FindHit(ents, i, ents[i].blk);
    hide Unique;
  }

  /** A change to one entry that leaves its position alone: new data, flags or count. */
  lemma UpdateInv(ents: seq<Entry>, blocks: seq<Block>, store: seq<Block>, held: multiset<nat>, touched: set<nat>,
                  i: nat, e: Entry, held': multiset<nat>, touched': set<nat>)
    requires Inv(ents, blocks, store, held, touched)
    requires i < NENT && ents[i].valid && e.valid && e.blk == ents[i].blk
    requires forall b :: b != e.blk ==> (b in touched' <==> b in touched)
    requires EntryOk(e, blocks, touched')
    requires held' == held[e.blk := e.refcnt]
    ensures ents[i].blk < |blocks|
    ensures Inv(ents[i := e], blocks, store[e.blk := e.data], held', touched')
  {
    assert EntryOk(ents[i], blocks, touched);
    var ents' := ents[i := e];
    FindSame(ents, i, e, 0);
    FindHit(ents, i, e.blk);
    forall b: nat ensures held'[b] == RefCount(ents', b) {
      assert RefCount(ents, b) == held[b];
      UpdateLookup(ents, blocks, i, e, b);
    }
    forall b: nat | b < |blocks| ensures store[e.blk := e.data][b] == Logical(ents', blocks, b) {
      assert store[b] == Logical(ents, blocks, b);
      UpdateLookup(ents, blocks, i, e, b);
    }
    forall j | 0 <= j < NENT ensures EntryOk(ents'[j], blocks, touched') {
      assert EntryOk(ents[j], blocks, touched);
    }
    hide Find, RefCount, Logical, EntryOk;
  }

  /** What a lookup of b sees when entry i changes and keeps its block. */
  lemma UpdateLookup(ents: seq<Entry>, blocks: seq<Block>, i: nat, e: Entry, b: nat)
    requires Unique(ents) && i < |ents| && ents[i].valid && e.valid && e.blk == ents[i].blk
    ensures RefCount(ents[i := e], b) == if b == e.blk then e.refcnt else RefCount(ents, b)
    ensures b < |blocks| ==> Logical(ents[i := e], blocks, b) == if b == e.blk then e.data else Logical(ents, blocks, b)
  {
    FindSame(ents, i, e, b);
    FindHit(ents, i, e.blk);
  }

  /** Giving back one reference. */
  lemma ReleaseInv(ents: seq<Entry>, blocks: seq<Block>, store: seq<Block>, held: multiset<nat>, touched: set<nat>, i: nat, e: Entry, dirty: bool)
    requires Inv(ents, blocks, store, held, touched) && i < NENT && ents[i].valid
    requires e == ents[i].(dirty := ents[i].dirty || dirty, refcnt := if ents[i].refcnt > 0 then ents[i].refcnt - 1 else 0)
    requires e.blk in touched ==> dirty || held[e.blk] > 1
    ensures Inv(ents[i := e], blocks, store, held - multiset{e.blk}, if dirty then touched - {e.blk} else touched)
  {
    FindHit(ents, i, e.blk);
    assert held[e.blk] == RefCount(ents, e.blk) && EntryOk(ents[i], blocks, touched);
    assert store[e.blk] == Logical(ents, blocks, e.blk) && store == store[e.blk := e.data];
    OneLess(held, e.blk, e.refcnt);
    hide Inv, Find;
    UpdateInv(ents, blocks, store, held, touched, i, e, held - multiset{e.blk}, if dirty then touched - {e.blk} else touched);
  }

  /** There is room for this many more references. */
  ghost predicate Roomy(healthy: bool, held: multiset<nat>, room: nat) {
    healthy && |held| + room <= NENT
  }

  /** Taking a reference and giving it back. */
  lemma OneMore(healthy: bool, held: multiset<nat>, b: nat, room: nat)
    ensures held + multiset{b} - multiset{b} == held && b in held + multiset{b}
    ensures Roomy(healthy, held, room + 1) ==> Roomy(healthy, held + multiset{b}, room) && Roomy(healthy, held, room)
  {
  }

  lemma OneLess(held: multiset<nat>, b: nat, n: nat)
    requires n == if held[b] > 0 then held[b] - 1 else 0
    ensures held - multiset{b} == held[b := n]
  {
  }

  /** What a lookup finds after a free or clean unreferenced entry took over an uncached block. */
  lemma LoadLookup(ents: seq<Entry>, blocks: seq<Block>, store: seq<Block>, held: multiset<nat>, touched: set<nat>,
                   i: nat, b: nat, x: nat)
    requires Inv(ents, blocks, store, held, touched)
    requires i < NENT && b < |blocks| && Find(ents, b) == NENT
    requires ents[i].valid ==> ents[i].refcnt == 0 && !ents[i].dirty
    ensures RefCount(ents[i := Entry(b, true, 1, false, blocks[b])], x) == (held + multiset{b})[x]
    ensures x < |blocks| ==> Logical(ents[i := Entry(b, true, 1, false, blocks[b])], blocks, x) == store[x]
  {
    var e := Entry(b, true, 1, false, blocks[b]);
    FindMoved(ents, i, e, x);
    assert RefCount(ents, x) == held[x];
    assert x < |blocks| ==> store[x] == Logical(ents, blocks, x);
    if Hit(ents[i], x) {
      FindHit(ents, i, x);
      assert EntryOk(ents[i], blocks, touched);
    }
  }

  /** Re-homing a free or clean unreferenced entry to a block read from the device. */
  lemma LoadInv(ents: seq<Entry>, blocks: seq<Block>, store: seq<Block>, held: multiset<nat>, touched: set<nat>,
                i: nat, b: nat)
    requires Inv(ents, blocks, store, held, touched)
    requires i < NENT && b < |blocks| && Find(ents, b) == NENT
    requires ents[i].valid ==> ents[i].refcnt == 0 && !ents[i].dirty
    ensures Inv(ents[i := Entry(b, true, 1, false, blocks[b])], blocks, store, held + multiset{b}, touched)
  {
    var e := Entry(b, true, 1, false, blocks[b]);
    var ents' := ents[i := e];
    FindMoved(ents, i, e, 0);
    forall x: nat ensures RefCount(ents', x) == (held + multiset{b})[x] {
      LoadLookup(ents, blocks, store, held, touched, i, b, x);
    }
    forall x: nat | x < |blocks| ensures Logical(ents', blocks, x) == store[x] {
      LoadLookup(ents, blocks, store, held, touched, i, b, x);
    }
    forall j | 0 <= j < NENT ensures EntryOk(ents'[j], blocks, touched) {
      assert EntryOk(ents[j], blocks, touched);
    }
  }

  ghost function CachedSet(ents: seq<Entry>): set<nat> {
    set i | 0 <= i < |ents| && ents[i].valid :: ents[i].blk
  }

  lemma CachedFind(ents: seq<Entry>, b: nat)
    ensures b in CachedSet(ents) <==> Find(ents, b) < |ents|
  {
    if b in CachedSet(ents) {
      var i :| 0 <= i < |ents| && ents[i].valid && ents[i].blk == b;
      assert Hit(ents[i], b);
    }
  }

  lemma CachedSame(ents: seq<Entry>, i: nat, e: Entry)
    requires i < |ents| && e.valid == ents[i].valid && e.blk == ents[i].blk
    ensures CachedSet(ents[i := e]) == CachedSet(ents)
  {
    var ents' := ents[i := e];
    forall j | 0 <= j < |ents| && ents[j].valid ensures ents[j].blk in CachedSet(ents') {
      assert ents'[j].valid && ents'[j].blk == ents[j].blk;
    }
    forall j | 0 <= j < |ents| && ents'[j].valid ensures ents'[j].blk in CachedSet(ents) {
      assert ents[j].valid && ents'[j].blk == ents[j].blk;
    }
  }

  lemma CachedMoved(ents: seq<Entry>, i: nat, e: Entry)
    requires i < |ents| && e.valid && !ents[i].valid
    ensures CachedSet(ents[i := e]) == CachedSet(ents) + {e.blk}
  {
    var ents' := ents[i := e];
    assert ents'[i].valid;
    forall j | 0 <= j < |ents| && ents[j].valid ensures ents[j].blk in CachedSet(ents') {
      assert ents'[j].valid && ents'[j].blk == ents[j].blk;
    }
  }

  lemma {:induction false} CachedCount(ents: seq<Entry>)
    requires Unique(ents) && forall i :: 0 <= i < |ents| ==> ents[i].valid
    ensures |CachedSet(ents)| == |ents|
  {
    if ents != [] {
      var n := |ents| - 1;
      var front := ents[..n];
      CachedSnoc(ents, n, front);
      hide CachedSet;
      CachedCount(front);
    }
  }

  /** The last of distinct entries adds its block to the cached ones. */
  lemma CachedSnoc(ents: seq<Entry>, n: nat, front: seq<Entry>)
    requires Unique(ents) && |ents| == n + 1 && front == ents[..n] && forall i :: 0 <= i < |ents| ==> ents[i].valid
    ensures CachedSet(ents) == CachedSet(front) + {ents[n].blk} && ents[n].blk !in CachedSet(front)
  {
    forall b | b in CachedSet(front) ensures b in CachedSet(ents) && b != ents[n].blk {
      var i :| 0 <= i < n && front[i].valid && front[i].blk == b;
      assert ents[i].valid && ents[i].blk == b;
    }
    forall b | b in CachedSet(ents) ensures b in CachedSet(front) || b == ents[n].blk {
      var i :| 0 <= i < |ents| && ents[i].valid && ents[i].blk == b;
      assert i < n ==> front[i].valid && front[i].blk == b;
    }
  }

  /** If every entry is pinned there are at least NENT references. */
  lemma AllPinnedHeld(ents: seq<Entry>, blocks: seq<Block>, store: seq<Block>, held: multiset<nat>, touched: set<nat>)
    requires Inv(ents, blocks, store, held, touched) && AllPinned(ents)
    ensures |held| >= NENT
  {
    assert forall i :: 0 <= i < |ents| ==> Pinned(ents[i]);
    CachedCount(ents);
    var s := CachedSet(ents);
    forall b | b in s ensures held[b] >= 1 {
      var i :| 0 <= i < |ents| && ents[i].valid && ents[i].blk == b;
      assert Pinned(ents[i]);
      FindHit(ents, i, b);
      assert held[b] == RefCount(ents, b);
    }
    assert multiset(s) <= held;
    assert held == multiset(s) + (held - multiset(s));
  }

  ghost predicate HasFree(ents: seq<Entry>) {
    exists i :: 0 <= i < |ents| && !ents[i].valid
  }

  ghost predicate Pinned(e: Entry) {
    e.valid && e.refcnt > 0
  }

  ghost predicate AllPinned(ents: seq<Entry>) {
    forall i :: 0 <= i < |ents| ==> Pinned(ents[i])
  }

  /** No pinned entry is evicted, re-homed or changed in its contents. */
  ghost predicate PinsKept(ents: seq<Entry>, ents': seq<Entry>) {
    && |ents| == |ents'|
    && forall i :: 0 <= i < |ents| && Pinned(ents[i]) ==>
         Pinned(ents'[i]) && ents'[i].blk == ents[i].blk && ents'[i].data == ents[i].data
  }

  /** An entry with one reference fewer, dirty from now on when the caller says so. */
  function Released(e: Entry, dirty: bool): (r: Entry)
    ensures r.blk == e.blk && r.valid == e.valid && r.data == e.data
    ensures r.dirty <==> e.dirty || dirty
    ensures r.refcnt == if e.refcnt == 0 then 0 else e.refcnt - 1
  {
    e.(dirty := e.dirty || dirty, refcnt := if e.refcnt > 0 then e.refcnt - 1 else 0)
  }

  class Cache {
    const dev: Device
    var ents: seq<Entry>
    ghost var store: seq<Block>   // the flat block store the cache stands for
    ghost var held: multiset<nat> // the outstanding references, one element for each
    ghost var touched: set<nat>   // blocks written through a reference and not yet released dirty

    ghost predicate Valid()
      reads this, dev
    {
      Inv(ents, dev.blocks, store, held, touched)
    }

    constructor (dev: Device)
      ensures Valid() && this.dev == dev
      ensures store == dev.blocks && held == multiset{} && touched == {}
    {
      this.dev := dev;
      ents := seq(NENT, i => EMPTY_ENTRY);
      store, held, touched := dev.blocks, multiset{}, {};
      new;
    }

    /** Linear lookup of a matching block. */
    method FindEntry(b: nat) returns (i: nat)
      requires |ents| == NENT
      ensures i == Find(ents, b)
    {
      i := 0;
      while i < NENT
        invariant i <= NENT
        invariant forall j :: 0 <= j < i ==> !Hit(ents[j], b)
      {
        if ents[i].valid && ents[i].blk == b {
          return;
        }
        i := i + 1;
      }
    }

    /** Victim choice: a free slot, else an unreferenced clean entry, else an unreferenced dirty one. */
    method PickVictim() returns (i: nat)
      requires |ents| == NENT
      ensures i <= NENT
      ensures i == NENT ==> forall j :: 0 <= j < NENT ==> ents[j].valid && ents[j].refcnt > 0
      ensures i < NENT && ents[i].valid ==>
        && ents[i].refcnt == 0
        && (forall j :: 0 <= j < NENT ==> ents[j].valid)
        && (ents[i].dirty ==> forall j :: 0 <= j < NENT && ents[j].refcnt == 0 ==> ents[j].dirty)
      ensures i < NENT ==> forall j :: 0 <= j < i ==>
        ents[j].valid && (ents[i].valid ==> ents[j].refcnt > 0 || (ents[j].dirty && !ents[i].dirty))
    {
      i := 0;
      while i < NENT
        invariant i <= NENT
        invariant forall j :: 0 <= j < i ==> ents[j].valid
      {
        if !ents[i].valid { return; }
        i := i + 1;
      }
      i := 0;
      while i < NENT
        invariant i <= NENT
        invariant forall j :: 0 <= j < i && ents[j].refcnt == 0 ==> ents[j].dirty
      {
        if ents[i].refcnt == 0 && !ents[i].dirty { return; }
        i := i + 1;
      }
      i := 0;
      while i < NENT
        invariant i <= NENT
        invariant forall j :: 0 <= j < i ==> ents[j].refcnt > 0
      {
        if ents[i].refcnt == 0 { return; }
        i := i + 1;
      }
    }

    /** Writes entry i back if it is dirty. Never changes the store the cache stands for. */
    method Writeback(i: nat) returns (rc: int)
      requires Valid() && i < NENT
      modifies this`ents, dev`blocks
      ensures Valid()
      ensures (rc == 0 || rc == -EIO) && (dev.healthy ==> rc == 0)
      ensures rc < 0 ==> ents == old(ents)
      ensures rc == 0 ==> ents == old(ents)[i := old(ents[i]).(dirty := old(ents[i]).dirty && !old(ents[i]).valid)]
    {
      var e := ents[i];
      if !e.valid || !e.dirty {
        assert ents == ents[i := e];
        return 0;
      }
      WritebackInv(ents, dev.blocks, store, held, touched, i);
      var n := dev.WriteAt(e.blk, e.data);
      if n != BLKSZ {
        return n;
      }
      ents := ents[i := e.(dirty := false)];
      return 0;
    }

    /** cache_get_block. A hit or a miss pins the block; the store never changes, and no entry with
        outstanding references is evicted, re-homed or changed. */
    method GetBlock(pos: nat) returns (rc: int)
      requires Valid()
      modifies this`ents, this`held, dev
      ensures Valid() && |store| == |dev.blocks|
      ensures rc == 0 ==> pos % BLKSZ == 0 && pos / BLKSZ < |store| && held == old(held) + multiset{pos / BLKSZ}
      ensures rc != 0 ==> held == old(held)
      ensures rc == 0 || rc == -EINVAL || rc == -ENOMEM || rc == -EIO
      ensures rc == -EINVAL <==> pos % BLKSZ != 0
      ensures rc == -ENOMEM <==> pos % BLKSZ == 0 && AllPinned(old(ents)) && pos / BLKSZ !in CachedSet(old(ents))
      ensures rc == -ENOMEM ==> ents == old(ents)
      ensures PinsKept(old(ents), ents)
      ensures dev.healthy && !AllPinned(old(ents)) && pos % BLKSZ == 0 && pos / BLKSZ < |store| ==> rc == 0
      ensures rc == 0 && HasFree(old(ents)) ==>
        && CachedSet(ents) == CachedSet(old(ents)) + {pos / BLKSZ}
        && dev.readLog == old(dev.readLog) + if pos / BLKSZ in CachedSet(old(ents)) then [] else [pos / BLKSZ]
      ensures pos % BLKSZ == 0 && pos / BLKSZ in CachedSet(old(ents)) ==>
        rc == 0 && CachedSet(ents) == CachedSet(old(ents)) && dev.readLog == old(dev.readLog)
    {
      if pos % BLKSZ != 0 {
        return -EINVAL;
      }
      var b := pos / BLKSZ;
      var i := FindEntry(b);
      CachedFind(ents, b);
      if i < NENT {
        var e := ents[i].(refcnt := ents[i].refcnt + 1);
        assert held[b] == RefCount(ents, b) && EntryOk(ents[i], dev.blocks, touched);
        assert store[b] == Logical(ents, dev.blocks, b) && store == store[b := e.data];
        UpdateInv(ents, dev.blocks, store, held, touched, i, e, held + multiset{b}, touched);
        CachedSame(ents, i, e);
        ents, held := ents[i := e], held + multiset{b};
        return 0;
      }
      rc := Miss(b);
    }

    /** The miss path of cache_get_block. */
    method Miss(b: nat) returns (rc: int)
      requires Valid() && Find(ents, b) == NENT
      modifies this`ents, this`held, dev
      ensures Valid() && |store| == |dev.blocks|
      ensures rc == 0 ==> b < |store| && held == old(held) + multiset{b}
      ensures rc != 0 ==> held == old(held)
      ensures rc == 0 || rc == -ENOMEM || rc == -EIO
      ensures rc == -ENOMEM <==> AllPinned(old(ents))
      ensures rc == -ENOMEM ==> ents == old(ents)
      ensures PinsKept(old(ents), ents)
      ensures dev.healthy && !AllPinned(old(ents)) && b < |store| ==> rc == 0
      ensures rc == 0 && HasFree(old(ents)) ==>
        CachedSet(ents) == CachedSet(old(ents)) + {b} && dev.readLog == old(dev.readLog) + [b]
      ensures rc == 0 ==> exists i :: 0 <= i < NENT && !Pinned(old(ents)[i]) && ents == old(ents)[i := Entry(b, true, 1, false, store[b])]
    {
      var i := PickVictim();
      if i == NENT {
        return -ENOMEM;
      }
      if ents[i].valid {
        rc := Writeback(i);
        if rc != 0 {
          return;
        }
        FindSame(old(ents), i, ents[i], b);
      }
      rc := Load(i, b);
    }

    /** The block is read into the written-back, unreferenced entry i. */
    method Load(i: nat, b: nat) returns (rc: int)
      requires Valid() && i < NENT && Find(ents, b) == NENT && (ents[i].valid ==> ents[i].refcnt == 0 && !ents[i].dirty)
      modifies this`ents, this`held, dev`readLog
      ensures Valid() && |store| == |dev.blocks| && (rc == 0 || rc == -EIO) && (dev.healthy && b < |store| ==> rc == 0)
      ensures rc != 0 ==> ents == old(ents) && held == old(held)
      ensures rc == 0 ==> b < |store| && held == old(held) + multiset{b} && dev.readLog == old(dev.readLog) + [b]
      ensures rc == 0 ==> ents == old(ents)[i := Entry(b, true, 1, false, store[b])]
      ensures rc == 0 && !old(ents)[i].valid ==> CachedSet(ents) == CachedSet(old(ents)) + {b}
    {
      var n, data := dev.ReadAt(b);
      if n != BLKSZ {
        return n;
      }
      LoadInv(ents, dev.blocks, store, held, touched, i, b);
      if !ents[i].valid {
        CachedMoved(ents, i, Entry(b, true, 1, false, data));
      }
      assert data == store[b] by {
        assert store[b] == Logical(ents, dev.blocks, b);
      }
      ents, held := ents[i := Entry(b, true, 1, false, data)], held + multiset{b};
      return 0;
    }

    /** Reading through a reference shows the block of the store. */
    function Peek(b: nat): (data: Block)
      requires Valid() && b in held
      reads this, dev
      ensures b < |store| && data == store[b]
    {
      assert held[b] == RefCount(ents, b);
      var i := Find(ents, b);
      assert EntryOk(ents[i], dev.blocks, touched);
      assert store[b] == Logical(ents, dev.blocks, b);
      ents[i].data
    }

    /** Writing through a reference. */
    method Poke(b: nat, data: Block)
      requires Valid() && b in held
      modifies this`ents, this`store, this`touched
      ensures Valid() && CachedSet(ents) == CachedSet(old(ents))
      ensures b < |old(store)| && store == old(store)[b := data] && touched == old(touched) + {b}
    {
      assert held[b] == RefCount(ents, b);
      var i := FindEntry(b);
      assert EntryOk(ents[i], dev.blocks, touched);
      var e := ents[i].(data := data);
      assert held == held[b := e.refcnt];
      UpdateInv(ents, dev.blocks, store, held, touched, i, e, held, touched + {b});
      CachedSame(ents, i, e);
      ents, store, touched := ents[i := e], store[b := data], touched + {b};
    }

    /** cache_release_block. Dropping the last reference to a block with unreleased writes must say dirty. */
    method ReleaseBlock(b: nat, dirty: bool)
      requires Valid()
      requires b in touched ==> dirty || held[b] > 1
      modifies this`ents, this`held, this`touched
      ensures Valid() && CachedSet(ents) == CachedSet(old(ents))
      ensures held == old(held) - multiset{b}
      ensures touched == if dirty then old(touched) - {b} else old(touched)
      ensures ents == var i := Find(old(ents), b);
        if i == NENT then old(ents) else old(ents)[i := Released(old(ents)[i], dirty)]
    {
      assert held[b] == RefCount(ents, b);
      var i := FindEntry(b);
      if i == NENT {
        touched := if dirty then touched - {b} else touched;
        assert held == held - multiset{b};
        return;
      }
      var e := Released(ents[i], dirty);
      ghost var touched' := if dirty then touched - {b} else touched;
      ReleaseInv(ents, dev.blocks, store, held, touched, i, e, dirty);
      CachedSame(ents, i, e);
      ents, held, touched := ents[i := e], held - multiset{b}, touched';
    }

    /** The device is healthy and there is room for this many more references. */
    ghost predicate Quiet(room: nat)
      reads this
    {
      Roomy(dev.healthy, held, room)
    }

    /** Whether block b is referenced. */
    method Holds(b: nat) returns (holds: bool)
      requires Valid()
      ensures holds <==> b in held
    {
      var i := FindEntry(b);
      holds := i < NENT && ents[i].refcnt > 0;
      assert held[b] == RefCount(ents, b);
    }

    /** The caller's view of cache_get_block: the block is pinned, or nothing changed. */
    method Pin(b: nat) returns (ok: bool)
      requires Valid()
      modifies this`ents, this`held, dev
      ensures Valid()
      ensures ok ==> b < |store| && held == old(held) + multiset{b}
      ensures !ok ==> held == old(held)
      ensures old(Quiet(1)) && b < |store| ==> ok
    {
      if AllPinned(ents) {
        AllPinnedHeld(ents, dev.blocks, store, held, touched);
      }
      var rc := GetBlock(b * BLKSZ);
      ok := rc == 0;
    }

    /** cache_flush. On success every block without unreleased writes is on the device. */
    method Flush() returns (rc: int)
      requires Valid()
      modifies this`ents, dev`blocks
      ensures Valid() && CachedSet(ents) == CachedSet(old(ents))
      ensures rc == 0 || rc == -EIO
      ensures dev.healthy ==> rc == 0
      ensures rc == 0 ==> forall b :: 0 <= b < |store| && b !in touched ==> dev.blocks[b] == store[b]
      ensures rc == 0 && held == multiset{} ==> dev.blocks == store
      ensures |ents| == NENT && forall i :: 0 <= i < NENT ==>
        ents[i] == old(ents)[i] || (old(ents)[i].valid && ents[i] == old(ents)[i].(dirty := false))
    {
      var i := 0;
      while i < NENT
        invariant i <= NENT
        invariant Valid() && CachedSet(ents) == CachedSet(old(ents))
        invariant forall j :: 0 <= j < i && ents[j].valid ==> !ents[j].dirty
        invariant |ents| == NENT && forall j :: 0 <= j < NENT ==>
          ents[j] == old(ents)[j] || (old(ents)[j].valid && ents[j] == old(ents)[j].(dirty := false))
      {
        ghost var before := ents;
        rc := Writeback(i);
        if rc != 0 {
          return;
        }
        CachedSame(before, i, ents[i]);
        i := i + 1;
      }
      forall b | 0 <= b < |store| && b !in touched ensures dev.blocks[b] == store[b] {
        assert store[b] == Logical(ents, dev.blocks, b);
        var k := Find(ents, b);
        if k < NENT {
          assert EntryOk(ents[k], dev.blocks, touched);
        }
      }
      return 0;
    }
  }
}

/** Whole runs of a client over the cache, against the same run over a flat store. */
module CacheRuns {
  import opened Base
  import opened BlockCache

  /** What a client does: take and give back references, look at and change blocks it holds, flush. It may hold
      references to any number of blocks, and several to one. */
  datatype Op = GetOp(b: nat) | LookOp(b: nat) | ChangeOp(b: nat, data: Block) | PutOp(b: nat, dirty: bool) | FlushOp

  /** What an operation gave back: whether it succeeded, and the block a look saw. */
  datatype Outcome = Outcome(ok: bool, seen: Block)

  /** What a client needs no cache for: a flat store, the references it holds, and the blocks it has changed and not yet
      given back dirty. */
  datatype Flat = Flat(store: seq<Block>, held: multiset<nat>, changed: set<nat>)

  /** What an operation does. Only what is held can be looked at, changed or given back, and a changed block is given
      back dirty. */
  ghost function FlatStep(f: Flat, op: Op, out: Outcome): (r: Flat)
    ensures |r.store| == |f.store|
  {
    if !out.ok then f
    else
      match op
      case GetOp(b) => f.(held := f.held + multiset{b})
      case ChangeOp(b, data) => if b < |f.store| then f.(store := f.store[b := data], changed := f.changed + {b}) else f
      case PutOp(b, dirty) => f.(held := f.held - multiset{b}, changed := if dirty then f.changed - {b} else f.changed)
      case _ => f
  }

  /** What the client is told: a look sees the block of the flat store, and an operation on a block succeeds exactly when
      it may be made. */
  ghost predicate Honest(f: Flat, op: Op, out: Outcome) {
    match op
    case GetOp(b) => out.ok ==> b < |f.store|
    case LookOp(b) => (out.ok <==> b in f.held) && (out.ok ==> b < |f.store| && out.seen == f.store[b])
    case ChangeOp(b, data) => (out.ok <==> b in f.held) && (out.ok ==> b < |f.store|)
    case PutOp(b, dirty) => out.ok <==> b in f.held && (dirty || b !in f.changed)
    case FlushOp => true
  }

  ghost function FlatRun(f: Flat, ops: seq<Op>, outs: seq<Outcome>): (r: Flat)
    requires |ops| == |outs|
    ensures |r.store| == |f.store|
  {
    if ops == [] then f
    else
      var n := |ops| - 1;
      FlatStep(FlatRun(f, ops[..n], outs[..n]), ops[n], outs[n])
  }

  /** Every operation of the run told the client what the flat store and its references say at that moment. */
  ghost predicate HonestRun(f: Flat, ops: seq<Op>, outs: seq<Outcome>)
    requires |ops| == |outs|
  {
    ops == [] ||
    var n := |ops| - 1;
    HonestRun(f, ops[..n], outs[..n]) && Honest(FlatRun(f, ops[..n], outs[..n]), ops[n], outs[n])
  }

  /** The blocks a run asks for. */
  function Blocks(ops: seq<Op>): set<nat> {
    set k | 0 <= k < |ops| && ops[k].GetOp? :: ops[k].b
  }

  lemma SubsetSize<T>(a: set<T>, b: set<T>)
    requires a < b
    ensures |a| < |b|
  {
    var x :| x in b && x !in a;
    assert a <= b - {x};
    assert |b - {x}| == |b| - 1;
    SubsetLeq(a, b - {x});
  }

  lemma {:induction false} SubsetLeq<T>(a: set<T>, b: set<T>)
    requires a <= b
    ensures |a| <= |b|
  {
    if a != {} {
      var x :| x in a;
      SubsetLeq(a - {x}, b - {x});
    }
  }

  /** While the cache holds fewer blocks than it has entries, a miss finds a free slot. */
  lemma RoomForMiss(ents: seq<Entry>, all: set<nat>, b: nat)
    requires |ents| == NENT && Unique(ents)
    requires CachedSet(ents) <= all && |all| <= NENT && b in all && b !in CachedSet(ents)
    ensures HasFree(ents)
  {
    SubsetSize(CachedSet(ents), all);
    if !HasFree(ents) {
      CachedCount(ents);
    }
  }

  ghost predicate ReadOnce(c: Cache)
    reads c, c.dev
  {
    NoDup(c.dev.readLog) && forall b: nat :: b in c.dev.readLog <==> b in CachedSet(c.ents)
  }

  /** A run small enough for the cache: a healthy device and at most NENT distinct blocks. */
  ghost predicate Small(c: Cache, all: set<nat>)
    reads c
  {
    c.dev.healthy && |all| <= NENT && forall b :: b in all ==> b < |c.store|
  }

  /** The client's view of the cache. */
  ghost function View(c: Cache, changed: set<nat>): Flat
    reads c
  {
    Flat(c.store, c.held, changed)
  }

  /** Every block without changes still to be given back is on the device. */
  ghost predicate OnDevice(c: Cache, changed: set<nat>)
    reads c, c.dev
  {
    |c.dev.blocks| == |c.store| && forall b :: 0 <= b < |c.store| && b !in changed ==> c.dev.blocks[b] == c.store[b]
  }

  /** Runs a client. Every operation does and answers what it would over a flat store, whatever was evicted, written back
      or flushed before and whatever else is held; after a flush that succeeded the device has it all. On a healthy
      device, a run from a fresh cache over at most NENT distinct blocks gets every block it asks for, never evicts, and
      reads each of them exactly once. */
  method Replay(c: Cache, ops: seq<Op>) returns (outs: seq<Outcome>, ghost changed: set<nat>)
    requires c.Valid() && c.touched == {}
    modifies c, c.dev
    ensures c.Valid() && |outs| == |ops|
    ensures View(c, changed) == FlatRun(old(View(c, {})), ops, outs)
    ensures HonestRun(old(View(c, {})), ops, outs)
    ensures ops != [] && ops[|ops| - 1].FlushOp? && outs[|ops| - 1].ok ==> OnDevice(c, changed)
    ensures old(Small(c, Blocks(ops)) && c.dev.readLog == [] && CachedSet(c.ents) == {}) ==>
      && GotAll(ops, outs)
      && NoDup(c.dev.readLog)
      && (forall b: nat :: b in c.dev.readLog <==> b in Blocks(ops))
  {
    outs := [];
    ghost var f0 := View(c, {});
    assert ops[..0] == [] && Blocks([]) == {} && FlatRun(f0, [], outs) == f0 && HonestRun(f0, [], outs) && GotAll([], outs);
    hide Inv, CachedSet, Blocks, FlatStep, Honest, FlatRun, HonestRun, OnDevice, Small, GotAll;
    var pending: set<nat> := {};
    ghost var all := Blocks(ops);
    ghost var small := Small(c, all) && c.dev.readLog == [] && CachedSet(c.ents) == {};
    for k := 0 to |ops|
      invariant c.Valid() && c.touched <= pending && |outs| == k
      invariant View(c, pending) == FlatRun(f0, ops[..k], outs)
      invariant HonestRun(f0, ops[..k], outs)
      invariant k > 0 && ops[k - 1].FlushOp? && outs[k - 1].ok ==> OnDevice(c, pending)
      invariant small ==> Small(c, all) && ReadOnce(c) && CachedSet(c.ents) == Blocks(ops[..k])
      invariant small ==> GotAll(ops[..k], outs)
    {
      BlocksGrow(ops, k);
      var out;
      out, pending := Step(c, ops[k], pending, all, small);
      RunSnoc(f0, ops, outs, out);
      GotSnoc(ops, outs, out);
      outs := outs + [out];
    }
    assert ops[..|ops|] == ops;
    changed := pending;
  }

  /** Every block asked for was got and every flush went through. */
  ghost predicate GotAll(ops: seq<Op>, outs: seq<Outcome>)
    requires |ops| == |outs|
  {
    forall k :: 0 <= k < |ops| && (ops[k].GetOp? || ops[k].FlushOp?) ==> outs[k].ok
  }

  lemma GotSnoc(ops: seq<Op>, outs: seq<Outcome>, out: Outcome)
    requires |outs| < |ops|
    ensures GotAll(ops[..|outs|], outs) && (ops[|outs|].GetOp? || ops[|outs|].FlushOp? ==> out.ok) ==> GotAll(ops[..|outs| + 1], outs + [out])
  {
    var more := ops[..|outs| + 1];
    assert forall k :: 0 <= k < |outs| ==> more[k] == ops[..|outs|][k];
  }

  lemma RunSnoc(f: Flat, ops: seq<Op>, outs: seq<Outcome>, out: Outcome)
    requires |outs| < |ops|
    ensures FlatRun(f, ops[..|outs| + 1], outs + [out]) == FlatStep(FlatRun(f, ops[..|outs|], outs), ops[|outs|], out)
    ensures HonestRun(f, ops[..|outs|], outs) && Honest(FlatRun(f, ops[..|outs|], outs), ops[|outs|], out) ==>
      HonestRun(f, ops[..|outs| + 1], outs + [out])
  {
    assert ops[..|outs| + 1][..|outs|] == ops[..|outs|];
    assert (outs + [out])[..|outs|] == outs;
  }

  /** One operation; changed has the blocks that were changed and not yet given back dirty. Looking at, changing or
      giving back a block that is not held is refused, and so is giving back a changed block as clean. */
  method Step(c: Cache, op: Op, changed: set<nat>, ghost all: set<nat>, ghost small: bool) returns (out: Outcome, changed': set<nat>)
    requires c.Valid() && c.touched <= changed
    requires small ==> Small(c, all) && ReadOnce(c) && CachedSet(c.ents) <= all && (op.GetOp? ==> op.b in all)
    modifies c, c.dev
    ensures c.Valid() && c.touched <= changed'
    ensures Honest(old(View(c, changed)), op, out)
    ensures View(c, changed') == FlatStep(old(View(c, changed)), op, out)
    ensures op.FlushOp? && out.ok ==> OnDevice(c, changed')
    ensures small ==> (op.GetOp? || op.FlushOp? ==> out.ok) && ReadOnce(c)
    ensures small ==> CachedSet(c.ents) == CachedSet(old(c.ents)) + if op.GetOp? then {op.b} else {}
  {
    StoreSize(c);
    hide Inv, CachedSet, Small;
    out, changed' := Outcome(false, ZERO_BLOCK), changed;
    match op {
      case FlushOp =>
        var ok := Flush(c);
        out := Outcome(ok, ZERO_BLOCK);
      case GetOp(b) =>
        var ok := Pin(c, b, all, small);
        out := Outcome(ok, ZERO_BLOCK);
      case LookOp(b) =>
        var holds := c.Holds(b);
        if holds {
          out := Outcome(true, c.Peek(b));
        }
      case ChangeOp(b, data) =>
        var ok;
        ok, changed' := Change(c, b, data, changed);
        out := Outcome(ok, ZERO_BLOCK);
      case PutOp(b, dirty) =>
        var ok;
        ok, changed' := Put(c, b, dirty, changed);
        out := Outcome(ok, ZERO_BLOCK);
    }
  }

  method Flush(c: Cache) returns (ok: bool)
    requires c.Valid()
    modifies c`ents, c.dev`blocks
    ensures c.Valid() && CachedSet(c.ents) == CachedSet(old(c.ents)) && (c.dev.healthy ==> ok)
    ensures ok ==> OnDevice(c, c.touched)
  {
    var rc := c.Flush();
    StoreSize(c);
    ok := rc == 0;
  }

  method Change(c: Cache, b: nat, data: Block, changed: set<nat>) returns (ok: bool, changed': set<nat>)
    requires c.Valid() && c.touched <= changed
    modifies c`ents, c`store, c`touched
    ensures c.Valid() && c.touched <= changed' && CachedSet(c.ents) == CachedSet(old(c.ents))
    ensures (ok <==> b in c.held) && (ok ==> b < |old(c.store)|)
    ensures c.store == (if ok then old(c.store)[b := data] else old(c.store)) && changed' == if ok then changed + {b} else changed
  {
    hide Inv, CachedSet;
    changed' := changed;
    ok := c.Holds(b);
    if ok {
      c.Poke(b, data);
      changed' := changed + {b};
    }
  }

  method Put(c: Cache, b: nat, dirty: bool, changed: set<nat>) returns (ok: bool, changed': set<nat>)
    requires c.Valid() && c.touched <= changed
    modifies c`ents, c`held, c`touched
    ensures c.Valid() && c.touched <= changed' && CachedSet(c.ents) == CachedSet(old(c.ents))
    ensures ok <==> b in old(c.held) && (dirty || b !in changed)
    ensures c.held == (if ok then old(c.held) - multiset{b} else old(c.held)) && changed' == if ok && dirty then changed - {b} else changed
  {
    hide Inv, CachedSet;
    changed' := changed;
    ok := c.Holds(b);
    ok := ok && (dirty || b !in changed);
    if ok {
      c.ReleaseBlock(b, dirty);
      changed' := if dirty then changed - {b} else changed;
    }
  }

  lemma StoreSize(c: Cache)
    requires c.Valid()
    ensures |c.store| == |c.dev.blocks|
  {
  }

  lemma BlocksGrow(ops: seq<Op>, k: nat)
    requires k < |ops|
    ensures Blocks(ops[..k+1]) == Blocks(ops[..k]) + (if ops[k].GetOp? then {ops[k].b} else {})
    ensures Blocks(ops[..k+1]) <= Blocks(ops)
  {
    forall i | 0 <= i <= k && ops[i].GetOp? ensures ops[i].b in Blocks(ops[..k+1]) {
      assert ops[..k+1][i] == ops[i];
    }
    forall b | b in Blocks(ops[..k]) ensures b in Blocks(ops[..k+1]) {
      var i :| 0 <= i < k && ops[..k][i].GetOp? && ops[..k][i].b == b;
      assert ops[..k+1][i] == ops[i];
    }
    forall b | b in Blocks(ops[..k+1]) ensures b in Blocks(ops) && (b in Blocks(ops[..k]) || (ops[k].GetOp? && b == ops[k].b)) {
      var i :| 0 <= i <= k && ops[..k+1][i].GetOp? && ops[..k+1][i].b == b;
      assert ops[i].b == b;
      assert i < k ==> ops[..k][i].b == b;
    }
  }

  /** cache_get_block for a client that may hold other blocks. */
  method Pin(c: Cache, b: nat, ghost all: set<nat>, ghost small: bool) returns (ok: bool)
    requires c.Valid()
    requires small ==> Small(c, all) && ReadOnce(c) && CachedSet(c.ents) <= all && b in all
    modifies c`ents, c`held, c.dev
    ensures c.Valid() && c.held == (if ok then old(c.held) + multiset{b} else old(c.held)) && (ok ==> b < |c.store|)
    ensures small ==> ok && ReadOnce(c) && CachedSet(c.ents) == CachedSet(old(c.ents)) + {b}
  {
    if small && b !in CachedSet(c.ents) {
      RoomForMiss(c.ents, all, b);
      FreeUnpinned(c.ents);
    }
    var rc := c.GetBlock(b * BLKSZ);
    ok := rc == 0;
  }

  lemma FreeUnpinned(ents: seq<Entry>)
    requires HasFree(ents)
    ensures !AllPinned(ents)
  {
  }
}
