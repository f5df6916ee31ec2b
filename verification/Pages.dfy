/** The physical page allocator of kernel/memory.c: a list of chunks of consecutive free pages, best fit. The
    list threaded through the free pages is a sequence here, and pages are named by their page number. */
module Pages {
  import opened Base

  datatype Chunk = Chunk(base: nat, cnt: nat)

  predicate Within(n: nat, base: nat, cnt: nat) {
    base <= n < base + cnt
  }

  function Range(base: nat, cnt: nat): set<nat> {
    set n: nat | n < base + cnt && Within(n, base, cnt)
  }

  /** The pages on the list. */
  ghost function FreeSet(cs: seq<Chunk>): set<nat> {
    if cs == [] then {} else Range(cs[0].base, cs[0].cnt) + FreeSet(cs[1..])
  }

  /** Chunks are not empty and no page is on the list twice. */
  ghost predicate Good(cs: seq<Chunk>) {
    cs != [] ==> cs[0].cnt > 0 && Range(cs[0].base, cs[0].cnt) !! FreeSet(cs[1..]) && Good(cs[1..])
  }

  lemma {:induction false} RangeSize(base: nat, cnt: nat)
    ensures |Range(base, cnt)| == cnt
  {
    if cnt > 0 {
      RangeSize(base, cnt - 1);
      assert Range(base, cnt) == Range(base, cnt - 1) + {base + cnt - 1};
    } else {
      assert Range(base, 0) == {};
    }
  }

  lemma RangeSplit(base: nat, k: nat, cnt: nat)
    requires k <= cnt
    ensures Range(base, cnt) == Range(base, k) + Range(base + k, cnt - k) && Range(base, k) !! Range(base + k, cnt - k)
  {
  }

  lemma {:induction false} ChunkIsFree(cs: seq<Chunk>, i: nat)
    requires i < |cs|
    ensures Range(cs[i].base, cs[i].cnt) <= FreeSet(cs)
  {
    if i > 0 {
      ChunkIsFree(cs[1..], i - 1);
    }
  }

  lemma {:induction false} FreeIsChunk(cs: seq<Chunk>, n: nat) returns (i: nat)
    requires n in FreeSet(cs)
    ensures i < |cs| && n in Range(cs[i].base, cs[i].cnt)
  {
    if n in Range(cs[0].base, cs[0].cnt) {
      i := 0;
    } else {
      i := FreeIsChunk(cs[1..], n);
      i := i + 1;
    }
  }

  /** Taking the first k pages of chunk i off the list. */
  function Take(cs: seq<Chunk>, i: nat, k: nat): seq<Chunk>
    requires i < |cs| && k <= cs[i].cnt
  {
    if cs[i].cnt > k then cs[i := Chunk(cs[i].base + k, cs[i].cnt - k)] else cs[..i] + cs[i + 1..]
  }

  lemma {:induction false} TakeFrees(cs: seq<Chunk>, i: nat, k: nat)
    requires Good(cs) && i < |cs| && 0 < k <= cs[i].cnt
    ensures Good(Take(cs, i, k))
    ensures FreeSet(cs) == FreeSet(Take(cs, i, k)) + Range(cs[i].base, k)
    ensures FreeSet(Take(cs, i, k)) !! Range(cs[i].base, k)
  {
    var t := Take(cs, i, k);
    if i == 0 {
      RangeSplit(cs[0].base, k, cs[0].cnt);
      if cs[0].cnt > k {
        assert t[1..] == cs[1..];
      } else {
        assert t == cs[1..];
      }
    } else {
      TakeFrees(cs[1..], i - 1, k);
      assert t[1..] == Take(cs[1..], i - 1, k) && t[0] == cs[0];
    }
  }

  /** Chunk i is the smallest that holds k pages, and the first of that size. */
  ghost predicate BestFit(cs: seq<Chunk>, i: nat, k: nat) {
    && i < |cs| && cs[i].cnt >= k
    && (forall j :: 0 <= j < |cs| && cs[j].cnt >= k ==> cs[i].cnt <= cs[j].cnt)
    && forall j :: 0 <= j < i ==> cs[j].cnt < k || cs[j].cnt > cs[i].cnt
  }

  /** The scan of the chunk list. */
  method FindBest(cs: seq<Chunk>, cnt: nat) returns (best: int)
    ensures best == -1 || 0 <= best < |cs|
    ensures best == -1 <==> forall j :: 0 <= j < |cs| ==> cs[j].cnt < cnt
    ensures best >= 0 ==> BestFit(cs, best, cnt)
  {
    best := -1;
    for i := 0 to |cs|
      invariant -1 <= best < i
      invariant best == -1 ==> forall j :: 0 <= j < i ==> cs[j].cnt < cnt
      invariant best >= 0 ==> BestFit(cs[..i], best, cnt)
    {
      if cs[i].cnt >= cnt {
        if best == -1 || cs[i].cnt < cs[best].cnt {
          best := i;
        }
      }
    }
    assert cs[..|cs|] == cs;
  }

  lemma OnePage(p: nat)
    ensures Range(p, 1) == {p}
  {
  }

  /** No chunk is large enough for a page exactly when no page is free. */
  lemma NoneFree(cs: seq<Chunk>)
    requires Good(cs)
    ensures (forall j :: 0 <= j < |cs| ==> cs[j].cnt < 1) <==> FreeSet(cs) == {}
  {
    if cs != [] {
      assert cs[0].base in Range(cs[0].base, cs[0].cnt);
    }
  }

  class PagePool {
    var chunks: seq<Chunk>
    /** Every page the allocator was ever given, and those handed out. */
    ghost var all: set<nat>
    ghost var live: set<nat>

    ghost predicate Valid()
      reads this
    {
      Good(chunks) && FreeSet(chunks) !! live && FreeSet(chunks) + live == all && 0 !in all
    }

    /** memory_init: one chunk holds everything. */
    constructor (base: nat, cnt: nat)
      requires base > 0
      ensures Valid() && FreeSet(chunks) == Range(base, cnt) == all && live == {}
    {
      chunks := if cnt > 0 then [Chunk(base, cnt)] else [];
      all, live := Range(base, cnt), {};
      new;
      assert cnt > 0 ==> chunks[1..] == [] && FreeSet([]) == {};
    }

    /** alloc_phys_pages: the head of the best-fitting chunk; fails only when no chunk is large enough. */
    method AllocPages(cnt: nat) returns (pp: Option<nat>)
      requires Valid()
      modifies this
      ensures Valid() && all == old(all)
      ensures pp.None? <==> cnt == 0 || forall j :: 0 <= j < |old(chunks)| ==> old(chunks)[j].cnt < cnt
      ensures pp.None? ==> chunks == old(chunks) && live == old(live)
      ensures pp.Some? ==> Range(pp.value, cnt) <= old(FreeSet(chunks)) && FreeSet(chunks) == old(FreeSet(chunks)) - Range(pp.value, cnt)
      ensures pp.Some? ==> live == old(live) + Range(pp.value, cnt)
      ensures pp.Some? ==> exists i: nat :: BestFit(old(chunks), i, cnt) && pp.value == old(chunks)[i].base && chunks == Take(old(chunks), i, cnt)
    {
      if cnt == 0 {
        return None;
      }
      var best := FindBest(chunks, cnt);
      if best == -1 {
        return None;
      }
      pp := Some(chunks[best].base);
      TakeFrees(chunks, best, cnt);
      if chunks[best].cnt > cnt {
        chunks := chunks[best := Chunk(chunks[best].base + cnt, chunks[best].cnt - cnt)];
      } else {
        chunks := chunks[..best] + chunks[best + 1..];
      }
      live := live + Range(pp.value, cnt);
    }

    /** alloc_phys_page: fails only when no page is free. */
    method AllocPage() returns (pp: Option<nat>)
      requires Valid()
      modifies this
      ensures Valid() && all == old(all)
      ensures pp.None? <==> old(FreeSet(chunks)) == {}
      ensures pp.None? ==> chunks == old(chunks) && live == old(live)
      ensures pp.Some? ==> pp.value in old(FreeSet(chunks)) && FreeSet(chunks) == old(FreeSet(chunks)) - {pp.value}
      ensures pp.Some? ==> live == old(live) + {pp.value}
    {
      NoneFree(chunks);
      hide Good, FreeSet, BestFit, Take;
      pp := AllocPages(1);
      if pp.Some? {
        OnePage(pp.value);
      }
    }

    /** free_phys_pages: the block becomes the first chunk of the list. */
    method FreePages(pp: nat, cnt: nat)
      requires Valid() && (pp == 0 || Range(pp, cnt) <= live)
      modifies this
      ensures Valid() && all == old(all)
      ensures pp == 0 || cnt == 0 ==> chunks == old(chunks) && live == old(live)
      ensures pp != 0 && cnt > 0 ==> chunks == [Chunk(pp, cnt)] + old(chunks)
      ensures pp != 0 ==> FreeSet(chunks) == old(FreeSet(chunks)) + Range(pp, cnt) && live == old(live) - Range(pp, cnt)
    {
      if pp == 0 || cnt == 0 {
        assert Range(pp, 0) == {};
        return;
      }
      chunks := [Chunk(pp, cnt)] + chunks;
      assert chunks[1..] == old(chunks);
      live := live - Range(pp, cnt);
    }

    /** free_phys_page_count: exactly the number of free pages. */
    method Count() returns (total: nat)
      requires Valid()
      ensures total == |FreeSet(chunks)|
      ensures total + |live| == |all|
    {
      total := 0;
      var i := 0;
      while i < |chunks|
        invariant 0 <= i <= |chunks| && Good(chunks[i..])
        invariant total + |FreeSet(chunks[i..])| == |FreeSet(chunks)|
      {
        assert chunks[i..][1..] == chunks[i + 1..];
        RangeSize(chunks[i].base, chunks[i].cnt);
        total := total + chunks[i].cnt;
        i := i + 1;
      }
      assert chunks[|chunks|..] == [];
    }
  }
}
