/**
 * hw4/multilevelBF.c: a malloc/free replacement over one 20000-byte pool
 * with eleven segregated free lists searched best-fit from the request's own
 * size class upward.  The allocator's global state (pool_start and the
 * free-list heads and tails) is the class Heap; the headers inside the pool
 * are its chunk records.
 */
module MultilevelBf {
  import opened Wrappers
  import opened PoolLayout

  /**
   * get_level: the size class of a data size, or -1 for a size no chunk of
   * the pool can hold.  A negative `d` stands for a size_t subtraction
   * total_size - HEADER_SIZE that wrapped around.
   */
  function GetLevel(d: int): (r: int)
    ensures -1 <= r < NumLevels
    ensures r == -1 <==> d < 0 || d > PoolSize - HeaderSize
    ensures r != -1 ==> r == SizeClass(d)
  {
    if d < 0 || d > PoolSize - HeaderSize then -1 else SizeClass(d)
  }

  /** Within the pool the classes are ordered bands: 0 below 32 bytes, 10 from 16384 bytes on. */
  lemma GetLevelBands(a: int, b: int)
    requires 0 <= a <= b <= PoolSize - HeaderSize
    ensures GetLevel(a) <= GetLevel(b)
    ensures GetLevel(a) == 0 <==> a < 32
    ensures GetLevel(b) == 10 <==> b >= 16384
  {
    ClassOrder(a, b);
  }

  /** A chunk of a tiled pool always has a level. */
  lemma ChunkLevel(cs: seq<Chunk>, i: int)
    requires Tiles(cs) && 0 <= i < |cs|
    ensures GetLevel(Data(cs[i])) == Class(cs[i])
  {
    InPool(cs, i);
  }

  /** find_best_fit: search from the request's level upward; -1 means no chunk can fit. */
  function BestFit(cs: seq<Chunk>, lists: seq<seq<int>>, size: int): Option<int>
    requires |lists| == NumLevels
  {
    if GetLevel(size) == -1 then None else BestAbove(cs, lists, size, GetLevel(size))
  }

  /**
   * find_best_fit returns a chunk exactly when some free chunk holds `size`
   * data bytes, and then a free one with the least excess in the whole pool.
   */
  lemma BestFitIsBest(cs: seq<Chunk>, lists: seq<seq<int>>, size: int)
    requires Tiles(cs) && ListsOk(cs, lists) && 0 <= size
    ensures BestFitSpec(cs, size, BestFit(cs, lists, size))
  {
    if GetLevel(size) == -1 {
      forall j | 0 <= j < |cs| && cs[j].free
        ensures Data(cs[j]) < size
      {
        InPool(cs, j);
      }
    } else {
      BestFitIsGlobal(cs, lists, size);
    }
  }

  /**
   * round_up_to_32 wraps the 31 largest requests to 0, and find_best_fit(0)
   * hands the first free chunk of any size to a request of SIZE_MAX bytes;
   * with the unbounded rounding the same request finds nothing.
   */
  lemma HugeRequestServed()
    ensures BestFit(InitialChunks(), InitialLists(), RoundUp32AsWritten(SizeLimit - 1)) == Some(0)
    ensures BestFit(InitialChunks(), InitialLists(), RoundUp32(SizeLimit - 1)) == None
  {
    var cs, ls := InitialChunks(), InitialLists();
    RoundUp32Wraps(SizeLimit - 1);
    assert IndexOf(cs, 0) == Some(0);
    assert BestIn(cs, ls[10], 0) == Some(0) by {
      assert ls[10] == [0] && ls[10][..0] == [];
    }
  }

  /** A list walk that saw only headers of at most `m` data bytes, one of them `m` (or m is 0), found MaxFreeData. */
  lemma ListedMax(cs: seq<Chunk>, lists: seq<seq<int>>, m: int)
    requires Tiles(cs) && ListsOk(cs, lists) && m >= 0
    requires forall l, p :: 0 <= l < NumLevels && 0 <= p < |lists[l]| ==> DataAt(cs, lists[l][p]) <= m
    requires m == 0 || exists l, p :: 0 <= l < NumLevels && 0 <= p < |lists[l]| && DataAt(cs, lists[l][p]) == m
    ensures m == MaxFreeData(cs)
  {
    forall i | 0 <= i < |cs| && cs[i].free
      ensures Data(cs[i]) <= m
    {
      var l := Class(cs[i]);
      FreeListed(cs, i);
      assert cs[i].offset in multiset(lists[l]);
      var p :| 0 <= p < |lists[l]| && lists[l][p] == cs[i].offset;
      IndexOfChunk(cs, i);
      assert DataAt(cs, lists[l][p]) == Data(cs[i]);
    }
    if m != 0 {
      var l, p :| 0 <= l < NumLevels && 0 <= p < |lists[l]| && DataAt(cs, lists[l][p]) == m;
      var i := ListedChunk(cs, lists, l, p);
    }
    MaxFreeUnique(cs, m);
  }

  /** What malloc(size) returns and the pool and lists it leaves, from the pool `cs` with lists `ls`. */
  ghost function AfterMalloc(cs: seq<Chunk>, ls: seq<seq<int>>, size: int): (Ptr, seq<Chunk>, seq<seq<int>>)
    requires |ls| == NumLevels && 0 <= size
  {
    Outcome(cs, ls, RoundUp32(size) + HeaderSize, PositionOf(cs, BestFit(cs, ls, RoundUp32(size))))
  }

  /** A chunk next to the one being freed, and the chunk the merge produces, always have a level. */
  lemma CoalesceFacts(cs: seq<Chunk>, i: int)
    requires Tiles(cs) && 0 <= i < |cs|
    ensures Hi(cs, i) > i ==> GetLevel(Data(cs[i + 1])) == Class(cs[i + 1])
    ensures Lo(cs, i) < i ==> GetLevel(Data(cs[i - 1])) == Class(cs[i - 1])
    ensures GetLevel(Data(Merged(cs, i))) == Class(Merged(cs, i))
  {
    NeighbourFacts(cs, i);
    if i + 1 < |cs| { ChunkLevel(cs, i + 1); }
    if i > 0 { ChunkLevel(cs, i - 1); }
    InPool(cs, Lo(cs, i));
    InPool(cs, Hi(cs, i));
  }

  /** The state free(p) leaves, from the pool `cs` with lists `ls`. */
  ghost predicate Freed(cs: seq<Chunk>, ls: seq<seq<int>>, p: Ptr, cs': seq<Chunk>, ls': seq<seq<int>>)
    requires |ls| == NumLevels
  {
    if p.Null? || !(0 <= p.at < PoolSize) || IndexOf(cs, p.at - HeaderSize).None? then cs' == cs && ls' == ls
    else
      var i := IndexOf(cs, p.at - HeaderSize).value;
      if cs[i].free then cs' == cs && ls' == ls
      else cs' == Release(cs, i) && ls' == ReleaseLists(cs, ls, i)
  }

  class Heap {
    /** pool_start != NULL: the pool is mapped. */
    var live: bool
    /** The headers in the pool, in physical order. */
    var chunks: seq<Chunk>
    /** free_lists / free_list_tails: each level's list from head to tail. */
    var lists: seq<seq<int>>

    ghost predicate Valid()
      reads this
    {
      && |lists| == NumLevels
      && (live ==> Tiles(chunks) && Coalesced(chunks) && ListsOk(chunks, lists))
    }

    /** The program's initial state: no pool yet, all lists empty. */
    constructor ()
      ensures Valid() && !live
    {
      live := false;
      chunks := [];
      lists := seq(NumLevels, _ => []);
    }

    /** add_to_free_list: the chunk becomes the tail of its level's list; nothing happens without a level. */
    method AddToFreeList(c: Chunk)
      requires |lists| == NumLevels
      modifies this
      ensures live == old(live) && chunks == old(chunks)
      ensures lists == if GetLevel(Data(c)) == -1 then old(lists) else Link(old(lists), c.offset, GetLevel(Data(c)))
    {
      var level := GetLevel(Data(c));
      if level == -1 {
        return;
      }
      lists := lists[level := lists[level] + [c.offset]];
    }

    /** remove_from_free_list: the chunk is unlinked from its level's list; nothing happens without a level. */
    method RemoveFromFreeList(c: Chunk)
      requires |lists| == NumLevels
      modifies this
      ensures live == old(live) && chunks == old(chunks)
      ensures lists == if GetLevel(Data(c)) == -1 then old(lists) else Unlink(old(lists), c.offset, GetLevel(Data(c)))
    {
      var level := GetLevel(Data(c));
      if level == -1 {
        return;
      }
      lists := lists[level := Without(lists[level], c.offset)];
    }

    /** init_pool: every list is emptied, then one free chunk spanning the pool joins the top list. */
    method InitPool()
      requires |lists| == NumLevels
      modifies this
      ensures live && chunks == InitialChunks() && lists == InitialLists() && Valid()
    {
      live := true;
      var k := 0;
      while k < NumLevels
        invariant live && 0 <= k <= NumLevels && |lists| == NumLevels
        invariant forall j :: 0 <= j < k ==> lists[j] == []
      {
        lists := lists[k := []];
        k := k + 1;
      }
      chunks := [Chunk(0, PoolSize, true)];
      AddToFreeList(chunks[0]);
      assert forall j :: 0 <= j < NumLevels ==> lists[j] == InitialLists()[j];
      InitialValid();
    }

    /** The scan of handle_malloc_zero: the largest data size over all free-list entries. */
    method Largest() returns (m: int)
      requires Valid() && live
      ensures m == MaxFreeData(chunks)
    {
      m := 0;
      var l := 0;
      while l < NumLevels
        invariant 0 <= l <= NumLevels && m >= 0
        invariant forall j, q :: 0 <= j < l && 0 <= q < |lists[j]| ==> DataAt(chunks, lists[j][q]) <= m
        invariant m == 0 || exists j, q :: 0 <= j < l && 0 <= q < |lists[j]| && DataAt(chunks, lists[j][q]) == m
      {
        var p := 0;
        while p < |lists[l]|
          invariant 0 <= p <= |lists[l]| && m >= 0
          invariant forall j, q :: 0 <= j < l && 0 <= q < |lists[j]| ==> DataAt(chunks, lists[j][q]) <= m
          invariant forall q :: 0 <= q < p ==> DataAt(chunks, lists[l][q]) <= m
          invariant m == 0 || exists j, q :: 0 <= j <= l && 0 <= q < |lists[j]| && (j < l || q < p) && DataAt(chunks, lists[j][q]) == m
        {
          var d := DataAt(chunks, lists[l][p]);
          if d > m {
            m := d;
          }
          p := p + 1;
        }
        l := l + 1;
      }
      ListedMax(chunks, lists, m);
    }

    /**
     * find_best_fit: scan each level from head to tail, keeping the first
     * entry with the least excess; the first level with a fit decides.
     */
    method FindBestFit(size: int) returns (r: Option<int>)
      requires Valid() && live && 0 <= size
      ensures r == BestFit(chunks, lists, size)
    {
      var level := GetLevel(size);
      if level == -1 {
        return None;
      }
      var l := level;
      while l < NumLevels
        invariant level <= l <= NumLevels
        invariant BestAbove(chunks, lists, size, l) == BestAbove(chunks, lists, size, level)
      {
        var best: Option<nat> := None;
        var minDiff := SizeLimit - 1;
        var p := 0;
        while p < |lists[l]|
          invariant 0 <= p <= |lists[l]|
          invariant best == BestIn(chunks, lists[l][..p], size)
          invariant best.None? ==> minDiff == SizeLimit - 1
          invariant best.Some? ==> best.value < p && minDiff == DataAt(chunks, lists[l][best.value]) - size
        {
          var d := DataAt(chunks, lists[l][p]);
          DataAtBound(chunks, lists[l][p]);
          BestInStep(chunks, lists[l], p, size);
          if d >= size {
            var diff := d - size;
            if diff < minDiff {
              minDiff := diff;
              best := Some(p);
            }
          }
          p := p + 1;
        }
        assert lists[l][..|lists[l]|] == lists[l];
        if best.Some? {
          return Some(lists[l][best.value]);
        }
        l := l + 1;
      }
      return None;
    }

    /**
     * malloc: size 0 reports the largest free data size and unmaps the pool
     * (nothing to report without a pool); otherwise the pool is mapped on
     * first use, the request is rounded up to 32 bytes, and the best fit is
     * unlinked, split when the remainder can hold a header and 32 bytes (the
     * tail joins its own list), marked used and returned past its header.
     */
    method Malloc(size: int) returns (p: Ptr, report: Option<int>)
      requires Valid() && 0 <= size < SizeLimit
      modifies this
      ensures Valid()
      ensures size == 0 ==> p == Null && !live && chunks == old(chunks) && lists == old(lists)
      ensures size == 0 ==> report == if old(live) then Some(MaxFreeData(old(chunks))) else None
      ensures size > 0 ==> live && report == None
      ensures size > 0 && old(live) ==> (p, chunks, lists) == AfterMalloc(old(chunks), old(lists), size)
      ensures size > 0 && !old(live) ==> (p, chunks, lists) == AfterMalloc(InitialChunks(), InitialLists(), size)
      ensures p.Addr? ==> exists i :: 0 <= i < |chunks| && chunks[i].offset == p.at - HeaderSize &&
                                      !chunks[i].free && Data(chunks[i]) >= size
    {
      report := None;
      if size == 0 {
        if live {
          var m := Largest();
          report := Some(m);
          live := false;
        }
        return Null, report;
      }
      if !live {
        InitPool();
      }
      p := Allocate(size);
    }

    /**
     * Steps 1 to 6 of malloc on a mapped pool: round the request up, find the
     * best fit (NULL without one) and hand it out past its header.
     */
    method Allocate(size: int) returns (p: Ptr)
      requires Valid() && live && 0 < size < SizeLimit
      modifies this
      ensures Valid() && live
      ensures (p, chunks, lists) == AfterMalloc(old(chunks), old(lists), size)
      ensures p.Addr? ==> exists i :: 0 <= i < |chunks| && chunks[i].offset == p.at - HeaderSize &&
                                      !chunks[i].free && Data(chunks[i]) >= size
    {
      var rounded := RoundUp32(size);
      var best := FindBestFit(rounded);
      if best.None? {
        return Null;
      }
      ghost var cs, ls := chunks, lists;
      ghost var found := BestFitChunk(cs, ls, rounded);
      var i := IndexOf(chunks, best.value).value;
      assert PositionOf(cs, BestFit(cs, ls, rounded)) == Some(i);
      TakeChunk(i, rounded + HeaderSize);
      p := Addr(best.value + HeaderSize);
    }

    /**
     * Steps 3 to 6 of malloc: the best fit leaves its list, is split when the
     * remainder can hold a header and 32 bytes (the tail joining its own
     * list) and is marked used.
     */
    method TakeChunk(i: nat, need: int)
      requires Valid() && live && i < |chunks| && chunks[i].free && MinChunk <= need <= chunks[i].size
      modifies this
      ensures Valid() && live
      ensures chunks == Carve(old(chunks), i, need) && lists == CarveLists(old(chunks), old(lists), i, need)
      ensures i < |chunks| && chunks[i].offset == old(chunks)[i].offset && !chunks[i].free && Data(chunks[i]) >= need - HeaderSize
    {
      var c := chunks[i];
      var cs := chunks;
      ghost var ls := lists;
      InPool(cs, i);
      CarveValid(cs, ls, i, need);
      assert GetLevel(Data(c)) == Class(c);
      RemoveFromFreeList(c);
      var remaining := c.size - need;
      if remaining >= MinChunk {
        var tail := Chunk(c.offset + need, remaining, true);
        assert tail == Tail(c, need) && GetLevel(Data(tail)) == Class(tail);
        AddToFreeList(tail);
        chunks := cs[..i] + [Chunk(c.offset, need, false), tail] + cs[i + 1..];
      } else {
        chunks := cs[..i] + [c.(free := false)] + cs[i + 1..];
      }
    }

    /** The header `find_best_fit` returned, as a position in the pool. */
    static lemma BestFitChunk(cs: seq<Chunk>, ls: seq<seq<int>>, size: int) returns (i: nat)
      requires Tiles(cs) && ListsOk(cs, ls) && 0 <= size && BestFit(cs, ls, size).Some?
      ensures i < |cs| && IndexOf(cs, BestFit(cs, ls, size).value) == Some(i)
      ensures cs[i].free && Data(cs[i]) >= size
    {
      i := BestAboveChunk(cs, ls, size, GetLevel(size));
    }

    /**
     * free: a null pointer, one outside the pool (every pointer, once the
     * pool is unmapped), one that does not start a current chunk or an
     * already free chunk is ignored; otherwise the chunk is marked free,
     * absorbs a free physical successor, is absorbed by a free physical
     * predecessor, and the result joins its list's tail.
     */
    method Free(p: Ptr)
      requires Valid()
      modifies this
      ensures Valid() && live == old(live)
      ensures !live ==> chunks == old(chunks) && lists == old(lists)
      ensures live ==> Freed(old(chunks), old(lists), p, chunks, lists)
    {
      if p.Null? || !live || !(0 <= p.at < PoolSize) {
        return;
      }
      ghost var cs, ls := chunks, lists;
      var found := IndexOf(chunks, p.at - HeaderSize);
      if found.None? {
        return;
      }
      var i := found.value;
      if chunks[i].free {
        return;
      }
      Coalesce(i);
      ReleaseValid(cs, ls, i);
    }

    /**
     * Steps 2 to 5 of free: chunk `i` is marked free, absorbs a free physical
     * successor, is absorbed by a free physical predecessor, and the result
     * joins the tail of its level's list.
     */
    method Coalesce(i: nat)
      requires |lists| == NumLevels && Tiles(chunks) && i < |chunks|
      modifies this
      ensures live == old(live)
      ensures chunks == Release(old(chunks), i) && lists == ReleaseLists(old(chunks), old(lists), i)
    {
      ghost var ls := lists;
      var cs := chunks;
      NeighbourFacts(cs, i);
      CoalesceFacts(cs, i);
      var merged := cs[i].(free := true);
      var hi := i;
      if End(merged) < PoolSize && cs[i + 1].free {
        RemoveFromFreeList(cs[i + 1]);
        merged := merged.(size := merged.size + cs[i + 1].size);
        hi := i + 1;
      }
      assert hi == Hi(cs, i) && lists == UnlinkNext(cs, ls, i);
      var prev := FindPrevPhys(cs, merged.offset);
      var lo := i;
      if prev.Some? && cs[prev.value].free {
        RemoveFromFreeList(cs[prev.value]);
        merged := Chunk(cs[prev.value].offset, cs[prev.value].size + merged.size, true);
        lo := prev.value;
      }
      assert lo == Lo(cs, i) && lists == UnlinkPrev(cs, UnlinkNext(cs, ls, i), i);
      assert merged == Merged(cs, i);
      AddToFreeList(merged);
      chunks := cs[..lo] + [merged] + cs[hi + 1..];
    }
  }
}
