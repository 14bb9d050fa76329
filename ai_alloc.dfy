/**
 * hw4/ai.c: the same pool, headers and eleven best-fit free lists as
 * hw4/multilevelBF.c, written differently: every size has a level (sizes past
 * the pool go to the top list), the best-fit search is inline in malloc and
 * compares total sizes, the malloc(0) report walks the pool physically, and a
 * failed mmap makes malloc return NULL.
 */
module AiAlloc {
  import opened Wrappers
  import opened PoolLayout

  /**
   * get_level(total_size - HEADER_SIZE): the list a header belongs to.  The
   * subtraction is in size_t, so a header smaller than HEADER_SIZE would wrap
   * to the top list; no header of the pool is that small.
   */
  function ListLevel(c: Chunk): (r: int)
    ensures 0 <= r < NumLevels
    ensures HeaderSize <= c.size < SizeLimit ==> r == Class(c)
  {
    SizeClass((c.size - HeaderSize) % SizeLimit)
  }

  /** Every header of a tiled pool sits on the list of its own class. */
  lemma ListLevelInPool(cs: seq<Chunk>, i: int)
    requires Tiles(cs) && 0 <= i < |cs|
    ensures ListLevel(cs[i]) == Class(cs[i])
  {
    InPool(cs, i);
  }

  /** The neighbours free(p) unlinks, and the chunk it links, sit on the lists of their classes. */
  lemma CoalesceLevels(cs: seq<Chunk>, i: int)
    requires Tiles(cs) && 0 <= i < |cs|
    ensures Hi(cs, i) > i ==> ListLevel(cs[i + 1]) == Class(cs[i + 1])
    ensures Lo(cs, i) < i ==> ListLevel(cs[i - 1]) == Class(cs[i - 1])
    ensures ListLevel(Merged(cs, i)) == Class(Merged(cs, i))
  {
    NeighbourFacts(cs, i);
    if i + 1 < |cs| { ListLevelInPool(cs, i + 1); }
    if i > 0 { ListLevelInPool(cs, i - 1); }
    InPool(cs, Lo(cs, i));
    InPool(cs, Hi(cs, i));
  }

  /**
   * The inline search of malloc: from the level of the rounded size upward,
   * the first level holding a header whose total size reaches
   * `rounded + HEADER_SIZE` decides, and within it the first header with the
   * least excess.
   */
  function Search(cs: seq<Chunk>, lists: seq<seq<int>>, rounded: int): Option<int>
    requires |lists| == NumLevels
  {
    BestAbove(cs, lists, rounded, SizeClass(rounded))
  }

  /**
   * The search finds a header exactly when some free chunk holds the rounded
   * size, and then a free one with the least excess in the whole pool.
   */
  lemma SearchIsBest(cs: seq<Chunk>, lists: seq<seq<int>>, rounded: int)
    requires Tiles(cs) && ListsOk(cs, lists)
    ensures BestFitSpec(cs, rounded, Search(cs, lists, rounded))
  {
    BestFitIsGlobal(cs, lists, rounded);
  }

  /** required_total_size as written: the rounding and the header addition both in size_t. */
  function RequiredAsWritten(size: nat): (r: nat)
    requires size < SizeLimit
    ensures r < SizeLimit
    ensures size <= SizeLimit - HeaderSize - Alignment ==> r == RoundUp32(size) + HeaderSize
  {
    (RoundUp32AsWritten(size) + HeaderSize) % SizeLimit
  }

  /** The search as written: compare total sizes against the wrapped required_total_size. */
  function SearchAsWritten(cs: seq<Chunk>, lists: seq<seq<int>>, size: nat): Option<int>
    requires |lists| == NumLevels && size < SizeLimit
  {
    BestAbove(cs, lists, RequiredAsWritten(size) - HeaderSize, SizeClass(RoundUp32AsWritten(size)))
  }

  /** Below the top 63 sizes the written arithmetic does not wrap and both searches agree. */
  lemma SearchAsWrittenAgrees(cs: seq<Chunk>, lists: seq<seq<int>>, size: nat)
    requires |lists| == NumLevels && size <= SizeLimit - HeaderSize - Alignment
    ensures SearchAsWritten(cs, lists, size) == Search(cs, lists, RoundUp32(size))
  {
  }

  /**
   * The top 63 sizes wrap: required_total_size becomes 0 or 32, so every
   * header qualifies.  A request of SIZE_MAX - 39 bytes is handed the whole
   * fresh pool, where the intended search finds nothing.
   */
  lemma RequiredWraps(size: nat)
    requires SizeLimit - HeaderSize - Alignment < size < SizeLimit
    ensures RequiredAsWritten(size) <= HeaderSize
    ensures RoundUp32(size) + HeaderSize > PoolSize
  {
    if size > SizeLimit - Alignment {
      RoundUp32Wraps(size);
    } else {
      assert RoundUp32AsWritten(size) == SizeLimit - Alignment;
    }
  }

  lemma HugeRequestServed()
    ensures SearchAsWritten(InitialChunks(), InitialLists(), SizeLimit - 40) == Some(0)
    ensures Search(InitialChunks(), InitialLists(), RoundUp32(SizeLimit - 40)) == None
  {
    var cs, ls := InitialChunks(), InitialLists();
    assert RoundUp32AsWritten(SizeLimit - 40) == SizeLimit - Alignment;
    assert RequiredAsWritten(SizeLimit - 40) == 0;
    assert IndexOf(cs, 0) == Some(0);
    assert BestIn(cs, ls[10], -HeaderSize) == Some(0) by {
      assert ls[10] == [0] && ls[10][..0] == [];
    }
    assert BestIn(cs, ls[10], SizeLimit - Alignment) == None by {
      assert ls[10] == [0] && ls[10][..0] == [];
    }
  }

  /** What malloc(size) returns and the pool and lists it leaves, from the pool `cs` with lists `ls`. */
  function AfterMalloc(cs: seq<Chunk>, ls: seq<seq<int>>, size: int): (Ptr, seq<Chunk>, seq<seq<int>>)
    requires |ls| == NumLevels && 0 <= size
  {
    Outcome(cs, ls, RoundUp32(size) + HeaderSize, PositionOf(cs, Search(cs, ls, RoundUp32(size))))
  }

  /** The state free(p) leaves, from the pool `cs` with lists `ls`. */
  ghost predicate Freed(cs: seq<Chunk>, ls: seq<seq<int>>, p: Ptr, cs': seq<Chunk>, ls': seq<seq<int>>)
    requires |ls| == NumLevels
  {
    if p.Null? || !(0 <= p.at < PoolSize) || IndexOf(cs, p.at - HeaderSize).None? then cs' == cs && ls' == ls
    else
      var i := IndexOf(cs, p.at - HeaderSize).value;
      if cs[i].free then cs' == cs && ls' == ls
      else cs' == Release(cs, i) && ls' == ReleaseLists(cs, ls, i)
  }

  class Heap {
    /** pool_start != NULL: the pool is mapped. */
    var live: bool
    /** The headers in the pool, in physical order. */
    var chunks: seq<Chunk>
    /** free_lists / free_list_tails: each level's list from head to tail. */
    var lists: seq<seq<int>>

    ghost predicate Valid()
      reads this
    {
      && |lists| == NumLevels
      && (live ==> Tiles(chunks) && Coalesced(chunks) && ListsOk(chunks, lists))
    }

    /** The program's initial state: no pool yet, all lists empty. */
    constructor ()
      ensures Valid() && !live
    {
      live := false;
      chunks := [];
      lists := seq(NumLevels, _ => []);
    }

    /** add_to_free_list: the header becomes the tail of its level's list. */
    method AddToFreeList(c: Chunk)
      requires |lists| == NumLevels
      modifies this
      ensures live == old(live) && chunks == old(chunks)
      ensures lists == Link(old(lists), c.offset, ListLevel(c))
    {
      var level := ListLevel(c);
      lists := lists[level := lists[level] + [c.offset]];
    }

    /** remove_from_free_list: the header is unlinked from its level's list. */
    method RemoveFromFreeList(c: Chunk)
      requires |lists| == NumLevels
      modifies this
      ensures live == old(live) && chunks == old(chunks)
      ensures lists == Unlink(old(lists), c.offset, ListLevel(c))
    {
      var level := ListLevel(c);
      lists := lists[level := Without(lists[level], c.offset)];
    }

    /**
     * init_pool: when the mapping succeeds every list is emptied and one free
     * chunk spanning the pool joins the top list; when it fails the pool
     * stays unmapped.
     */
    method InitPool(mapped: bool)
      requires Valid() && !live
      modifies this
      ensures Valid() && live == mapped
      ensures mapped ==> chunks == InitialChunks() && lists == InitialLists()
      ensures !mapped ==> chunks == old(chunks) && lists == old(lists)
    {
      if !mapped {
        return;
      }
      live := true;
      var k := 0;
      while k < NumLevels
        invariant live && 0 <= k <= NumLevels && |lists| == NumLevels
        invariant forall j :: 0 <= j < k ==> lists[j] == []
      {
        lists := lists[k := []];
        k := k + 1;
      }
      chunks := [Chunk(0, PoolSize, true)];
      AddToFreeList(chunks[0]);
      assert forall j :: 0 <= j < NumLevels ==> lists[j] == InitialLists()[j];
      InitialValid();
    }

    /** The walk of handle_malloc_zero: the largest data size of a free chunk, header by header. */
    method LargestPhysical() returns (m: int)
      requires Valid() && live
      ensures m == MaxFreeData(chunks)
    {
      m := 0;
      var j := 0;
      while j < |chunks|
        invariant 0 <= j <= |chunks| && m >= 0
        invariant forall k :: 0 <= k < j && chunks[k].free ==> Data(chunks[k]) <= m
        invariant m == 0 || exists k :: 0 <= k < j && chunks[k].free && Data(chunks[k]) == m
      {
        if chunks[j].free {
          var d := Data(chunks[j]);
          if d > m {
            m := d;
          }
        }
        if chunks[j].size == 0 {
          break;
        }
        j := j + 1;
      }
      MaxFreeUnique(chunks, m);
    }

    /**
     * Step 2 of malloc: scan each level from head to tail, remembering the
     * first header with the least excess of total size over `required`; the
     * least excess seen carries over between levels, and the first level
     * with a fit ends the search.
     */
    method SearchBestFit(rounded: int, required: int) returns (best: Option<int>)
      requires Valid() && live && 0 <= rounded && required == rounded + HeaderSize
      ensures best == Search(chunks, lists, rounded)
    {
      best := None;
      var minDiff := SizeLimit - 1;
      var l := SizeClass(rounded);
      while l < NumLevels
        invariant SizeClass(rounded) <= l <= NumLevels
        invariant best == None && minDiff == SizeLimit - 1
        invariant BestAbove(chunks, lists, rounded, l) == Search(chunks, lists, rounded)
      {
        var p := 0;
        ghost var at: Option<nat> := None;
        while p < |lists[l]|
          invariant 0 <= p <= |lists[l]|
          invariant at == BestIn(chunks, lists[l][..p], rounded)
          invariant at.None? ==> best == None && minDiff == SizeLimit - 1
          invariant at.Some? ==> at.value < p && best == Some(lists[l][at.value]) &&
                                 minDiff == DataAt(chunks, lists[l][at.value]) - rounded
        {
          var total := DataAt(chunks, lists[l][p]) + HeaderSize;
          DataAtBound(chunks, lists[l][p]);
          BestInStep(chunks, lists[l], p, rounded);
          if total >= required {
            var diff := total - required;
            if diff < minDiff {
              minDiff := diff;
              best := Some(lists[l][p]);
              at := Some(p);
            }
          }
          p := p + 1;
        }
        assert lists[l][..|lists[l]|] == lists[l];
        if best.Some? {
          return;
        }
        l := l + 1;
      }
    }

    /**
     * malloc: size 0 reports the largest free data size and unmaps the pool
     * (nothing to report without a pool); otherwise the pool is mapped on
     * first use (NULL when mapping fails, `mapped` being its outcome) and the
     * best fit is handed out.
     */
    method Malloc(size: int, mapped: bool) returns (p: Ptr, report: Option<int>)
      requires Valid() && 0 <= size < SizeLimit
      modifies this
      ensures Valid()
      ensures size == 0 ==> p == Null && !live && chunks == old(chunks) && lists == old(lists)
      ensures size == 0 ==> report == if old(live) then Some(MaxFreeData(old(chunks))) else None
      ensures size > 0 ==> report == None
      ensures size > 0 && old(live) ==> live && (p, chunks, lists) == AfterMalloc(old(chunks), old(lists), size)
      ensures size > 0 && !old(live) && mapped ==> live && (p, chunks, lists) == AfterMalloc(InitialChunks(), InitialLists(), size)
      ensures size > 0 && !old(live) && !mapped ==> !live && p == Null && chunks == old(chunks) && lists == old(lists)
      ensures p.Addr? ==> exists i :: 0 <= i < |chunks| && chunks[i].offset == p.at - HeaderSize &&
                                      !chunks[i].free && Data(chunks[i]) >= size
    {
      report := None;
      if size == 0 {
        if live {
          var m := LargestPhysical();
          report := Some(m);
          live := false;
        }
        return Null, report;
      }
      if !live {
        InitPool(mapped);
        if !live {
          return Null, None;
        }
      }
      p := Allocate(size);
    }

    /**
     * Steps 1 to 6 of malloc on a mapped pool: round the request up, search
     * for the best fit (NULL without one) and hand it out past its header.
     */
    method Allocate(size: int) returns (p: Ptr)
      requires Valid() && live && 0 < size < SizeLimit
      modifies this
      ensures Valid() && live
      ensures (p, chunks, lists) == AfterMalloc(old(chunks), old(lists), size)
      ensures p.Addr? ==> exists i :: 0 <= i < |chunks| && chunks[i].offset == p.at - HeaderSize &&
                                      !chunks[i].free && Data(chunks[i]) >= size
    {
      var rounded := RoundUp32(size);
      var required := rounded + HeaderSize;
      var best := SearchBestFit(rounded, required);
      if best.None? {
        return Null;
      }
      ghost var cs, ls := chunks, lists;
      ghost var found := BestAboveChunk(cs, ls, rounded, SizeClass(rounded));
      var i := IndexOf(chunks, best.value).value;
      assert PositionOf(cs, Search(cs, ls, rounded)) == Some(i);
      TakeChunk(i, required);
      p := Addr(best.value + HeaderSize);
    }

    /**
     * Steps 4 to 6 of malloc: the best fit leaves its list, is split when the
     * remainder can hold a header and 32 bytes (the tail joining its own
     * list) and is marked used.
     */
    method TakeChunk(i: nat, required: int)
      requires Valid() && live && i < |chunks| && chunks[i].free && MinChunk <= required <= chunks[i].size
      modifies this
      ensures Valid() && live
      ensures chunks == Carve(old(chunks), i, required) && lists == CarveLists(old(chunks), old(lists), i, required)
      ensures i < |chunks| && chunks[i].offset == old(chunks)[i].offset && !chunks[i].free
      ensures Data(chunks[i]) >= required - HeaderSize
    {
      var c := chunks[i];
      var cs := chunks;
      ghost var ls := lists;
      InPool(cs, i);
      CarveValid(cs, ls, i, required);
      RemoveFromFreeList(c);
      var remaining := c.size - required;
      if remaining >= MinChunk {
        var tail := Chunk(c.offset + required, remaining, true);
        assert tail == Tail(c, required) && ListLevel(tail) == Class(tail);
        AddToFreeList(tail);
        chunks := cs[..i] + [Chunk(c.offset, required, false), tail] + cs[i + 1..];
      } else {
        chunks := cs[..i] + [c.(free := false)] + cs[i + 1..];
      }
    }

    /**
     * free: a null pointer, one outside the pool (every pointer, once the
     * pool is unmapped), one that does not start a current chunk or an
     * already free chunk is ignored; otherwise the chunk is coalesced with
     * its free neighbours.
     */
    method Free(p: Ptr)
      requires Valid()
      modifies this
      ensures Valid() && live == old(live)
      ensures !live ==> chunks == old(chunks) && lists == old(lists)
      ensures live ==> Freed(old(chunks), old(lists), p, chunks, lists)
    {
      if p.Null? || !live || !(0 <= p.at < PoolSize) {
        return;
      }
      ghost var cs, ls := chunks, lists;
      var found := IndexOf(chunks, p.at - HeaderSize);
      if found.None? {
        return;
      }
      var i := found.value;
      if chunks[i].free {
        return;
      }
      Coalesce(i);
      ReleaseValid(cs, ls, i);
    }

    /**
     * Steps 2 to 5 of free: chunk `i` is marked free, absorbs a free physical
     * successor, is absorbed by a free physical predecessor, and the result
     * joins the tail of its level's list.
     */
    method Coalesce(i: nat)
      requires |lists| == NumLevels && Tiles(chunks) && i < |chunks|
      modifies this
      ensures live == old(live)
      ensures chunks == Release(old(chunks), i) && lists == ReleaseLists(old(chunks), old(lists), i)
    {
      ghost var ls := lists;
      var cs := chunks;
      NeighbourFacts(cs, i);
      CoalesceLevels(cs, i);
      var merged := cs[i].(free := true);
      var hi := i;
      if End(merged) < PoolSize && cs[i + 1].free {
        RemoveFromFreeList(cs[i + 1]);
        merged := merged.(size := merged.size + cs[i + 1].size);
        hi := i + 1;
      }
      assert hi == Hi(cs, i) && lists == UnlinkNext(cs, ls, i);
      var prev := FindPrevPhys(cs, merged.offset);
      var lo := i;
      if prev.Some? && cs[prev.value].free {
        RemoveFromFreeList(cs[prev.value]);
        merged := Chunk(cs[prev.value].offset, cs[prev.value].size + merged.size, true);
        lo := prev.value;
      }
      assert lo == Lo(cs, i) && lists == UnlinkPrev(cs, UnlinkNext(cs, ls, i), i);
      assert merged == Merged(cs, i);
      AddToFreeList(merged);
      chunks := cs[..lo] + [merged] + cs[hi + 1..];
    }
  }
}
