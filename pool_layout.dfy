/**
 * The 20000-byte pool shared by the two segregated-fit allocators of hw4
 * (hw4/multilevelBF.c and hw4/ai.c).
 *
 * Headers are chunk records (offset from the pool start, total_size with the
 * 32-byte header included, is_free) kept in physical order; a valid pool is
 * tiled by them.  Each of the eleven doubly linked free lists is the sequence
 * of header offsets from head to tail.  This module holds what both files
 * share: the size classes, 32-byte rounding, the tiling and free-list
 * invariants, the best-fit choice, the physical-predecessor walk, and the
 * value-level effect of carving a chunk in malloc and of coalescing in free.
 */
module PoolLayout {
  import opened Wrappers

  const PoolSize: int := 20000
  const HeaderSize: int := 32
  const Alignment: int := 32
  /** A split must leave at least a header and 32 data bytes behind. */
  const MinChunk: int := HeaderSize + Alignment
  const NumLevels: int := 11
  /** Every size_t value is below 2^64. */
  const SizeLimit: int := 0x1_0000_0000_0000_0000

  /** A pointer, as an offset from the pool start. */
  datatype Ptr = Null | Addr(at: int)

  /** The header at `offset`: total_size (header included) and is_free. */
  datatype Chunk = Chunk(offset: int, size: int, free: bool)

  function End(c: Chunk): int { c.offset + c.size }

  /** The bytes a chunk offers to its user: total_size - HEADER_SIZE. */
  function Data(c: Chunk): int { c.size - HeaderSize }

  function Pow2(k: nat): nat { if k == 0 then 1 else 2 * Pow2(k - 1) }

  // ---------------------------------------------------------------- size classes

  /**
   * The free list a data size belongs to.  This is get_level of hw4/ai.c
   * verbatim; hw4/multilevelBF.c adds a -1 case for oversized requests.
   */
  function SizeClass(d: int): (r: int)
    ensures 0 <= r < NumLevels
    ensures r == 0 <==> d < 32
    ensures r == 10 <==> d >= 16384
  {
    if d < 32 then 0
    else if d < 64 then 1
    else if d < 128 then 2
    else if d < 256 then 3
    else if d < 512 then 4
    else if d < 1024 then 5
    else if d < 2048 then 6
    else if d < 4096 then 7
    else if d < 8192 then 8
    else if d < 16384 then 9
    else 10
  }

  /** Class k, for k = 1..9, holds exactly the sizes in [2^(k+4), 2^(k+5)). */
  lemma SizeClassBands(d: int)
    ensures var r := SizeClass(d); 0 < r < 10 ==> Pow2(r + 4) <= d < Pow2(r + 5)
  {
    assert Pow2(5) == 32 && Pow2(6) == 64 && Pow2(7) == 128 && Pow2(8) == 256 && Pow2(9) == 512;
    assert Pow2(10) == 1024 && Pow2(11) == 2048 && Pow2(12) == 4096 && Pow2(13) == 8192 && Pow2(14) == 16384;
  }

  /** Size classes are bands: a smaller class means a strictly smaller size. */
  lemma ClassOrder(a: int, b: int)
    ensures a <= b ==> SizeClass(a) <= SizeClass(b)
    ensures SizeClass(a) < SizeClass(b) ==> a < b
  {
  }

  function Class(c: Chunk): int { SizeClass(Data(c)) }

  // ---------------------------------------------------------------- rounding

  /**
   * round_up_to_32 on unbounded integers: the smallest positive multiple of
   * 32 that is at least `size`.
   */
  function RoundUp32(size: nat): (r: nat)
    ensures r % Alignment == 0 && r >= Alignment && r >= size
    ensures size > 0 ==> r < size + Alignment
    ensures size == 0 ==> r == Alignment
  {
    var remainder := size % Alignment;
    if size == 0 then Alignment
    else if remainder == 0 then size
    else size - remainder + Alignment
  }

  /** round_up_to_32 as written, in size_t arithmetic: the last addition wraps modulo 2^64. */
  function RoundUp32AsWritten(size: nat): (r: nat)
    requires size < SizeLimit
    ensures r < SizeLimit
    ensures size <= SizeLimit - Alignment ==> r == RoundUp32(size)
  {
    var remainder := size % Alignment;
    if size == 0 then Alignment
    else if remainder == 0 then size
    else (size - remainder + Alignment) % SizeLimit
  }

  /** The 31 largest requests wrap to a zero-byte request. */
  lemma RoundUp32Wraps(size: nat)
    requires SizeLimit - Alignment < size < SizeLimit
    ensures RoundUp32AsWritten(size) == 0
    ensures RoundUp32(size) == SizeLimit
  {
    assert size - size % Alignment == SizeLimit - Alignment;
  }

  // ---------------------------------------------------------------- tiling

  /** `cs` lies back to back from `from` to `to`, each chunk with a header and 32 data bytes. */
  predicate Covers(cs: seq<Chunk>, from: int, to: int)
  {
    && |cs| > 0
    && cs[0].offset == from
    && End(cs[|cs| - 1]) == to
    && (forall i :: 0 <= i < |cs| ==> cs[i].size >= MinChunk)
    && (forall i :: 0 <= i < |cs| - 1 ==> End(cs[i]) == cs[i + 1].offset)
  }

  predicate Tiles(cs: seq<Chunk>) { Covers(cs, 0, PoolSize) }

  /** After any free completes, no two physical neighbours are both free. */
  predicate Coalesced(cs: seq<Chunk>)
  {
    forall i :: 0 <= i < |cs| - 1 ==> !(cs[i].free && cs[i + 1].free)
  }

  lemma {:induction false} OffsetsIncrease(cs: seq<Chunk>, from: int, to: int, i: int, j: int)
    requires Covers(cs, from, to) && 0 <= i < j < |cs|
    ensures End(cs[i]) <= cs[j].offset
    decreases j - i
  {
    if j > i + 1 {
      OffsetsIncrease(cs, from, to, i, j - 1);
    }
  }

  lemma OffsetsDistinct(cs: seq<Chunk>, i: int)
    requires Tiles(cs) && 0 <= i < |cs|
    ensures forall j :: 0 <= j < |cs| && j != i ==> cs[j].offset != cs[i].offset
  {
    forall j | 0 <= j < |cs| && j != i
      ensures cs[j].offset != cs[i].offset
    {
      if j < i { OffsetsIncrease(cs, 0, PoolSize, j, i); } else { OffsetsIncrease(cs, 0, PoolSize, i, j); }
    }
  }

  /** Every chunk of a tiling lies inside the pool. */
  lemma InPool(cs: seq<Chunk>, i: int)
    requires Tiles(cs) && 0 <= i < |cs|
    ensures 0 <= cs[i].offset && End(cs[i]) <= PoolSize
    ensures MinChunk <= cs[i].size <= PoolSize
    ensures End(cs[i]) < PoolSize <==> i < |cs| - 1
  {
    if i > 0 { OffsetsIncrease(cs, 0, PoolSize, 0, i); }
    if i < |cs| - 1 { OffsetsIncrease(cs, 0, PoolSize, i, |cs| - 1); }
  }

  function TotalSize(cs: seq<Chunk>): int
  {
    if cs == [] then 0 else TotalSize(cs[..|cs| - 1]) + cs[|cs| - 1].size
  }

  lemma {:induction false} PrefixTotal(cs: seq<Chunk>, k: int)
    requires Tiles(cs) && 1 <= k <= |cs|
    ensures TotalSize(cs[..k]) == End(cs[k - 1])
  {
    if k == 1 {
      assert cs[..1][..0] == [];
    } else {
      PrefixTotal(cs, k - 1);
      assert cs[..k][..k - 1] == cs[..k - 1];
    }
  }

  /** The chunk sizes of a tiling sum to POOL_SIZE. */
  lemma TilesTotal(cs: seq<Chunk>)
    requires Tiles(cs)
    ensures TotalSize(cs) == PoolSize
  {
    PrefixTotal(cs, |cs|);
    assert cs[..|cs|] == cs;
  }

  /** Replacing the run cs[a..b] by chunks covering the same bytes keeps the tiling. */
  lemma SpliceTiles(cs: seq<Chunk>, a: int, b: int, mid: seq<Chunk>)
    requires Tiles(cs) && 0 <= a < b <= |cs|
    requires Covers(mid, cs[a].offset, End(cs[b - 1]))
    ensures Tiles(cs[..a] + mid + cs[b..])
  {
    var r := cs[..a] + mid + cs[b..];
    var m := |mid|;
    assert |r| == a + m + (|cs| - b);
    forall k | 0 <= k < |r|
      ensures r[k].size >= MinChunk
    {
      if k < a { assert r[k] == cs[k]; }
      else if k < a + m { assert r[k] == mid[k - a]; }
      else { assert r[k] == cs[k - a - m + b]; }
    }
    forall k | 0 <= k < |r| - 1
      ensures End(r[k]) == r[k + 1].offset
    {
      if k < a - 1 {
        assert r[k] == cs[k] && r[k + 1] == cs[k + 1];
      } else if k == a - 1 {
        assert r[k] == cs[a - 1] && r[k + 1] == mid[0];
      } else if k < a + m - 1 {
        assert r[k] == mid[k - a] && r[k + 1] == mid[k - a + 1];
      } else if k == a + m - 1 {
        assert r[k] == mid[m - 1] && r[k + 1] == cs[b];
      } else {
        assert r[k] == cs[k - a - m + b] && r[k + 1] == cs[k - a - m + b + 1];
      }
    }
    if a == 0 { assert r[0] == mid[0]; } else { assert r[0] == cs[0]; }
    if b == |cs| { assert r[|r| - 1] == mid[m - 1]; } else { assert r[|r| - 1] == cs[|cs| - 1]; }
  }

  /** A splice keeps neighbours apart when its free ends border used chunks. */
  lemma SpliceCoalesced(cs: seq<Chunk>, a: int, b: int, mid: seq<Chunk>)
    requires Coalesced(cs) && 0 <= a < b <= |cs| && Coalesced(mid) && |mid| > 0
    requires a > 0 && mid[0].free ==> !cs[a - 1].free
    requires b < |cs| && mid[|mid| - 1].free ==> !cs[b].free
    ensures Coalesced(cs[..a] + mid + cs[b..])
  {
    var r := cs[..a] + mid + cs[b..];
    var m := |mid|;
    forall k | 0 <= k < |r| - 1
      ensures !(r[k].free && r[k + 1].free)
    {
      if k < a - 1 {
        assert r[k] == cs[k] && r[k + 1] == cs[k + 1];
      } else if k == a - 1 {
        assert r[k] == cs[a - 1] && r[k + 1] == mid[0];
      } else if k < a + m - 1 {
        assert r[k] == mid[k - a] && r[k + 1] == mid[k - a + 1];
      } else if k == a + m - 1 {
        assert r[k] == mid[m - 1] && r[k + 1] == cs[b];
      } else {
        assert r[k] == cs[k - a - m + b] && r[k + 1] == cs[k - a - m + b + 1];
      }
    }
  }

  // ---------------------------------------------------------------- header lookup

  /** The position of the header at offset `o`, if there is one. */
  function IndexOf(cs: seq<Chunk>, o: int): (r: Option<nat>)
    ensures r.Some? ==> r.value < |cs| && cs[r.value].offset == o
    ensures r.None? ==> forall i :: 0 <= i < |cs| ==> cs[i].offset != o
  {
    if cs == [] then None
    else if cs[|cs| - 1].offset == o then Some(|cs| - 1)
    else IndexOf(cs[..|cs| - 1], o)
  }

  lemma IndexOfChunk(cs: seq<Chunk>, i: int)
    requires Tiles(cs) && 0 <= i < |cs|
    ensures IndexOf(cs, cs[i].offset) == Some(i)
  {
    OffsetsDistinct(cs, i);
  }

  /** The data size recorded in the header at `o`; -1 when there is none. */
  function DataAt(cs: seq<Chunk>, o: int): int
  {
    match IndexOf(cs, o)
    case Some(i) => Data(cs[i])
    case None => -1
  }

  /** Every header of a tiling records at most POOL_SIZE - HEADER_SIZE data bytes. */
  lemma DataAtBound(cs: seq<Chunk>, o: int)
    requires Tiles(cs)
    ensures DataAt(cs, o) <= PoolSize - HeaderSize
  {
    match IndexOf(cs, o)
    case Some(i) => InPool(cs, i);
    case None =>
  }

  /**
   * What find_prev_phys finds: the chunk whose physical successor starts at
   * `o`; none for the pool start.
   */
  function PrevPhys(cs: seq<Chunk>, o: int): (r: Option<nat>)
    ensures r.Some? ==> r.value < |cs| && End(cs[r.value]) == o
  {
    if o == 0 then None else PrevFrom(cs, o, 0)
  }

  function PrevFrom(cs: seq<Chunk>, o: int, j: nat): (r: Option<nat>)
    ensures r.Some? ==> j <= r.value < |cs| && End(cs[r.value]) == o
    decreases |cs| - j
  {
    if j >= |cs| then None
    else if cs[j].size == 0 then None
    else if End(cs[j]) == o then Some(j)
    else if End(cs[j]) >= PoolSize then None
    else PrevFrom(cs, o, j + 1)
  }

  /**
   * find_prev_phys: walk the headers from the pool start, stepping by
   * total_size to the next header, until one ends where `o` starts; the walk
   * gives up on a zero size or once it would leave the pool.
   */
  method FindPrevPhys(cs: seq<Chunk>, o: int) returns (r: Option<nat>)
    ensures r == PrevPhys(cs, o)
  {
    if o == 0 {
      return None;
    }
    var j := 0;
    while j < |cs|
      invariant 0 <= j <= |cs|
      invariant PrevFrom(cs, o, j) == PrevFrom(cs, o, 0)
    {
      if cs[j].size == 0 {
        return None;
      }
      if End(cs[j]) == o {
        return Some(j);
      }
      if End(cs[j]) >= PoolSize {
        return None;
      }
      j := j + 1;
    }
    return None;
  }

  lemma {:induction false} PrevFromFinds(cs: seq<Chunk>, i: int, j: nat)
    requires Tiles(cs) && j < i < |cs|
    ensures PrevFrom(cs, cs[i].offset, j) == Some(i - 1)
    decreases i - j
  {
    InPool(cs, j);
    if j < i - 1 {
      OffsetsIncrease(cs, 0, PoolSize, j + 1, i);
      PrevFromFinds(cs, i, j + 1);
    }
  }

  /** The walk finds exactly the physical predecessor, and nothing for the first chunk. */
  lemma PrevPhysIsPredecessor(cs: seq<Chunk>, i: int)
    requires Tiles(cs) && 0 <= i < |cs|
    ensures PrevPhys(cs, cs[i].offset) == if i == 0 then None else Some(i - 1)
  {
    if i > 0 {
      OffsetsIncrease(cs, 0, PoolSize, 0, i);
      PrevFromFinds(cs, i, 0);
    }
  }

  // ---------------------------------------------------------------- free lists

  function Tag(c: Chunk, l: int): multiset<int>
  {
    if c.free && Class(c) == l then multiset{c.offset} else multiset{}
  }

  /** Offsets of the free chunks of size class `l`. */
  function FreeMs(cs: seq<Chunk>, l: int): multiset<int>
  {
    if cs == [] then multiset{} else FreeMs(cs[..|cs| - 1], l) + Tag(cs[|cs| - 1], l)
  }

  lemma {:induction false} FreeMsAppend(a: seq<Chunk>, b: seq<Chunk>, l: int)
    ensures FreeMs(a + b, l) == FreeMs(a, l) + FreeMs(b, l)
    decreases |b|
  {
    if b == [] {
      assert a + b == a;
    } else {
      assert (a + b)[..|a + b| - 1] == a + b[..|b| - 1];
      FreeMsAppend(a, b[..|b| - 1], l);
    }
  }

  lemma FreeMsSingle(c: Chunk, l: int)
    ensures FreeMs([c], l) == Tag(c, l)
  {
    assert [c][..0] == [];
  }

  lemma FreeMsThree(a: seq<Chunk>, mid: seq<Chunk>, b: seq<Chunk>, l: int)
    ensures FreeMs(a + mid + b, l) == FreeMs(a, l) + FreeMs(mid, l) + FreeMs(b, l)
  {
    FreeMsAppend(a + mid, b, l);
    FreeMsAppend(a, mid, l);
  }

  lemma FreeMsSplice(cs: seq<Chunk>, a: int, b: int, mid: seq<Chunk>, l: int)
    requires 0 <= a <= b <= |cs|
    ensures FreeMs(cs, l) == FreeMs(cs[..a], l) + FreeMs(cs[a..b], l) + FreeMs(cs[b..], l)
    ensures FreeMs(cs[..a] + mid + cs[b..], l) == FreeMs(cs[..a], l) + FreeMs(mid, l) + FreeMs(cs[b..], l)
  {
    assert cs == cs[..a] + cs[a..b] + cs[b..];
    FreeMsAppend(cs[..a] + cs[a..b], cs[b..], l);
    FreeMsAppend(cs[..a], cs[a..b], l);
    FreeMsAppend(cs[..a] + mid, cs[b..], l);
    FreeMsAppend(cs[..a], mid, l);
  }

  /**
   * The free-list invariant: list `l` holds, once each, the offsets of exactly
   * the free chunks whose data size falls in class `l`.
   */
  predicate ListsOk(cs: seq<Chunk>, lists: seq<seq<int>>)
  {
    |lists| == NumLevels && forall l {:trigger FreeMs(cs, l)} :: 0 <= l < NumLevels ==> multiset(lists[l]) == FreeMs(cs, l)
  }

  lemma {:induction false} FreeMember(cs: seq<Chunk>, l: int, o: int) returns (i: nat)
    requires o in FreeMs(cs, l)
    ensures i < |cs| && cs[i].offset == o && cs[i].free && Class(cs[i]) == l
    decreases |cs|
  {
    if o in Tag(cs[|cs| - 1], l) {
      i := |cs| - 1;
    } else {
      i := FreeMember(cs[..|cs| - 1], l, o);
    }
  }

  lemma {:induction false} FreeListed(cs: seq<Chunk>, i: int)
    requires 0 <= i < |cs| && cs[i].free
    ensures cs[i].offset in FreeMs(cs, Class(cs[i]))
    decreases |cs|
  {
    if i < |cs| - 1 {
      assert cs[..|cs| - 1][i] == cs[i];
      FreeListed(cs[..|cs| - 1], i);
    }
  }

  /** Every list entry is the header of a free chunk of that list's class. */
  lemma ListedChunk(cs: seq<Chunk>, lists: seq<seq<int>>, l: int, p: int) returns (i: nat)
    requires Tiles(cs) && ListsOk(cs, lists) && 0 <= l < NumLevels && 0 <= p < |lists[l]|
    ensures i < |cs| && cs[i].offset == lists[l][p] && cs[i].free && Class(cs[i]) == l
    ensures DataAt(cs, lists[l][p]) == Data(cs[i])
  {
    assert lists[l][p] in multiset(lists[l]);
    i := FreeMember(cs, l, lists[l][p]);
    IndexOfChunk(cs, i);
  }

  /** The first position of `o` in a list. */
  function Pos(s: seq<int>, o: int): (k: nat)
    requires o in s
    ensures k < |s| && s[k] == o && o !in s[..k]
  {
    if s[0] == o then 0
    else
      var k := 1 + Pos(s[1..], o);
      assert s[..k] == [s[0]] + s[1..][..k - 1];
      k
  }

  /** remove_from_free_list on one list: the first `o` is unlinked. */
  function Without(s: seq<int>, o: int): seq<int>
  {
    if s == [] then []
    else if s[0] == o then s[1..]
    else [s[0]] + Without(s[1..], o)
  }

  /** Unlinking removes one `o` from the list's entries, and nothing when there is none. */
  lemma {:induction false} WithoutMs(s: seq<int>, o: int)
    ensures multiset(Without(s, o)) == multiset(s) - multiset{o}
    ensures o !in s ==> Without(s, o) == s
  {
    if s != [] {
      assert s == [s[0]] + s[1..];
      if s[0] != o {
        WithoutMs(s[1..], o);
      }
    }
  }

  /**
   * Unlinking keeps the other entries in their order: it cuts out exactly the
   * first occurrence of `o`, at position `k`.
   */
  lemma {:induction false} WithoutCutsOut(s: seq<int>, o: int, k: int)
    requires 0 <= k < |s| && s[k] == o && o !in s[..k]
    ensures Without(s, o) == s[..k] + s[k + 1..]
  {
    if k > 0 {
      assert s[0] in s[..k];
      assert s[1..][..k - 1] == s[1..k];
      WithoutCutsOut(s[1..], o, k - 1);
      assert s[..k] == [s[0]] + s[1..][..k - 1];
      assert s[k + 1..] == s[1..][k..];
    }
  }

  function Unlink(lists: seq<seq<int>>, o: int, l: int): (r: seq<seq<int>>)
    requires 0 <= l < |lists|
    ensures |r| == |lists|
  {
    lists[l := Without(lists[l], o)]
  }

  lemma UnlinkMs(lists: seq<seq<int>>, o: int, k: int, l: int)
    requires 0 <= k < |lists| && 0 <= l < |lists|
    ensures multiset(Unlink(lists, o, k)[l]) == multiset(lists[l]) - (if l == k then multiset{o} else multiset{})
  {
    WithoutMs(lists[k], o);
  }

  /** add_to_free_list on one list: `o` becomes the new tail. */
  function Link(lists: seq<seq<int>>, o: int, l: int): (r: seq<seq<int>>)
    requires 0 <= l < |lists|
    ensures |r| == |lists|
  {
    lists[l := lists[l] + [o]]
  }

  lemma LinkMs(lists: seq<seq<int>>, o: int, k: int, l: int)
    requires 0 <= k < |lists| && 0 <= l < |lists|
    ensures multiset(Link(lists, o, k)[l]) == multiset(lists[l]) + (if l == k then multiset{o} else multiset{})
  {
  }

  /** Unlinking a free chunk's offset from its own list removes exactly its tag. */
  lemma UnlinkTag(lists: seq<seq<int>>, c: Chunk, l: int)
    requires |lists| == NumLevels && c.free && 0 <= l < NumLevels
    ensures multiset(Unlink(lists, c.offset, Class(c))[l]) == multiset(lists[l]) - Tag(c, l)
  {
    UnlinkMs(lists, c.offset, Class(c), l);
  }

  /** Linking a free chunk's offset into its own list adds exactly its tag. */
  lemma LinkTag(lists: seq<seq<int>>, c: Chunk, l: int)
    requires |lists| == NumLevels && c.free && 0 <= l < NumLevels
    ensures multiset(Link(lists, c.offset, Class(c))[l]) == multiset(lists[l]) + Tag(c, l)
  {
    LinkMs(lists, c.offset, Class(c), l);
  }

  // ---------------------------------------------------------------- initial pool

  function InitialChunks(): seq<Chunk> { [Chunk(0, PoolSize, true)] }

  function InitialLists(): seq<seq<int>>
  {
    seq(NumLevels, l => if l == SizeClass(PoolSize - HeaderSize) then [0] else [])
  }

  /** init_pool: one free chunk spans the pool and sits alone in the top list. */
  lemma InitialValid()
    ensures Tiles(InitialChunks()) && Coalesced(InitialChunks())
    ensures ListsOk(InitialChunks(), InitialLists())
  {
    var cs := InitialChunks();
    forall l | 0 <= l < NumLevels
      ensures multiset(InitialLists()[l]) == FreeMs(cs, l)
    {
      assert cs[..0] == [];
    }
  }

  // ---------------------------------------------------------------- best fit

  /**
   * The scan of one free list from head to tail: the first entry whose data
   * size is at least `need` with the smallest excess (a later entry replaces
   * the current best only when strictly better).  A position in the list.
   */
  function BestIn(cs: seq<Chunk>, s: seq<int>, need: int): (r: Option<nat>)
    ensures r.Some? ==> r.value < |s|
    decreases |s|
  {
    if s == [] then None
    else
      var best := BestIn(cs, s[..|s| - 1], need);
      var d := DataAt(cs, s[|s| - 1]);
      if d >= need && (best.None? || d - need < DataAt(cs, s[best.value]) - need) then Some(|s| - 1)
      else best
  }

  /**
   * The scan finds an entry exactly when one fits; the entry it finds fits
   * with the least excess in the list, and every earlier entry either does
   * not fit or has strictly more excess.
   */
  lemma {:induction false} BestInIsBest(cs: seq<Chunk>, s: seq<int>, need: int)
    ensures var r := BestIn(cs, s, need);
      && (r.None? <==> forall p :: 0 <= p < |s| ==> DataAt(cs, s[p]) < need)
      && (r.Some? ==> DataAt(cs, s[r.value]) >= need)
      && (r.Some? ==> forall p :: 0 <= p < |s| && DataAt(cs, s[p]) >= need ==> DataAt(cs, s[r.value]) <= DataAt(cs, s[p]))
      && (r.Some? ==> forall p :: 0 <= p < r.value ==> DataAt(cs, s[p]) < need || DataAt(cs, s[p]) > DataAt(cs, s[r.value]))
    decreases |s|
  {
    if s != [] {
      BestInIsBest(cs, s[..|s| - 1], need);
      assert forall p :: 0 <= p < |s| - 1 ==> s[..|s| - 1][p] == s[p];
    }
  }

  /** One more entry scanned: it becomes the best exactly when it fits with strictly less excess. */
  lemma BestInStep(cs: seq<Chunk>, s: seq<int>, p: int, need: int)
    requires 0 <= p < |s|
    ensures var best := BestIn(cs, s[..p], need);
      BestIn(cs, s[..p + 1], need) ==
        if DataAt(cs, s[p]) >= need && (best.None? || DataAt(cs, s[p]) < DataAt(cs, s[best.value])) then Some(p)
        else best
  {
    assert s[..p + 1][..p] == s[..p];
    assert s[..p + 1][p] == s[p];
    var best := BestIn(cs, s[..p], need);
    if best.Some? {
      assert s[..p][best.value] == s[best.value];
    }
  }

  /** Levels are searched upward from `l`; the first level with a fit decides. */
  function BestAbove(cs: seq<Chunk>, lists: seq<seq<int>>, need: int, l: int): (r: Option<int>)
    requires |lists| == NumLevels && 0 <= l <= NumLevels
    decreases NumLevels - l
  {
    if l == NumLevels then None
    else match BestIn(cs, lists[l], need)
      case Some(k) => Some(lists[l][k])
      case None => BestAbove(cs, lists, need, l + 1)
  }

  /** A free chunk of class `l` that fits is found by scanning list `l`. */
  lemma FitListed(cs: seq<Chunk>, lists: seq<seq<int>>, need: int, j: int)
    requires Tiles(cs) && ListsOk(cs, lists) && 0 <= j < |cs| && cs[j].free
    ensures BestIn(cs, lists[Class(cs[j])], need).Some? ==>
      DataAt(cs, lists[Class(cs[j])][BestIn(cs, lists[Class(cs[j])], need).value]) <= Data(cs[j]) || Data(cs[j]) < need
    ensures Data(cs[j]) >= need ==> BestIn(cs, lists[Class(cs[j])], need).Some?
  {
    var l := Class(cs[j]);
    BestInIsBest(cs, lists[l], need);
    FreeListed(cs, j);
    assert cs[j].offset in multiset(lists[l]);
    var p :| 0 <= p < |lists[l]| && lists[l][p] == cs[j].offset;
    IndexOfChunk(cs, j);
    assert DataAt(cs, lists[l][p]) == Data(cs[j]);
  }

  /** What the upward search returns, in terms of the free chunks themselves. */
  predicate BestFitSpec(cs: seq<Chunk>, need: int, r: Option<int>)
  {
    && (r.None? <==> forall j :: 0 <= j < |cs| && cs[j].free ==> Data(cs[j]) < need)
    && (r.Some? ==>
          exists i :: 0 <= i < |cs| && cs[i].offset == r.value && cs[i].free && Data(cs[i]) >= need &&
            (forall j :: 0 <= j < |cs| && cs[j].free && Data(cs[j]) >= need ==> Data(cs[i]) <= Data(cs[j])))
  }

  lemma {:induction false} BestAboveSpec(cs: seq<Chunk>, lists: seq<seq<int>>, need: int, l: int)
    requires Tiles(cs) && ListsOk(cs, lists) && 0 <= l <= NumLevels
    requires forall j :: 0 <= j < |cs| && cs[j].free && Class(cs[j]) < l ==> Data(cs[j]) < need
    ensures BestFitSpec(cs, need, BestAbove(cs, lists, need, l))
    decreases NumLevels - l
  {
    if l < NumLevels {
      match BestIn(cs, lists[l], need)
      case Some(k) =>
        BestInIsBest(cs, lists[l], need);
        var i := ListedChunk(cs, lists, l, k);
        forall j | 0 <= j < |cs| && cs[j].free && Data(cs[j]) >= need
          ensures Data(cs[i]) <= Data(cs[j])
        {
          if Class(cs[j]) == l {
            FitListed(cs, lists, need, j);
          } else {
            ClassOrder(Data(cs[i]), Data(cs[j]));
          }
        }
      case None =>
        forall j | 0 <= j < |cs| && cs[j].free && Class(cs[j]) < l + 1
          ensures Data(cs[j]) < need
        {
          if Class(cs[j]) == l {
            FitListed(cs, lists, need, j);
          }
        }
        BestAboveSpec(cs, lists, need, l + 1);
    }
  }

  /**
   * Searching from the request's own class finds a chunk exactly when some
   * free chunk is large enough, and then one with the least excess over the
   * whole pool: smaller classes hold only smaller chunks, larger classes only
   * larger ones.
   */
  lemma BestFitIsGlobal(cs: seq<Chunk>, lists: seq<seq<int>>, need: int)
    requires Tiles(cs) && ListsOk(cs, lists)
    ensures BestFitSpec(cs, need, BestAbove(cs, lists, need, SizeClass(need)))
  {
    forall j | 0 <= j < |cs| && cs[j].free && Class(cs[j]) < SizeClass(need)
      ensures Data(cs[j]) < need
    {
      ClassOrder(Data(cs[j]), need);
    }
    BestAboveSpec(cs, lists, need, SizeClass(need));
  }

  /** The search result is the header of a free chunk large enough for the request. */
  lemma BestAboveChunk(cs: seq<Chunk>, lists: seq<seq<int>>, need: int, l: int) returns (i: nat)
    requires Tiles(cs) && ListsOk(cs, lists) && 0 <= l <= NumLevels
    requires BestAbove(cs, lists, need, l).Some?
    ensures i < |cs| && cs[i].offset == BestAbove(cs, lists, need, l).value
    ensures cs[i].free && Data(cs[i]) >= need && IndexOf(cs, cs[i].offset) == Some(i)
    ensures cs[i].offset in lists[Class(cs[i])]
    decreases NumLevels - l
  {
    match BestIn(cs, lists[l], need)
    case Some(k) =>
      BestInIsBest(cs, lists[l], need);
      i := ListedChunk(cs, lists, l, k);
      IndexOfChunk(cs, i);
    case None =>
      i := BestAboveChunk(cs, lists, need, l + 1);
  }

  // ---------------------------------------------------------------- malloc(0) report

  /** The largest data size among chunks marked free, walking the pool physically; 0 if none. */
  function MaxFreeData(cs: seq<Chunk>): (m: int)
    ensures m >= 0
    ensures forall i :: 0 <= i < |cs| && cs[i].free ==> Data(cs[i]) <= m
    ensures m == 0 || exists i :: 0 <= i < |cs| && cs[i].free && Data(cs[i]) == m
  {
    if cs == [] then 0
    else
      var m := MaxFreeData(cs[..|cs| - 1]);
      var last := cs[|cs| - 1];
      assert forall i :: 0 <= i < |cs| - 1 ==> cs[..|cs| - 1][i] == cs[i];
      if last.free && Data(last) > m then Data(last) else m
  }

  /** Any bound of the free data sizes that some free chunk (or 0) attains is MaxFreeData. */
  lemma MaxFreeUnique(cs: seq<Chunk>, m: int)
    requires m >= 0 && forall i :: 0 <= i < |cs| && cs[i].free ==> Data(cs[i]) <= m
    requires m == 0 || exists i :: 0 <= i < |cs| && cs[i].free && Data(cs[i]) == m
    ensures m == MaxFreeData(cs)
  {
  }

  // ---------------------------------------------------------------- malloc: carving

  /**
   * What chunk `c` becomes when handed out for a request of `need` bytes
   * (header included): a used chunk of `need` bytes followed by a free tail
   * when at least MinChunk bytes remain, otherwise the whole chunk, used.
   */
  function Tail(c: Chunk, need: int): Chunk
  {
    Chunk(c.offset + need, c.size - need, true)
  }

  function Pieces(c: Chunk, need: int): seq<Chunk>
  {
    if c.size - need >= MinChunk then [Chunk(c.offset, need, false), Tail(c, need)]
    else [c.(free := false)]
  }

  /** The pool after handing out chunk `i`. */
  function Carve(cs: seq<Chunk>, i: int, need: int): seq<Chunk>
    requires 0 <= i < |cs|
  {
    cs[..i] + Pieces(cs[i], need) + cs[i + 1..]
  }

  /** The free lists after carving: the chunk leaves its list, a split-off tail joins its own. */
  function CarveLists(cs: seq<Chunk>, lists: seq<seq<int>>, i: int, need: int): (r: seq<seq<int>>)
    requires 0 <= i < |cs| && |lists| == NumLevels
    ensures |r| == NumLevels
  {
    var unlinked := Unlink(lists, cs[i].offset, Class(cs[i]));
    if cs[i].size - need >= MinChunk then
      Link(unlinked, Tail(cs[i], need).offset, Class(Tail(cs[i], need)))
    else unlinked
  }

  /**
   * The splitting rule: the chunk handed out starts where the old one did, is
   * marked used and holds at least `need` bytes; with a split the two pieces
   * add up to the old size and the free tail holds at least MinChunk bytes;
   * without one the whole chunk is handed out.  Nothing else changes.
   */
  lemma CarveShape(cs: seq<Chunk>, i: int, need: int)
    requires 0 <= i < |cs| && need <= cs[i].size
    ensures var r := Carve(cs, i, need);
      && r[..i] == cs[..i]
      && r[i].offset == cs[i].offset && !r[i].free && r[i].size >= need
      && (cs[i].size - need >= MinChunk ==>
            |r| == |cs| + 1 && r[i].size == need && r[i + 1].free && r[i + 1].size >= MinChunk
            && r[i].size + r[i + 1].size == cs[i].size && End(r[i]) == r[i + 1].offset && r[i + 2..] == cs[i + 1..])
      && (cs[i].size - need < MinChunk ==> |r| == |cs| && r[i].size == cs[i].size && r[i + 1..] == cs[i + 1..])
  {
    var r := Carve(cs, i, need);
    var p := Pieces(cs[i], need);
    assert r[..i] == cs[..i];
    assert r[i] == p[0];
    assert r[i + |p|..] == cs[i + 1..];
    if |p| == 2 { assert r[i + 1] == p[1]; }
  }

  lemma PiecesCover(c: Chunk, need: int)
    requires c.size >= MinChunk && need >= MinChunk
    ensures Covers(Pieces(c, need), c.offset, End(c))
  {
  }

  lemma PiecesFree(c: Chunk, need: int, l: int)
    ensures FreeMs(Pieces(c, need), l) ==
      if c.size - need >= MinChunk then Tag(Tail(c, need), l) else multiset{}
  {
    var p := Pieces(c, need);
    FreeMsSingle(p[0], l);
    if |p| == 2 {
      assert p == [p[0]] + [p[1]];
      FreeMsAppend([p[0]], [p[1]], l);
      FreeMsSingle(p[1], l);
    }
  }

  lemma CarveTiles(cs: seq<Chunk>, i: int, need: int)
    requires Tiles(cs) && 0 <= i < |cs| && MinChunk <= need
    ensures Tiles(Carve(cs, i, need)) && TotalSize(Carve(cs, i, need)) == PoolSize
  {
    PiecesCover(cs[i], need);
    SpliceTiles(cs, i, i + 1, Pieces(cs[i], need));
    TilesTotal(Carve(cs, i, need));
  }

  lemma CarveCoalesced(cs: seq<Chunk>, i: int, need: int)
    requires Coalesced(cs) && 0 <= i < |cs| && cs[i].free
    ensures Coalesced(Carve(cs, i, need))
  {
    SpliceCoalesced(cs, i, i + 1, Pieces(cs[i], need));
  }

  /** Multiset bookkeeping shared by the carve and release proofs: replace `t` by `r` in the middle. */
  lemma SwapMiddle(x: multiset<int>, a: multiset<int>, t: multiset<int>, b: multiset<int>, r: multiset<int>)
    requires x == a + t + b
    ensures x - t + r == a + r + b
  {
  }

  /**
   * Replacing chunks a..b-1 by `mid` changes the free chunks of level `l` by
   * `t` out and `r` in; a list that changed the same way still matches.
   */
  lemma LevelSplice(cs: seq<Chunk>, a: int, b: int, mid: seq<Chunk>, list: seq<int>, list': seq<int>,
                    t: multiset<int>, r: multiset<int>, l: int)
    requires 0 <= a <= b <= |cs|
    requires multiset(list) == FreeMs(cs, l)
    requires FreeMs(cs[a..b], l) == t && FreeMs(mid, l) == r
    requires multiset(list') == multiset(list) - t + r
    ensures multiset(list') == FreeMs(cs[..a] + mid + cs[b..], l)
  {
    FreeMsSplice(cs, a, b, mid, l);
    SwapMiddle(multiset(list), FreeMs(cs[..a], l), t, FreeMs(cs[b..], l), r);
  }

  /** Removing two parts one after the other removes their sum. */
  lemma SubTwice(x: multiset<int>, a: multiset<int>, b: multiset<int>, run: multiset<int>)
    requires run == a + b
    ensures x - b - a == x - run
  {
  }

  /** The list at level `l` after carving, as a multiset. */
  lemma CarveListsMs(cs: seq<Chunk>, lists: seq<seq<int>>, i: int, need: int, l: int)
    requires |lists| == NumLevels && 0 <= i < |cs| && cs[i].free && 0 <= l < NumLevels
    ensures multiset(CarveLists(cs, lists, i, need)[l]) ==
      multiset(lists[l]) - Tag(cs[i], l) + FreeMs(Pieces(cs[i], need), l)
  {
    UnlinkTag(lists, cs[i], l);
    PiecesFree(cs[i], need, l);
    if cs[i].size - need >= MinChunk {
      LinkTag(Unlink(lists, cs[i].offset, Class(cs[i])), Tail(cs[i], need), l);
    } else {
      assert multiset(lists[l]) - Tag(cs[i], l) + multiset{} == multiset(lists[l]) - Tag(cs[i], l);
    }
  }

  lemma FreeMsAt(cs: seq<Chunk>, i: int, l: int)
    requires 0 <= i < |cs|
    ensures FreeMs(cs[i..i + 1], l) == Tag(cs[i], l)
  {
    assert cs[i..i + 1] == [cs[i]];
    FreeMsSingle(cs[i], l);
  }

  lemma CarveLevel(cs: seq<Chunk>, lists: seq<seq<int>>, i: int, need: int, l: int)
    requires |lists| == NumLevels && 0 <= i < |cs| && cs[i].free && 0 <= l < NumLevels
    requires multiset(lists[l]) == FreeMs(cs, l)
    ensures multiset(CarveLists(cs, lists, i, need)[l]) == FreeMs(Carve(cs, i, need), l)
  {
    CarveListsMs(cs, lists, i, need, l);
    FreeMsAt(cs, i, l);
    LevelSplice(cs, i, i + 1, Pieces(cs[i], need), lists[l], CarveLists(cs, lists, i, need)[l],
                Tag(cs[i], l), FreeMs(Pieces(cs[i], need), l), l);
  }

  lemma CarveListsOk(cs: seq<Chunk>, lists: seq<seq<int>>, i: int, need: int)
    requires ListsOk(cs, lists) && 0 <= i < |cs| && cs[i].free
    ensures ListsOk(Carve(cs, i, need), CarveLists(cs, lists, i, need))
  {
    forall l | 0 <= l < NumLevels
      ensures multiset(CarveLists(cs, lists, i, need)[l]) == FreeMs(Carve(cs, i, need), l)
    {
      CarveLevel(cs, lists, i, need, l);
    }
  }

  // ---------------------------------------------------------------- free: coalescing

  /** The first chunk of the merged run: the predecessor when it is free. */
  function Lo(cs: seq<Chunk>, i: int): int
    requires 0 <= i < |cs|
  {
    if i > 0 && cs[i - 1].free then i - 1 else i
  }

  /** The last chunk of the merged run: the successor when it is free. */
  function Hi(cs: seq<Chunk>, i: int): int
    requires 0 <= i < |cs|
  {
    if i + 1 < |cs| && cs[i + 1].free then i + 1 else i
  }

  /** The free chunk that replaces chunks Lo..Hi. */
  function Merged(cs: seq<Chunk>, i: int): Chunk
    requires 0 <= i < |cs|
  {
    Chunk(cs[Lo(cs, i)].offset, End(cs[Hi(cs, i)]) - cs[Lo(cs, i)].offset, true)
  }

  /** The pool after freeing used chunk `i`. */
  function Release(cs: seq<Chunk>, i: int): seq<Chunk>
    requires 0 <= i < |cs|
  {
    cs[..Lo(cs, i)] + [Merged(cs, i)] + cs[Hi(cs, i) + 1..]
  }

  /** First step of freeing: a free successor leaves its list. */
  function UnlinkNext(cs: seq<Chunk>, lists: seq<seq<int>>, i: int): (r: seq<seq<int>>)
    requires 0 <= i < |cs| && |lists| == NumLevels
    ensures |r| == NumLevels
  {
    if Hi(cs, i) > i then Unlink(lists, cs[i + 1].offset, Class(cs[i + 1])) else lists
  }

  /** Second step of freeing: a free predecessor leaves its list. */
  function UnlinkPrev(cs: seq<Chunk>, lists: seq<seq<int>>, i: int): (r: seq<seq<int>>)
    requires 0 <= i < |cs| && |lists| == NumLevels
    ensures |r| == NumLevels
  {
    if Lo(cs, i) < i then Unlink(lists, cs[i - 1].offset, Class(cs[i - 1])) else lists
  }

  /**
   * The free lists after freeing chunk `i`: a free successor and then a free
   * predecessor leave their lists, and the merged chunk joins the tail of its own.
   */
  function ReleaseLists(cs: seq<Chunk>, lists: seq<seq<int>>, i: int): (r: seq<seq<int>>)
    requires 0 <= i < |cs| && |lists| == NumLevels
    ensures |r| == NumLevels
  {
    Link(UnlinkPrev(cs, UnlinkNext(cs, lists, i), i), Merged(cs, i).offset, Class(Merged(cs, i)))
  }

  /** The merged run's sizes add up to the bytes the merged chunk spans. */
  lemma RunTotal(cs: seq<Chunk>, i: int)
    requires Tiles(cs) && 0 <= i < |cs|
    ensures TotalSize(cs[Lo(cs, i)..Hi(cs, i) + 1]) == Merged(cs, i).size
  {
    var lo := Lo(cs, i);
    var hi := Hi(cs, i);
    var run := cs[lo..hi + 1];
    assert run[..0] == [];
    if hi >= lo + 1 {
      assert run[..1] == [run[0]] && run[..1][..0] == [];
      assert TotalSize(run[..1]) == run[0].size;
    }
    if hi == lo + 2 {
      assert run[..2][..1] == run[..1];
      assert TotalSize(run[..2]) == run[0].size + run[1].size;
    }
  }

  /**
   * Freeing replaces the used chunk and its free neighbours by one free chunk
   * spanning exactly their bytes; everything before and after is unchanged.
   */
  lemma ReleaseShape(cs: seq<Chunk>, i: int)
    requires Tiles(cs) && 0 <= i < |cs|
    ensures var r := Release(cs, i); var lo := Lo(cs, i); var hi := Hi(cs, i);
      && lo <= i <= hi && |r| == |cs| - (hi - lo)
      && r[..lo] == cs[..lo] && r[lo + 1..] == cs[hi + 1..]
      && r[lo].free && r[lo].offset <= cs[i].offset && End(cs[i]) <= End(r[lo])
      && r[lo].size == TotalSize(cs[lo..hi + 1])
  {
    var r := Release(cs, i);
    var lo := Lo(cs, i);
    assert r[..lo] == cs[..lo];
    assert r[lo + 1..] == cs[Hi(cs, i) + 1..];
    if lo < i { OffsetsIncrease(cs, 0, PoolSize, lo, i); }
    RunTotal(cs, i);
  }

  lemma ReleaseTiles(cs: seq<Chunk>, i: int)
    requires Tiles(cs) && 0 <= i < |cs|
    ensures Tiles(Release(cs, i)) && TotalSize(Release(cs, i)) == PoolSize
  {
    var lo := Lo(cs, i);
    var hi := Hi(cs, i);
    if lo < hi { OffsetsIncrease(cs, 0, PoolSize, lo, hi); }
    assert Covers([Merged(cs, i)], cs[lo].offset, End(cs[hi]));
    SpliceTiles(cs, lo, hi + 1, [Merged(cs, i)]);
    TilesTotal(Release(cs, i));
  }

  lemma ReleaseCoalesced(cs: seq<Chunk>, i: int)
    requires Coalesced(cs) && 0 <= i < |cs|
    ensures Coalesced(Release(cs, i))
  {
    SpliceCoalesced(cs, Lo(cs, i), Hi(cs, i) + 1, [Merged(cs, i)]);
  }

  /** The free chunks of the merged run are its free neighbours. */
  lemma FreeMsShort(x: seq<Chunk>, l: int)
    requires |x| <= 1
    ensures FreeMs(x, l) == if x == [] then multiset{} else Tag(x[0], l)
  {
    if x != [] { assert x[..0] == []; }
  }

  lemma FreeMsAround(left: seq<Chunk>, c: Chunk, right: seq<Chunk>, l: int)
    requires !c.free
    ensures FreeMs(left + [c] + right, l) == FreeMs(left, l) + FreeMs(right, l)
  {
    FreeMsAppend(left + [c], right, l);
    FreeMsAppend(left, [c], l);
    FreeMsSingle(c, l);
  }

  /** The free chunks of the merged run are those before and after the freed chunk. */
  lemma RunFree(cs: seq<Chunk>, lo: int, i: int, hi: int, l: int)
    requires 0 <= lo <= i <= hi < |cs| && !cs[i].free
    ensures FreeMs(cs[lo..hi + 1], l) == FreeMs(cs[lo..i], l) + FreeMs(cs[i + 1..hi + 1], l)
  {
    assert cs[lo..hi + 1] == cs[lo..i] + [cs[i]] + cs[i + 1..hi + 1];
    FreeMsAround(cs[lo..i], cs[i], cs[i + 1..hi + 1], l);
  }

  lemma UnlinkNextMs(cs: seq<Chunk>, lists: seq<seq<int>>, i: int, l: int)
    requires |lists| == NumLevels && 0 <= i < |cs| && 0 <= l < NumLevels
    ensures multiset(UnlinkNext(cs, lists, i)[l]) == multiset(lists[l]) - FreeMs(cs[i + 1..Hi(cs, i) + 1], l)
  {
    FreeMsShort(cs[i + 1..Hi(cs, i) + 1], l);
    if Hi(cs, i) > i {
      UnlinkTag(lists, cs[i + 1], l);
    } else {
      assert multiset(lists[l]) - multiset{} == multiset(lists[l]);
    }
  }

  lemma UnlinkPrevMs(cs: seq<Chunk>, lists: seq<seq<int>>, i: int, l: int)
    requires |lists| == NumLevels && 0 <= i < |cs| && 0 <= l < NumLevels
    ensures multiset(UnlinkPrev(cs, lists, i)[l]) == multiset(lists[l]) - FreeMs(cs[Lo(cs, i)..i], l)
  {
    FreeMsShort(cs[Lo(cs, i)..i], l);
    if Lo(cs, i) < i {
      UnlinkTag(lists, cs[i - 1], l);
    } else {
      assert multiset(lists[l]) - multiset{} == multiset(lists[l]);
    }
  }

  /** The list at level `l` after freeing, as a multiset: the run's free chunks out, the merged chunk in. */
  lemma ReleaseListsMs(cs: seq<Chunk>, lists: seq<seq<int>>, i: int, l: int)
    requires |lists| == NumLevels && 0 <= i < |cs| && !cs[i].free && 0 <= l < NumLevels
    ensures multiset(ReleaseLists(cs, lists, i)[l]) ==
      multiset(lists[l]) - FreeMs(cs[i + 1..Hi(cs, i) + 1], l) - FreeMs(cs[Lo(cs, i)..i], l) + Tag(Merged(cs, i), l)
  {
    UnlinkNextMs(cs, lists, i, l);
    UnlinkPrevMs(cs, UnlinkNext(cs, lists, i), i, l);
    LinkTag(UnlinkPrev(cs, UnlinkNext(cs, lists, i), i), Merged(cs, i), l);
  }

  /**
   * Replacing the run a..b-1 around the used chunk `i` by `mid`: a list that
   * lost the run's free chunks and gained those of `mid` still matches.
   */
  lemma RunSplice(cs: seq<Chunk>, a: int, i: int, b: int, mid: seq<Chunk>, list: seq<int>, list': seq<int>, l: int)
    requires 0 <= a <= i < b <= |cs| && !cs[i].free
    requires multiset(list) == FreeMs(cs, l)
    requires multiset(list') == multiset(list) - FreeMs(cs[i + 1..b], l) - FreeMs(cs[a..i], l) + FreeMs(mid, l)
    ensures multiset(list') == FreeMs(cs[..a] + mid + cs[b..], l)
  {
    RunFree(cs, a, i, b - 1, l);
    SubTwice(multiset(list), FreeMs(cs[a..i], l), FreeMs(cs[i + 1..b], l), FreeMs(cs[a..b], l));
    LevelSplice(cs, a, b, mid, list, list', FreeMs(cs[a..b], l), FreeMs(mid, l), l);
  }

  lemma ReleaseLevel(cs: seq<Chunk>, lists: seq<seq<int>>, i: int, l: int)
    requires |lists| == NumLevels && 0 <= i < |cs| && !cs[i].free && 0 <= l < NumLevels
    requires multiset(lists[l]) == FreeMs(cs, l)
    ensures multiset(ReleaseLists(cs, lists, i)[l]) == FreeMs(Release(cs, i), l)
  {
    ReleaseListsMs(cs, lists, i, l);
    FreeMsSingle(Merged(cs, i), l);
    RunSplice(cs, Lo(cs, i), i, Hi(cs, i) + 1, [Merged(cs, i)], lists[l], ReleaseLists(cs, lists, i)[l], l);
  }

  lemma ReleaseListsOk(cs: seq<Chunk>, lists: seq<seq<int>>, i: int)
    requires ListsOk(cs, lists) && 0 <= i < |cs| && !cs[i].free
    ensures ListsOk(Release(cs, i), ReleaseLists(cs, lists, i))
  {
    forall l | 0 <= l < NumLevels
      ensures multiset(ReleaseLists(cs, lists, i)[l]) == FreeMs(Release(cs, i), l)
    {
      ReleaseLevel(cs, lists, i, l);
    }
  }

  // ---------------------------------------------------------------- whole operations

  /** The position in the pool of the header a search found. */
  function PositionOf(cs: seq<Chunk>, found: Option<int>): (r: Option<nat>)
    ensures r.Some? ==> r.value < |cs| && found == Some(cs[r.value].offset)
  {
    match found
    case None => None
    case Some(o) => IndexOf(cs, o)
  }

  /** What malloc returns and the pool and lists it leaves once it has picked chunk `at` (if any) for `need` bytes. */
  function Outcome(cs: seq<Chunk>, ls: seq<seq<int>>, need: int, at: Option<nat>): (Ptr, seq<Chunk>, seq<seq<int>>)
    requires |ls| == NumLevels && (at.Some? ==> at.value < |cs|)
  {
    match at
    case None => (Null, cs, ls)
    case Some(i) => (Addr(cs[i].offset + HeaderSize), Carve(cs, i, need), CarveLists(cs, ls, i, need))
  }

  /** Handing out a free chunk keeps the pool tiled, coalesced and its lists exact. */
  lemma CarveValid(cs: seq<Chunk>, ls: seq<seq<int>>, i: int, need: int)
    requires Tiles(cs) && Coalesced(cs) && ListsOk(cs, ls) && 0 <= i < |cs| && cs[i].free && MinChunk <= need <= cs[i].size
    ensures Tiles(Carve(cs, i, need)) && Coalesced(Carve(cs, i, need)) && ListsOk(Carve(cs, i, need), CarveLists(cs, ls, i, need))
    ensures Carve(cs, i, need)[i].offset == cs[i].offset && !Carve(cs, i, need)[i].free && Data(Carve(cs, i, need)[i]) >= need - HeaderSize
  {
    CarveTiles(cs, i, need);
    CarveCoalesced(cs, i, need);
    CarveListsOk(cs, ls, i, need);
    CarveShape(cs, i, need);
  }

  /** Freeing a used chunk keeps the pool tiled, coalesced and its lists exact. */
  lemma ReleaseValid(cs: seq<Chunk>, ls: seq<seq<int>>, i: int)
    requires Tiles(cs) && Coalesced(cs) && ListsOk(cs, ls) && 0 <= i < |cs| && !cs[i].free
    ensures Tiles(Release(cs, i)) && Coalesced(Release(cs, i)) && ListsOk(Release(cs, i), ReleaseLists(cs, ls, i))
  {
    ReleaseTiles(cs, i);
    ReleaseCoalesced(cs, i);
    ReleaseListsOk(cs, ls, i);
  }

  /** Chunk `i` and its physical neighbours: where they lie and what find_prev_phys finds. */
  lemma NeighbourFacts(cs: seq<Chunk>, i: int)
    requires Tiles(cs) && 0 <= i < |cs|
    ensures End(cs[i]) < PoolSize <==> i + 1 < |cs|
    ensures i + 1 < |cs| ==> cs[i + 1].offset == End(cs[i])
    ensures i > 0 ==> End(cs[i - 1]) == cs[i].offset
    ensures PrevPhys(cs, cs[i].offset) == if i == 0 then None else Some(i - 1)
  {
    InPool(cs, i);
    PrevPhysIsPredecessor(cs, i);
  }
}
