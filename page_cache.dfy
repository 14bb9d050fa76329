/**
 * hw5/hw5_111511141.c: a page-replacement simulator.  Resident pages sit on a
 * recency list (head = most recently used) indexed by a chained hash table;
 * the CFLRU policy keeps a clean-first region near the tail whose pages are
 * also threaded on a clean list and a dirty list.  A node is named by its
 * virtual page number, which is unique among resident pages, so each linked
 * list becomes a sequence of page numbers and each per-node flag a set.
 */
module PageCache {
  import opened Wrappers

  /** HASH_SIZE: buckets of the hash index. */
  const HashSize := 131071
  /** Bytes per page: a page number is the address shifted right by 12. */
  const PageBytes := 4096
  /** MAX_REFERENCES: the longest trace load_trace keeps. */
  const MaxReferences := 100000001
  /** The frame counts main simulates, in order. */
  const FrameSizes := [4096, 8192, 16384, 32768, 65536]

  datatype Policy = Lru | Cflru

  /** One trace line: an access type ('W' for a write) and an address. */
  datatype Reference = Reference(kind: char, addr: nat)

  /** vpn = addr >> 12. */
  function PageOf(addr: nat): (r: nat)
    ensures r * PageBytes <= addr < (r + 1) * PageBytes
  {
    addr / PageBytes
  }

  /** hash_func: the bucket of a page. */
  function Hash(vpn: nat): (r: nat)
    ensures r < HashSize && (vpn - r) % HashSize == 0
  {
    vpn % HashSize
  }

  // ---------------------------------------------------------------- lists as sequences

  predicate Distinct(s: seq<nat>)
  {
    forall i, j :: 0 <= i < j < |s| ==> s[i] != s[j]
  }

  function Elems(s: seq<nat>): set<nat>
  {
    set x | x in s
  }

  function Last(s: seq<nat>): nat
    requires s != []
  {
    s[|s| - 1]
  }

  /** Unlinking a node: the first occurrence of `v` leaves the list. */
  function Delete(s: seq<nat>, v: nat): seq<nat>
  {
    if s == [] then []
    else if s[0] == v then s[1..]
    else [s[0]] + Delete(s[1..], v)
  }

  /** Deleting the first occurrence at position k closes the gap and keeps the order of the rest. */
  lemma {:induction false} DeleteFirst(s: seq<nat>, k: nat)
    requires k < |s| && s[k] !in s[..k]
    ensures Delete(s, s[k]) == s[..k] + s[k + 1..]
  {
    if k > 0 {
      assert s[0] in s[..k];
      assert s[1..][k - 1] == s[k] && s[1..][..k - 1] == s[1..k];
      DeleteFirst(s[1..], k - 1);
      assert [s[0]] + s[1..k] == s[..k];
      assert s[1..][k..] == s[k + 1..];
    }
  }

  /** Deleting an absent page changes nothing. */
  lemma {:induction false} DeleteAbsent(s: seq<nat>, v: nat)
    requires v !in s
    ensures Delete(s, v) == s
  {
    if s != [] {
      assert s[0] != v && v !in s[1..];
      DeleteAbsent(s[1..], v);
    }
  }

  /** Cutting one entry out of a list without repeats leaves the other entries, still without repeats. */
  lemma CutDistinct(s: seq<nat>, k: nat)
    requires Distinct(s) && k < |s|
    ensures Distinct(s[..k] + s[k + 1..])
    ensures forall x :: x in s[..k] + s[k + 1..] <==> x in s && x != s[k]
  {
    var r := s[..k] + s[k + 1..];
    assert forall i :: 0 <= i < |r| ==> r[i] == s[if i < k then i else i + 1];
    forall x | x in s && x != s[k] ensures x in r {
      var i :| 0 <= i < |s| && s[i] == x;
      assert x == r[if i < k then i else i - 1];
    }
  }

  /** On a list without repeats, Delete removes exactly `v` and leaves a list without repeats. */
  lemma DeleteDistinct(s: seq<nat>, v: nat)
    requires Distinct(s)
    ensures Distinct(Delete(s, v))
    ensures forall x :: x in Delete(s, v) <==> x in s && x != v
    ensures |Delete(s, v)| == if v in s then |s| - 1 else |s|
  {
    if v in s {
      var k :| 0 <= k < |s| && s[k] == v;
      assert s[k] !in s[..k];
      DeleteFirst(s, k);
      CutDistinct(s, k);
    } else {
      DeleteAbsent(s, v);
    }
  }

  lemma ElemsCons(v: nat, s: seq<nat>)
    ensures Elems([v] + s) == Elems(s) + {v}
  {
  }

  lemma ElemsDelete(s: seq<nat>, v: nat)
    requires Distinct(s)
    ensures Elems(Delete(s, v)) == Elems(s) - {v}
  {
    DeleteDistinct(s, v);
  }

  /** A list without repeats has as many pages as entries. */
  lemma {:induction false} ElemsCard(s: seq<nat>)
    requires Distinct(s)
    ensures |Elems(s)| == |s|
  {
    if s != [] {
      var t := s[1..];
      assert Distinct(t);
      ElemsCard(t);
      assert Elems(s) == Elems(t) + {s[0]};
      assert s[0] !in Elems(t);
    }
  }

  /** The position of `v` in `s`, if it is there. */
  function Position(s: seq<nat>, v: nat): (r: Option<nat>)
    ensures r.Some? ==> r.value < |s| && s[r.value] == v
    ensures r.None? <==> v !in s
  {
    if s == [] then None
    else if s[0] == v then Some(0)
    else match Position(s[1..], v)
      case None => None
      case Some(i) => Some(i + 1)
  }

  /**
   * node->prev on the recency list: the page just before `b`, or none when
   * `b` is the head.  A boundary that is no longer resident is taken to have
   * no predecessor.
   */
  function Prev(lru: seq<nat>, b: nat): (r: Option<nat>)
    ensures r.Some? <==> b in lru && lru[0] != b
    ensures r.Some? ==> exists i :: 1 <= i < |lru| && lru[i] == b && lru[i - 1] == r.value
  {
    match Position(lru, b)
    case None => None
    case Some(i) => if i > 0 then Some(lru[i - 1]) else None
  }

  // ---------------------------------------------------------------- hash index

  /**
   * The chained hash index agrees with the recency list: every resident page
   * is in its own bucket, a bucket holds only resident pages that hash to it,
   * and no chain repeats a page.
   */
  ghost predicate IndexOk(table: seq<seq<nat>>, lru: seq<nat>)
  {
    && |table| == HashSize
    && (forall x :: x in lru ==> x in table[Hash(x)])
    && (forall b, x :: 0 <= b < HashSize && x in table[b] ==> Hash(x) == b && x in lru)
    && (forall b :: 0 <= b < HashSize ==> Distinct(table[b]))
  }

  /** add_to_hash: pushing a new page on its bucket indexes the list with that page at its head. */
  lemma IndexAdd(table: seq<seq<nat>>, lru: seq<nat>, v: nat)
    requires IndexOk(table, lru) && v !in lru
    ensures IndexOk(table[Hash(v) := [v] + table[Hash(v)]], [v] + lru)
  {
    var h := Hash(v);
    var t := table[h := [v] + table[h]];
    assert v !in table[h];
    forall b | 0 <= b < HashSize ensures Distinct(t[b]) {
      if b == h {
        assert Distinct(table[h]);
      }
    }
  }

  /** remove_from_hash: dropping a page from its bucket indexes the list without it. */
  lemma IndexRemove(table: seq<seq<nat>>, lru: seq<nat>, v: nat)
    requires IndexOk(table, lru) && Distinct(lru)
    ensures IndexOk(table[Hash(v) := Delete(table[Hash(v)], v)], Delete(lru, v))
  {
    var h := Hash(v);
    var t := table[h := Delete(table[h], v)];
    DeleteDistinct(table[h], v);
    DeleteDistinct(lru, v);
    forall x | x in Delete(lru, v) ensures x in t[Hash(x)] {
      assert x in table[Hash(x)];
    }
    forall b, x | 0 <= b < HashSize && x in t[b] ensures Hash(x) == b && x in Delete(lru, v) {
      assert x in table[b];
    }
  }

  // ---------------------------------------------------------------- clean-first region

  /**
   * The clean-first region: its members (the nodes with in_region set) and
   * the clean and dirty lists threaded through them, head first.
   */
  datatype Region = Region(members: set<nat>, clean: seq<nat>, dirtied: seq<nat>)

  /** The two lists hold exactly the members, split by the dirty bit, without repeats. */
  ghost predicate Matches(r: Region, dirty: set<nat>)
  {
    && Distinct(r.clean) && Distinct(r.dirtied)
    && (forall x :: x in r.clean <==> x in r.members && x !in dirty)
    && (forall x :: x in r.dirtied <==> x in r.members && x in dirty)
  }

  /** region_add: a non-member joins the head of the list its dirty bit selects. */
  function Enter(r: Region, dirty: set<nat>, v: nat): Region
  {
    if v in r.members then r
    else if v in dirty then Region(r.members + {v}, r.clean, [v] + r.dirtied)
    else Region(r.members + {v}, [v] + r.clean, r.dirtied)
  }

  /** region_remove: a member is unlinked from the list its dirty bit selects. */
  function Leave(r: Region, dirty: set<nat>, v: nat): Region
  {
    if v !in r.members then r
    else if v in dirty then Region(r.members - {v}, r.clean, Delete(r.dirtied, v))
    else Region(r.members - {v}, Delete(r.clean, v), r.dirtied)
  }

  lemma EnterMatches(r: Region, dirty: set<nat>, v: nat)
    requires Matches(r, dirty)
    ensures Matches(Enter(r, dirty, v), dirty)
    ensures Enter(r, dirty, v).members == r.members + {v}
  {
  }

  lemma LeaveMatches(r: Region, dirty: set<nat>, v: nat)
    requires Matches(r, dirty)
    ensures Matches(Leave(r, dirty, v), dirty)
    ensures Leave(r, dirty, v).members == r.members - {v}
  {
    DeleteDistinct(r.clean, v);
    DeleteDistinct(r.dirtied, v);
  }

  /** Dirty bits of pages outside the region do not matter to it. */
  lemma RedirtyMatches(r: Region, dirty: set<nat>, dirty': set<nat>)
    requires Matches(r, dirty)
    requires forall x :: x in r.members ==> (x in dirty <==> x in dirty')
    ensures Matches(r, dirty')
  {
  }

  /**
   * The pull of move_to_head and evict_cflru: when the cache is above the
   * window and the boundary has a predecessor other than `avoid`, that page
   * joins the region and becomes the boundary.
   */
  function Pull(r: Region, boundary: Option<nat>, lru: seq<nat>, dirty: set<nat>,
                size: int, window: int, avoid: Option<nat>): (Region, Option<nat>)
  {
    if size > window && boundary.Some? then
      match Prev(lru, boundary.value)
      case Some(p) => if Some(p) != avoid then (Enter(r, dirty, p), Some(p)) else (r, boundary)
      case None => (r, boundary)
    else (r, boundary)
  }

  /** A pulled page is resident and the region keeps its old members. */
  lemma PullGrows(r: Region, boundary: Option<nat>, lru: seq<nat>, dirty: set<nat>,
                  size: int, window: int, avoid: Option<nat>)
    requires Matches(r, dirty)
    ensures Matches(Pull(r, boundary, lru, dirty, size, window, avoid).0, dirty)
    ensures r.members <= Pull(r, boundary, lru, dirty, size, window, avoid).0.members
    ensures forall x :: x in Pull(r, boundary, lru, dirty, size, window, avoid).0.members ==>
                        x in r.members || x in lru
  {
    if size > window && boundary.Some? && Prev(lru, boundary.value).Some? {
      EnterMatches(r, dirty, Prev(lru, boundary.value).value);
    }
  }

  /** The victim of each policy: the LRU tail, or the tail of the clean list, else of the dirty list, else the LRU tail. */
  function Victim(policy: Policy, lru: seq<nat>, r: Region): nat
    requires lru != []
  {
    if policy == Lru || (r.clean == [] && r.dirtied == []) then Last(lru)
    else if r.clean != [] then Last(r.clean)
    else Last(r.dirtied)
  }

  /**
   * The victim is resident; under CFLRU a dirty page is chosen only when the
   * region holds no clean page, and a page outside the region only when the
   * region is empty.
   */
  lemma VictimChoice(policy: Policy, lru: seq<nat>, r: Region, dirty: set<nat>)
    requires lru != [] && Matches(r, dirty) && forall x :: x in r.members ==> x in lru
    ensures Victim(policy, lru, r) in lru
    ensures policy == Lru ==> Victim(policy, lru, r) == lru[|lru| - 1]
    ensures policy == Cflru && (exists x :: x in r.members && x !in dirty) ==>
              Victim(policy, lru, r) in r.members && Victim(policy, lru, r) !in dirty
    ensures policy == Cflru && r.members != {} ==> Victim(policy, lru, r) in r.members
  {
    if policy == Cflru {
      if exists x :: x in r.members && x !in dirty {
        var x :| x in r.members && x !in dirty;
        assert x in r.clean;
      }
      if r.members != {} {
        var x :| x in r.members;
        assert x in r.clean || x in r.dirtied;
      }
      if r.clean != [] {
        assert Last(r.clean) in r.clean;
      } else if r.dirtied != [] {
        assert Last(r.dirtied) in r.dirtied;
      }
    }
  }

  /** The page whose dirty bit an access sets: the page of a write, none for a read. */
  function Written(ref: Reference): set<nat>
  {
    if ref.kind == 'W' then {PageOf(ref.addr)} else {}
  }

  /**
   * The region and boundary move_to_head leaves: nothing changes for the
   * head; otherwise a region member leaves (pulling the boundary's
   * predecessor in), and within the window the page rejoins as the boundary.
   */
  function Moved(r: Region, b: Option<nat>, lru: seq<nat>, dirty: set<nat>, size: int, window: int, v: nat)
    : (Region, Option<nat>)
    requires lru != []
  {
    if lru[0] == v then (r, b)
    else
      var (r1, b1) := if v in r.members then Pull(Leave(r, dirty, v), b, lru, dirty, size, window, None) else (r, b);
      if size <= window then (Enter(r1, dirty, v), Some(v)) else (r1, b1)
  }

  /** The write of a hit: a clean region member leaves the clean list and joins the dirty list's head. */
  function Redirtied(r: Region, dirty: set<nat>, v: nat, isWrite: bool): Region
  {
    if isWrite && v !in dirty && v in r.members then Enter(Leave(r, dirty, v), dirty + {v}, v) else r
  }

  /**
   * The region and boundary after evicting `victim`: under CFLRU the victim
   * leaves the region and the boundary's predecessor (unless it is the
   * victim) is pulled in; then remove_node takes the victim out of the region.
   */
  function Evicted(policy: Policy, r: Region, b: Option<nat>, lru: seq<nat>, dirty: set<nat>,
                   size: int, window: int, victim: nat): (Region, Option<nat>)
  {
    var (r1, b1) := if policy == Lru then (r, b) else Pull(Leave(r, dirty, victim), b, lru, dirty, size, window, Some(victim));
    (Leave(r1, dirty, victim), b1)
  }

  /** The region and boundary add_to_head leaves once the cache holds `size` pages: within the window the new page joins as the boundary. */
  function Added(r: Region, b: Option<nat>, dirty: set<nat>, size: int, window: int, v: nat): (Region, Option<nat>)
  {
    if size <= window then (Enter(r, dirty, v), Some(v)) else (r, b)
  }

  // ---------------------------------------------------------------- the cache

  class Cache {
    /** head .. tail: resident pages, most recently used first. */
    var lru: seq<nat>
    var size: int
    var capacity: int
    var windowSize: int
    /** hash_table: each bucket's chain, head first. */
    var table: seq<seq<nat>>
    /** The pages whose dirty bit is set. */
    var dirty: set<nat>
    /** The clean-first region: the nodes with in_region set, clean_head .. clean_tail and dirty_head .. dirty_tail. */
    var region: Region
    /** The region node closest to the head, when there is one. */
    var boundary: Option<nat>

    /** Everything but the hash index and the dirty bits of evicted pages. */
    ghost predicate Shape()
      reads this
    {
      && 1 <= capacity && windowSize == capacity / 4
      && size == |lru| <= capacity && Distinct(lru)
      && |table| == HashSize
      && (forall x :: x in region.members ==> x in lru)
      && Matches(region, dirty)
    }

    ghost predicate Valid()
      reads this
    {
      && Shape()
      && IndexOk(table, lru)
      && (forall x :: x in dirty ==> x in lru)
    }

    /** init_cache: empty lists, an empty index and a window of a quarter of the frames. */
    constructor (frames: int)
      requires frames >= 1
      ensures Valid() && capacity == frames && windowSize == frames / 4
      ensures lru == [] && dirty == {} && region.members == {} && boundary == None
    {
      capacity := frames;
      size := 0;
      lru := [];
      table := seq(HashSize, _ => []);
      dirty := {};
      region := Region({}, [], []);
      boundary := None;
      windowSize := frames / 4;
    }

    /** find_in_hash: walk the page's chain. */
    method FindInHash(vpn: nat) returns (found: bool)
      requires Valid()
      ensures found <==> vpn in lru
    {
      var chain := table[Hash(vpn)];
      var k := 0;
      while k < |chain|
        invariant 0 <= k <= |chain|
        invariant vpn !in chain[..k]
      {
        if chain[k] == vpn {
          return true;
        }
        k := k + 1;
      }
      assert chain[..k] == chain;
      return false;
    }

    /** add_to_hash: the new head of the recency list is pushed on its bucket. */
    method AddToHash(v: nat)
      requires |table| == HashSize && lru != [] && lru[0] == v
      requires v !in lru[1..] && IndexOk(table, lru[1..])
      modifies this`table
      ensures table == old(table)[Hash(v) := [v] + old(table)[Hash(v)]]
      ensures IndexOk(table, lru)
    {
      IndexAdd(table, lru[1..], v);
      assert [v] + lru[1..] == lru;
      var h := Hash(v);
      table := table[h := [v] + table[h]];
    }

    /** remove_from_hash: unlink `v` from its chain, remembering the previous link. */
    method RemoveFromHash(v: nat)
      requires IndexOk(table, lru) && Distinct(lru)
      modifies this`table
      ensures table == old(table)[Hash(v) := Delete(old(table)[Hash(v)], v)]
      ensures IndexOk(table, Delete(lru, v))
    {
      IndexRemove(table, lru, v);
      var h := Hash(v);
      var chain := table[h];
      var k := 0;
      while k < |chain|
        invariant 0 <= k <= |chain|
        invariant v !in chain[..k]
      {
        if chain[k] == v {
          DeleteFirst(chain, k);
          table := table[h := chain[..k] + chain[k + 1..]];
          return;
        }
        k := k + 1;
      }
      assert chain[..k] == chain;
      DeleteAbsent(chain, v);
      assert table == table[h := chain];
    }

    /** region_add: nothing when already a member, else push on the clean or dirty list. */
    method RegionAdd(v: nat)
      requires Matches(region, dirty)
      modifies this`region
      ensures region == Enter(old(region), dirty, v)
      ensures Matches(region, dirty) && region.members == old(region.members) + {v}
    {
      EnterMatches(region, dirty, v);
      if v in region.members {
        return;
      }
      if v in dirty {
        region := Region(region.members + {v}, region.clean, [v] + region.dirtied);
      } else {
        region := Region(region.members + {v}, [v] + region.clean, region.dirtied);
      }
    }

    /** region_remove: nothing for a non-member, else unlink from the clean or dirty list. */
    method RegionRemove(v: nat)
      requires Matches(region, dirty)
      modifies this`region
      ensures region == Leave(old(region), dirty, v)
      ensures Matches(region, dirty) && region.members == old(region.members) - {v}
    {
      LeaveMatches(region, dirty, v);
      if v !in region.members {
        return;
      }
      if v in dirty {
        region := Region(region.members - {v}, region.clean, Delete(region.dirtied, v));
      } else {
        region := Region(region.members - {v}, Delete(region.clean, v), region.dirtied);
      }
    }

    /** Pull the boundary's predecessor into the region, unless it is `avoid`. */
    method PullBoundary(avoid: Option<nat>)
      requires Shape()
      modifies this`region, this`boundary
      ensures (region, boundary) == Pull(old(region), old(boundary), lru, dirty, size, windowSize, avoid)
      ensures Shape()
    {
      PullGrows(region, boundary, lru, dirty, size, windowSize, avoid);
      if size > windowSize && boundary.Some? {
        var pull := Prev(lru, boundary.value);
        if pull.Some? && pull != avoid {
          RegionAdd(pull.value);
          boundary := pull;
        }
      }
    }

    /**
     * move_to_head: a page already at the head stays put; otherwise a region
     * member leaves the region (pulling the boundary's predecessor in), the
     * page moves to the head, and while the cache is within the window it
     * rejoins the region as the boundary.
     */
    method MoveToHead(v: nat)
      requires Valid() && v in lru
      modifies this`lru, this`region, this`boundary
      ensures Valid()
      ensures lru == [v] + Delete(old(lru), v)
      ensures old(lru)[0] == v ==> region == old(region) && boundary == old(boundary)
      ensures old(lru)[0] != v ==>
        var (r, b) := if v in old(region.members)
          then Pull(Leave(old(region), dirty, v), old(boundary), old(lru), dirty, size, windowSize, None)
          else (old(region), old(boundary));
        if size <= windowSize then region == Enter(r, dirty, v) && boundary == Some(v)
        else region == r && boundary == b
    {
      if lru[0] == v {
        assert v !in lru[1..];
        DeleteFirst(lru, 0);
        assert [v] + lru[1..] == lru;
        return;
      }
      ghost var old_lru := lru;
      DeleteDistinct(lru, v);
      Promote(v);
      IndexMoved(table, old_lru, v);
    }

    /** The moving part of move_to_head, for a page that is not the head. */
    method Promote(v: nat)
      requires Shape() && v in lru && lru[0] != v
      modifies this`lru, this`region, this`boundary
      ensures Shape()
      ensures lru == [v] + Delete(old(lru), v)
      ensures
        var (r, b) := if v in old(region.members)
          then Pull(Leave(old(region), dirty, v), old(boundary), old(lru), dirty, size, windowSize, None)
          else (old(region), old(boundary));
        if size <= windowSize then region == Enter(r, dirty, v) && boundary == Some(v)
        else region == r && boundary == b
    {
      if v in region.members {
        RegionRemove(v);
        PullBoundary(None);
      }
      DeleteDistinct(lru, v);
      lru := [v] + Delete(lru, v);
      if size <= windowSize {
        RegionAdd(v);
        boundary := Some(v);
      }
    }

    /** add_to_head: a new page becomes the head; within the window it joins the region as the boundary. */
    method AddToHead(v: nat)
      requires Shape() && v !in lru && size < capacity
      modifies this`lru, this`size, this`region, this`boundary
      ensures Shape()
      ensures lru == [v] + old(lru) && size == old(size) + 1
      ensures size <= windowSize ==> region == Enter(old(region), dirty, v) && boundary == Some(v)
      ensures size > windowSize ==> region == old(region) && boundary == old(boundary)
    {
      lru := [v] + lru;
      size := size + 1;
      if size <= windowSize {
        RegionAdd(v);
        boundary := Some(v);
      }
    }

    /** remove_node: a resident page leaves the region (if a member) and the recency list. */
    method RemoveNode(v: nat)
      requires Shape() && v in lru
      modifies this`lru, this`size, this`region
      ensures Shape()
      ensures lru == Delete(old(lru), v) && size == old(size) - 1
      ensures region == Leave(old(region), dirty, v)
    {
      if v in region.members {
        RegionRemove(v);
      }
      LeaveMatches(old(region), dirty, v);
      DeleteDistinct(lru, v);
      lru := Delete(lru, v);
      size := size - 1;
    }

    /** evict_lru: the tail. */
    method EvictLru() returns (victim: nat)
      requires Shape() && lru != []
      ensures victim == Victim(Lru, lru, region) && victim in lru
    {
      victim := lru[|lru| - 1];
    }

    /**
     * evict_cflru: the clean tail, else the dirty tail, else the LRU tail
     * leaves the region, and the boundary's predecessor (unless it is the
     * victim) is pulled in.
     */
    method EvictCflru() returns (victim: nat)
      requires Shape() && lru != []
      modifies this`region, this`boundary
      ensures victim == Victim(Cflru, old(lru), old(region)) && victim in old(lru)
      ensures Shape()
      ensures (region, boundary) ==
        Pull(Leave(old(region), dirty, victim), old(boundary), lru, dirty, size, windowSize, Some(victim))
    {
      VictimChoice(Cflru, lru, region, dirty);
      if region.clean != [] {
        victim := region.clean[|region.clean| - 1];
      } else if region.dirtied != [] {
        victim := region.dirtied[|region.dirtied| - 1];
      } else {
        victim := lru[|lru| - 1];
      }
      RegionRemove(victim);
      PullBoundary(Some(victim));
    }

    /**
     * The body of run_simulation for one reference: a resident page is a hit
     * and moves to the head (a write sets its dirty bit, moving it to the
     * dirty list when it is in the region); otherwise it is a miss, a full
     * cache evicts one victim (a write-back when it is dirty), and the page
     * is loaded at the head with the dirty bit of the access.
     */
    method Access(policy: Policy, ref: Reference) returns (hit: bool, wroteBack: bool)
      requires Valid()
      modifies this`lru, this`size, this`table, this`dirty, this`region, this`boundary
      ensures Valid()
      ensures hit <==> PageOf(ref.addr) in old(lru)
      ensures Elems(lru) <= Elems(old(lru)) + {PageOf(ref.addr)}
      ensures hit ==> lru == [PageOf(ref.addr)] + Delete(old(lru), PageOf(ref.addr)) && !wroteBack
      ensures hit ==> dirty == old(dirty) + Written(ref) && Elems(lru) == Elems(old(lru))
      ensures !hit && old(size) < capacity ==>
        && lru == [PageOf(ref.addr)] + old(lru) && !wroteBack
        && dirty == old(dirty) + Written(ref) && Elems(lru) == Elems(old(lru)) + {PageOf(ref.addr)}
      ensures !hit && old(size) == capacity ==>
        var victim := Victim(policy, old(lru), old(region));
        && lru == [PageOf(ref.addr)] + Delete(old(lru), victim) && (wroteBack <==> victim in old(dirty))
        && dirty == old(dirty) - {victim} + Written(ref)
        && Elems(lru) == Elems(old(lru)) - {victim} + {PageOf(ref.addr)}
      ensures hit ==>
        var (r, b) := Moved(old(region), old(boundary), old(lru), old(dirty), size, windowSize, PageOf(ref.addr));
        region == Redirtied(r, old(dirty), PageOf(ref.addr), ref.kind == 'W') && boundary == b
      ensures !hit && old(size) < capacity ==>
        (region, boundary) == Added(old(region), old(boundary), dirty, size, windowSize, PageOf(ref.addr))
      ensures !hit && old(size) == capacity ==>
        var victim := Victim(policy, old(lru), old(region));
        var (r, b) := Evicted(policy, old(region), old(boundary), old(lru), old(dirty), old(size), windowSize, victim);
        (region, boundary) == Added(r, b, dirty, size, windowSize, PageOf(ref.addr))
    {
      var vpn := PageOf(ref.addr);
      var isWrite := ref.kind == 'W';
      hit := FindInHash(vpn);
      wroteBack := false;
      if hit {
        Touch(vpn, isWrite);
      } else {
        wroteBack := Load(policy, vpn, isWrite);
      }
    }

    /**
     * Access with run_simulation's counting: a hit or a miss is counted, a
     * write-back only on a miss, and ReplayOk is kept.
     */
    method Replay(policy: Policy, trace: seq<Reference>, j: nat, hits: nat, misses: nat, writeBacks: nat)
      returns (hits': nat, misses': nat, writeBacks': nat)
      requires j < |trace| && writeBacks <= misses
      requires Valid() && ReplayOk(Elems(lru), Pages(trace[..j]), Pages(trace), capacity, misses, writeBacks)
      modifies this`lru, this`size, this`table, this`dirty, this`region, this`boundary
      ensures Valid() && hits' + misses' == hits + misses + 1 && writeBacks' <= misses'
      ensures ReplayOk(Elems(lru), Pages(trace[..j + 1]), Pages(trace), capacity, misses', writeBacks')
    {
      var ref := trace[j];
      PagesStep(trace, j);
      ghost var seen, all := Pages(trace[..j]), Pages(trace);
      ghost var resident, size := Elems(lru), this.size;
      ElemsCard(lru);
      var hit, wroteBack := Access(policy, ref);
      ReplayStep(resident, Elems(lru), seen, PageOf(ref.addr), all, capacity, size, misses, writeBacks, hit, wroteBack);
      hits', misses', writeBacks' := hits, misses, writeBacks;
      if hit {
        hits' := hits' + 1;
      } else {
        misses' := misses' + 1;
      }
      if wroteBack {
        writeBacks' := writeBacks' + 1;
      }
    }

    /** The hit branch: move to the head, then a write sets the dirty bit. */
    method Touch(vpn: nat, isWrite: bool)
      requires Valid() && vpn in lru
      modifies this`lru, this`dirty, this`region, this`boundary
      ensures Valid()
      ensures lru == [vpn] + Delete(old(lru), vpn) && Elems(lru) == Elems(old(lru))
      ensures dirty == old(dirty) + (if isWrite then {vpn} else {})
      ensures var (r, b) := Moved(old(region), old(boundary), old(lru), old(dirty), size, windowSize, vpn);
              region == Redirtied(r, old(dirty), vpn, isWrite) && boundary == b
    {
      MoveToHead(vpn);
      ElemsDelete(old(lru), vpn);
      if isWrite && vpn !in dirty {
        if vpn in region.members {
          RegionRemove(vpn);
          dirty := dirty + {vpn};
          RedirtyMatches(region, old(dirty), dirty);
          RegionAdd(vpn);
        } else {
          dirty := dirty + {vpn};
          RedirtyMatches(region, old(dirty), dirty);
        }
      }
    }

    /** The miss branch: evict when full, then load the page at the head and index it. */
    method Load(policy: Policy, vpn: nat, isWrite: bool) returns (wroteBack: bool)
      requires Valid() && vpn !in lru
      modifies this`lru, this`size, this`table, this`dirty, this`region, this`boundary
      ensures Valid()
      ensures old(size) < capacity ==>
        && lru == [vpn] + old(lru) && !wroteBack
        && dirty == old(dirty) + (if isWrite then {vpn} else {}) && Elems(lru) == Elems(old(lru)) + {vpn}
      ensures old(size) == capacity ==>
        var victim := Victim(policy, old(lru), old(region));
        && lru == [vpn] + Delete(old(lru), victim) && (wroteBack <==> victim in old(dirty))
        && dirty == old(dirty) - {victim} + (if isWrite then {vpn} else {})
        && Elems(lru) == Elems(old(lru)) - {victim} + {vpn}
      ensures old(size) < capacity ==> (region, boundary) == Added(old(region), old(boundary), dirty, size, windowSize, vpn)
      ensures old(size) == capacity ==>
        var victim := Victim(policy, old(lru), old(region));
        var (r, b) := Evicted(policy, old(region), old(boundary), old(lru), old(dirty), old(size), windowSize, victim);
        (region, boundary) == Added(r, b, dirty, size, windowSize, vpn)
    {
      wroteBack := false;
      if size == capacity {
        var victim;
        victim, wroteBack := Evict(policy);
        DeleteDistinct(old(lru), victim);
      }
      Insert(vpn, isWrite);
    }

    /** Steps 409-415 of the miss branch: choose the victim, count a dirty one, unindex and unlink it. */
    method Evict(policy: Policy) returns (victim: nat, wroteBack: bool)
      requires Valid() && size == capacity
      modifies this`lru, this`size, this`table, this`dirty, this`region, this`boundary
      ensures Valid() && size == old(size) - 1
      ensures victim == Victim(policy, old(lru), old(region)) && (wroteBack <==> victim in old(dirty))
      ensures lru == Delete(old(lru), victim) && Elems(lru) == Elems(old(lru)) - {victim}
      ensures dirty == old(dirty) - {victim}
      ensures (region, boundary) == Evicted(policy, old(region), old(boundary), old(lru), old(dirty), old(size), windowSize, victim)
    {
      if policy == Lru {
        victim := EvictLru();
      } else {
        victim := EvictCflru();
      }
      wroteBack := victim in dirty;
      RemoveFromHash(victim);
      RemoveNode(victim);
      DeleteDistinct(old(lru), victim);
      ElemsDelete(old(lru), victim);
      dirty := dirty - {victim};
      RedirtyMatches(region, old(dirty), dirty);
    }

    /** The new node: its dirty bit is the access's, it becomes the head and is indexed. */
    method Insert(vpn: nat, isWrite: bool)
      requires Valid() && vpn !in lru && size < capacity
      modifies this`lru, this`size, this`table, this`dirty, this`region, this`boundary
      ensures Valid() && lru == [vpn] + old(lru) && Elems(lru) == Elems(old(lru)) + {vpn}
      ensures dirty == old(dirty) + (if isWrite then {vpn} else {})
      ensures (region, boundary) == Added(old(region), old(boundary), dirty, size, windowSize, vpn)
    {
      if isWrite {
        dirty := dirty + {vpn};
      }
      RedirtyMatches(region, old(dirty), dirty);
      AddToHead(vpn);
      AddToHash(vpn);
      ElemsCons(vpn, old(lru));
    }
  }

  /** Moving a resident page to the head does not change which pages the index must hold. */
  lemma IndexMoved(table: seq<seq<nat>>, lru: seq<nat>, v: nat)
    requires IndexOk(table, lru) && Distinct(lru) && v in lru
    ensures IndexOk(table, [v] + Delete(lru, v))
  {
    DeleteDistinct(lru, v);
  }

  /** The pages a trace touches. */
  function Pages(trace: seq<Reference>): set<nat>
  {
    set i | 0 <= i < |trace| :: PageOf(trace[i].addr)
  }

  /** Extending a prefix of the trace by one reference adds that reference's page. */
  lemma PagesStep(trace: seq<Reference>, j: nat)
    requires j < |trace|
    ensures Pages(trace[..j + 1]) == Pages(trace[..j]) + {PageOf(trace[j].addr)}
    ensures Pages(trace[..j + 1]) <= Pages(trace)
  {
    var a, b := trace[..j + 1], trace[..j];
    assert forall i :: 0 <= i < j ==> a[i] == b[i];
    assert a[j] == trace[j];
    forall x | x in Pages(a) ensures x in Pages(b) + {PageOf(trace[j].addr)} {
      var i :| 0 <= i < |a| && x == PageOf(a[i].addr);
      if i < j {
        assert x == PageOf(b[i].addr);
      }
    }
    forall x | x in Pages(a) ensures x in Pages(trace) {
      var i :| 0 <= i < |a| && x == PageOf(a[i].addr);
      assert x == PageOf(trace[i].addr);
    }
  }

  lemma AddCard(s: set<nat>, x: nat)
    ensures |s + {x}| == if x in s then |s| else |s| + 1
  {
    if x in s {
      assert s + {x} == s;
    } else {
      assert s * {x} == {};
    }
  }

  lemma SubsetCard(a: set<nat>, b: set<nat>)
    requires a <= b
    ensures |a| <= |b|
  {
    assert b == a + (b - a);
  }

  /**
   * What a replay keeps true after each reference: the resident pages were
   * all referenced, every referenced page missed at least once, and while the
   * trace's pages all fit, the resident pages are exactly those referenced,
   * each having missed once and none written back.
   */
  ghost predicate ReplayOk(resident: set<nat>, seen: set<nat>, all: set<nat>, capacity: int,
                           misses: nat, writeBacks: nat)
  {
    && resident <= seen
    && misses >= |seen|
    && (|all| <= capacity ==> resident == seen && misses == |seen| && writeBacks == 0)
  }

  /** One reference keeps ReplayOk, given what Access promises about it. */
  lemma ReplayStep(resident: set<nat>, resident': set<nat>, seen: set<nat>, page: nat, all: set<nat>,
                   capacity: int, size: int, misses: nat, writeBacks: nat, hit: bool, wroteBack: bool)
    requires ReplayOk(resident, seen, all, capacity, misses, writeBacks)
    requires seen + {page} <= all && |resident| == size <= capacity
    requires hit <==> page in resident
    requires resident' <= resident + {page}
    requires hit ==> resident' == resident && !wroteBack
    requires !hit && size < capacity ==> resident' == resident + {page} && !wroteBack
    ensures ReplayOk(resident', seen + {page}, all, capacity,
                     misses + (if hit then 0 else 1), writeBacks + (if wroteBack then 1 else 0))
  {
    AddCard(seen, page);
    SubsetCard(seen + {page}, all);
    if |all| <= capacity && !hit {
      assert page !in seen;
    }
  }

}
