// The sequential skeleton of the merge-sort job scheduler of
// hw3/111511141.c: the FIFO job queue, the dispatcher's seeding of the
// eight leaf sorts, its dependency scan over the 15-node `progress_done`
// tree, and the workers' execution of jobs. The dispatcher thread and the
// worker threads become one loop whose every iteration makes one of the
// moves the threads can make, chosen nondeterministically.
module MergeSched {
  import opened SortKernels

  const NumTasks := 15
  const NumSortTasks := 8

  datatype Status = NotDispatched | Dispatched | Completed

  /** A job: `[start, end)` with `mid` splitting a merge job's two runs
      (0 for a sort job); ids 0..6 are merge jobs, 7..14 sort jobs. */
  datatype Job = Job(start: int, mid: int, end: int, id: int)

  /** What `get_job` hands out when the queue is empty. */
  const InvalidJob := Job(0, 0, 0, -1)

  // ----- the shape of the job tree ------------------------------------------

  predicate IsNode(v: int) { 0 <= v < NumTasks }

  /** The leaves below node `v` are `FirstLeaf(v) .. LastLeaf(v) - 1`
      (leaf `i` is node `7 + i`); node `v` has children `2v+1` and `2v+2`. */
  function FirstLeaf(v: int): int
    requires IsNode(v)
  {
    if v == 0 then 0 else if v < 3 then (v - 1) * 4 else if v < 7 then (v - 3) * 2 else v - 7
  }

  function Width(v: int): int
    requires IsNode(v)
  {
    if v == 0 then 8 else if v < 3 then 4 else if v < 7 then 2 else 1
  }

  function LastLeaf(v: int): int
    requires IsNode(v)
  {
    FirstLeaf(v) + Width(v)
  }

  /** `u` lies in the subtree of `v` (possibly `u == v`). */
  predicate Below(u: int, v: int)
    requires IsNode(u) && IsNode(v)
  {
    FirstLeaf(v) <= FirstLeaf(u) && LastLeaf(u) <= LastLeaf(v)
  }

  /** The children of an inner node split its leaves in the middle. */
  lemma ChildrenSplit(v: int)
    requires 0 <= v < 7
    ensures FirstLeaf(2 * v + 1) == FirstLeaf(v)
    ensures LastLeaf(2 * v + 1) == FirstLeaf(2 * v + 2)
    ensures LastLeaf(2 * v + 2) == LastLeaf(v)
  {
  }

  /** Two subtrees are nested or have disjoint leaves. */
  lemma Laminar(u: int, v: int)
    requires IsNode(u) && IsNode(v)
    ensures Below(u, v) || Below(v, u) || LastLeaf(u) <= FirstLeaf(v) || LastLeaf(v) <= FirstLeaf(u)
  {
  }

  /** The parent of a node strictly below `v` is itself below `v`. */
  lemma ParentBelow(u: int, v: int)
    requires IsNode(u) && IsNode(v) && u != v && Below(u, v)
    ensures 0 < u && Below((u - 1) / 2, v)
  {
  }

  // ----- the ranges of the jobs ---------------------------------------------

  /** The boundary before leaf `i`: leaf `i` covers `[Bound(i), Bound(i+1))`,
      the last leaf taking the remainder of `num_elements / 8`. */
  function Bound(i: int, n: int): int
    requires 0 <= i <= 8
  {
    if i == 8 then n else i * (n / 8)
  }

  lemma BoundMono(i: int, j: int, n: int)
    requires 0 <= i <= j <= 8 && 0 <= n
    ensures 0 <= Bound(i, n) <= Bound(j, n) <= n
  {
    var c := n / 8;
    assert 8 * c <= n;
    if j < 8 {
      assert i * c <= j * c by {
        assert (j - i) * c >= 0;
      }
      assert j * c <= 8 * c by {
        assert (8 - j) * c >= 0;
      }
    } else {
      assert i * c <= 8 * c by {
        assert (8 - i) * c >= 0;
      }
    }
  }

  function Lo(v: int, n: int): int
    requires IsNode(v)
  {
    Bound(FirstLeaf(v), n)
  }

  function Hi(v: int, n: int): int
    requires IsNode(v)
  {
    Bound(LastLeaf(v), n)
  }

  /** The job of node `v`: the range of its leaves, split at the boundary
      between its children when it is a merge job. */
  function TreeJob(v: int, n: int): Job
    requires IsNode(v)
  {
    if v >= 7 then Job(Lo(v, n), 0, Hi(v, n), v) else Job(Lo(v, n), Hi(2 * v + 1, n), Hi(v, n), v)
  }

  /** Every node's range lies in `[0, n)`, and a merge job's split point lies
      between its ends; the children's ranges meet at the split point. */
  lemma TreeJobRange(v: int, n: int)
    requires IsNode(v) && 0 <= n
    ensures 0 <= Lo(v, n) <= Hi(v, n) <= n
    ensures v < 7 ==> Lo(v, n) == Lo(2 * v + 1, n) && Hi(2 * v + 1, n) == Lo(2 * v + 2, n)
                      && Hi(2 * v + 2, n) == Hi(v, n)
    ensures v < 7 ==> Lo(v, n) <= Hi(2 * v + 1, n) <= Hi(v, n)
  {
    BoundMono(FirstLeaf(v), LastLeaf(v), n);
    if v < 7 {
      ChildrenSplit(v);
      BoundMono(FirstLeaf(v), LastLeaf(2 * v + 1), n);
      BoundMono(LastLeaf(2 * v + 1), LastLeaf(v), n);
    }
  }

  /** The root job covers the whole array. */
  lemma RootCoversAll(n: int)
    ensures Lo(0, n) == 0 && Hi(0, n) == n
  {
  }

  /** Subtrees with disjoint leaves have disjoint ranges. */
  lemma DisjointRanges(u: int, v: int, n: int)
    requires IsNode(u) && IsNode(v) && 0 <= n
    requires LastLeaf(u) <= FirstLeaf(v)
    ensures Hi(u, n) <= Lo(v, n)
  {
    BoundMono(LastLeaf(u), FirstLeaf(v), n);
  }

  /** The subtree of `v` has a range inside `v`'s. */
  lemma NestedRanges(u: int, v: int, n: int)
    requires IsNode(u) && IsNode(v) && 0 <= n && Below(u, v)
    ensures Lo(v, n) <= Lo(u, n) && Hi(u, n) <= Hi(v, n)
  {
    BoundMono(FirstLeaf(v), FirstLeaf(u), n);
    BoundMono(LastLeaf(u), LastLeaf(v), n);
  }

  /** The leaf job the dispatcher's seeding loop builds for `i` in 0..7. */
  function SeedJob(i: int, n: int): (r: Job)
    requires 0 <= i < NumSortTasks
    ensures r == TreeJob(7 + i, n)
  {
    var chunk := n / NumSortTasks;
    Job(i * chunk, 0, if i == NumSortTasks - 1 then n else (i + 1) * chunk, 7 + i)
  }

  /** The merge job the dependency scan builds for the pair of siblings
      `k`, `k + 1` (`k` odd, 1..13): it is the job of their parent. */
  function MergeJob(k: int, n: int): (r: Job)
    requires 1 <= k <= 13 && k % 2 == 1
    ensures r == TreeJob((k - 1) / 2, n)
  {
    var chunk := n / NumSortTasks;
    var start :=
      if k >= 7 then (k - 7) * chunk else if k >= 3 then (k - 3) * 2 * chunk else 0;
    var mid :=
      if k >= 7 then start + chunk else if k >= 3 then start + 2 * chunk else 4 * chunk;
    var end :=
      if k >= 7 then (if k == 13 then n else start + 2 * chunk)
      else if k >= 3 then (if k == 5 then n else start + 4 * chunk)
      else n;
    Job(start, mid, end, (k - 1) / 2)
  }

  /** The scan's index for the children of inner node `p`. */
  lemma SiblingIndex(p: int)
    requires 0 <= p < 7
    ensures 1 <= 2 * p + 1 <= 13 && (2 * p + 1) % 2 == 1 && (2 * p + 1 - 1) / 2 == p
  {
  }

  // ----- the progress tree --------------------------------------------------

  /** Number of entries of `st` equal to `x`. */
  function Count(st: seq<Status>, x: Status): (c: nat)
    ensures c <= |st|
  {
    if st == [] then 0 else Count(st[..|st| - 1], x) + (if st[|st| - 1] == x then 1 else 0)
  }

  /** Overwriting one entry changes the count by what left and what came. */
  lemma {:induction false} CountUpdate(st: seq<Status>, v: int, y: Status, x: Status)
    requires 0 <= v < |st|
    ensures Count(st[v := y], x) == Count(st, x) - (if st[v] == x then 1 else 0) + (if y == x then 1 else 0)
    decreases |st|
  {
    var t := st[v := y];
    if v < |st| - 1 {
      assert t[..|t| - 1] == st[..|st| - 1][v := y];
      CountUpdate(st[..|st| - 1], v, y, x);
    } else {
      assert t[..|t| - 1] == st[..|st| - 1];
    }
  }

  /** Node `p`'s children are COMPLETED and `p` itself is NOT_DISPATCHED: the
      condition under which the scan creates `p`'s merge job. */
  predicate Ready(st: seq<Status>, p: int)
    requires |st| == NumTasks && 0 <= p < 7
  {
    st[2 * p + 1] == Completed && st[2 * p + 2] == Completed && st[p] == NotDispatched
  }

  /** No inner node is ready. */
  predicate Closed(st: seq<Status>)
    requires |st| == NumTasks
  {
    forall p :: 0 <= p < 7 ==> !Ready(st, p)
  }

  /** Node `v` has a job in the queue or in a worker's hands: a sort job
      from seeding until it completes (leaves stay NOT_DISPATCHED meanwhile),
      a merge job while DISPATCHED. */
  predicate Active(st: seq<Status>, v: int)
    requires |st| == NumTasks && IsNode(v)
  {
    if v >= 7 then st[v] == NotDispatched else st[v] == Dispatched
  }

  /** A COMPLETED node whose parent is not COMPLETED: its range holds a
      sorted run that no later job has consumed yet. */
  predicate IsTop(st: seq<Status>, v: int)
    requires |st| == NumTasks && IsNode(v)
  {
    st[v] == Completed && (v == 0 || st[(v - 1) / 2] != Completed)
  }

  /** Whatever has started, everything strictly below it has completed. */
  ghost predicate DoneBelow(st: seq<Status>)
    requires |st| == NumTasks
  {
    forall u, v :: IsNode(u) && IsNode(v) && u != v && Below(u, v) && st[v] != NotDispatched ==>
      st[u] == Completed
  }

  ghost predicate TopsSorted(st: seq<Status>, s: seq<int>)
    requires |st| == NumTasks
  {
    forall v :: IsNode(v) && IsTop(st, v) && 0 <= Lo(v, |s|) <= Hi(v, |s|) <= |s| ==>
      SortedRange(s, Lo(v, |s|), Hi(v, |s|))
  }

  predicate HasJob(q: seq<Job>, v: int)
  {
    exists k :: 0 <= k < |q| && q[k].id == v
  }

  predicate DistinctIds(q: seq<Job>)
  {
    forall k, l :: 0 <= k < l < |q| ==> q[k].id != q[l].id
  }

  /** The queued jobs `q` and the jobs held by workers `f` are the jobs of the
      active nodes, one each. */
  ghost predicate JobsOk(q: seq<Job>, f: seq<Job>, st: seq<Status>, n: int)
    requires |st| == NumTasks
  {
    (forall k :: 0 <= k < |q| ==> IsNode(q[k].id) && q[k] == TreeJob(q[k].id, n) && Active(st, q[k].id))
    && (forall k :: 0 <= k < |f| ==> IsNode(f[k].id) && f[k] == TreeJob(f[k].id, n) && Active(st, f[k].id))
    && DistinctIds(q) && DistinctIds(f)
    && (forall k, l :: 0 <= k < |q| && 0 <= l < |f| ==> q[k].id != f[l].id)
    && (forall v :: IsNode(v) && Active(st, v) ==> HasJob(q, v) || HasJob(f, v))
  }

  /** The scheduler invariant over the progress tree `st`, the queue `q`, the
      workers' jobs `f`, the array `s` and the job counter `cnt`. */
  ghost predicate SchedInv(st: seq<Status>, q: seq<Job>, f: seq<Job>, s: seq<int>, cnt: int)
  {
    |st| == NumTasks
    && JobsOk(q, f, st, |s|)
    && (forall v :: 7 <= v < NumTasks ==> st[v] != Dispatched)
    && DoneBelow(st)
    && TopsSorted(st, s)
    && cnt + Count(st[..7], NotDispatched) == NumTasks
  }

  /** A job's effect on the array, as `bubble_sort` and `merge` promise it. */
  ghost predicate Executed(j: Job, s0: seq<int>, s1: seq<int>)
  {
    |s1| == |s0| && 0 <= j.start <= j.end <= |s0|
    && s1[..j.start] == s0[..j.start] && s1[j.end..] == s0[j.end..]
    && (j.id >= 7 ==>
          SortedRange(s1, j.start, j.end) && multiset(s1[j.start..j.end]) == multiset(s0[j.start..j.end]))
    && (j.id < 7 ==>
          j.start <= j.mid <= j.end && s1[j.start..j.end] == Merged(s0, j.start, j.mid, j.mid, j.end))
  }

  // ----- facts about the tree used by the scheduler proofs -------------------

  /** A node strictly below inner node `p` is below one of its children. */
  lemma BelowChild(u: int, p: int)
    requires IsNode(u) && 0 <= p < 7 && u != p && Below(u, p)
    ensures Below(u, 2 * p + 1) || Below(u, 2 * p + 2)
  {
  }

  /** Every node is below the root. */
  lemma BelowRoot(u: int)
    requires IsNode(u)
    ensures Below(u, 0)
  {
  }

  lemma {:induction false} CountAbsent(st: seq<Status>, x: Status)
    requires forall i :: 0 <= i < |st| ==> st[i] != x
    ensures Count(st, x) == 0
    decreases |st|
  {
    if st != [] {
      CountAbsent(st[..|st| - 1], x);
    }
  }

  lemma {:induction false} CountAll(st: seq<Status>, x: Status)
    requires forall i :: 0 <= i < |st| ==> st[i] == x
    ensures Count(st, x) == |st|
    decreases |st|
  {
    if st != [] {
      CountAll(st[..|st| - 1], x);
    }
  }

  lemma SortedRangeFrame(s0: seq<int>, s1: seq<int>, lo: int, hi: int, start: int, end: int)
    requires |s0| == |s1| && 0 <= lo <= hi <= |s0| && 0 <= start <= end <= |s0|
    requires hi <= start || end <= lo
    requires s1[..start] == s0[..start] && s1[end..] == s0[end..]
    requires SortedRange(s0, lo, hi)
    ensures SortedRange(s1, lo, hi)
  {
    forall p | lo <= p < hi ensures s1[p] == s0[p] {
      if p < start {
        assert s1[..start][p] == s0[..start][p];
      } else {
        assert s1[end..][p - end] == s0[end..][p - end];
      }
    }
  }

  lemma SortedSlice(s: seq<int>, lo: int, hi: int)
    requires 0 <= lo <= hi <= |s| && Sorted(s[lo..hi])
    ensures SortedRange(s, lo, hi)
  {
    forall p, q | lo <= p < q < hi ensures s[p] <= s[q] {
      assert s[p] == s[lo..hi][p - lo] && s[q] == s[lo..hi][q - lo];
    }
  }

  /** A job preserves the multiset of the whole array. */
  lemma ExecutedPermutes(j: Job, s0: seq<int>, s1: seq<int>)
    requires Executed(j, s0, s1)
    ensures multiset(s1) == multiset(s0)
  {
    var lo, hi := j.start, j.end;
    if j.id < 7 {
      MergedPermutes(s0, lo, j.mid, j.mid, hi);
      assert s0[lo..hi] == s0[lo..j.mid] + s0[j.mid..hi];
    }
    assert multiset(s1[lo..hi]) == multiset(s0[lo..hi]);
    assert s1 == s1[..lo] + s1[lo..hi] + s1[hi..];
    assert s0 == s0[..lo] + s0[lo..hi] + s0[hi..];
  }

  // ----- the scheduler invariant is kept by every move -----------------------

  /** The eight seeded leaf jobs, in the order the dispatcher queues them. */
  function Seeds(n: int): (r: seq<Job>)
    ensures |r| == NumSortTasks
    ensures forall i :: 0 <= i < NumSortTasks ==> r[i] == TreeJob(7 + i, n)
  {
    seq(NumSortTasks, i requires 0 <= i < NumSortTasks => SeedJob(i, n))
  }

  /** After seeding, with nothing dispatched yet, the invariant holds. */
  lemma SeedEstablishes(st: seq<Status>, s: seq<int>)
    requires |st| == NumTasks && forall v :: 0 <= v < NumTasks ==> st[v] == NotDispatched
    ensures SchedInv(st, Seeds(|s|), [], s, NumSortTasks)
    ensures Closed(st)
  {
    var q := Seeds(|s|);
    CountAll(st[..7], NotDispatched);
    forall v | IsNode(v) && Active(st, v) ensures HasJob(q, v) {
      assert q[v - 7].id == v;
    }
  }

  /** A worker takes the job at the head of the queue. */
  lemma TakeKeeps(st: seq<Status>, q: seq<Job>, f: seq<Job>, s: seq<int>, cnt: int)
    requires SchedInv(st, q, f, s, cnt) && q != []
    ensures SchedInv(st, q[1..], f + [q[0]], s, cnt)
  {
    var q', f' := q[1..], f + [q[0]];
    forall v | IsNode(v) && Active(st, v) ensures HasJob(q', v) || HasJob(f', v) {
      if HasJob(q, v) {
        var k :| 0 <= k < |q| && q[k].id == v;
        if k == 0 {
          assert f'[|f|].id == v;
        } else {
          assert q'[k - 1].id == v;
        }
      } else {
        var k :| 0 <= k < |f| && f[k].id == v;
        assert f'[k].id == v;
      }
    }
  }

  /** The scan dispatches ready node `p` and queues its merge job. */
  lemma DispatchKeeps(st: seq<Status>, q: seq<Job>, f: seq<Job>, s: seq<int>, cnt: int, p: int)
    requires SchedInv(st, q, f, s, cnt) && 0 <= p < 7 && Ready(st, p)
    ensures SchedInv(st[p := Dispatched], q + [TreeJob(p, |s|)], f, s, cnt + 1)
    ensures Count(st[p := Dispatched][..7], NotDispatched) == Count(st[..7], NotDispatched) - 1
  {
    var st' := st[p := Dispatched];
    assert st'[..7] == st[..7][p := Dispatched];
    CountUpdate(st[..7], p, Dispatched, NotDispatched);
    DispatchJobsOk(st, q, f, |s|, p);
    DispatchDoneBelow(st, p);
    forall v | IsNode(v) && IsTop(st', v) ensures IsTop(st, v) {
    }
  }

  lemma DispatchJobsOk(st: seq<Status>, q: seq<Job>, f: seq<Job>, n: int, p: int)
    requires |st| == NumTasks && JobsOk(q, f, st, n) && 0 <= p < 7 && Ready(st, p)
    ensures JobsOk(q + [TreeJob(p, n)], f, st[p := Dispatched], n)
  {
    var st', q' := st[p := Dispatched], q + [TreeJob(p, n)];
    assert forall k :: 0 <= k < |q| ==> q'[k] == q[k] && q[k].id != p;
    assert forall k :: 0 <= k < |f| ==> f[k].id != p;
    forall v | IsNode(v) && Active(st', v) ensures HasJob(q', v) || HasJob(f, v) {
      if v == p {
        assert q'[|q|].id == p;
      } else {
        assert Active(st, v);
        if HasJob(q, v) {
          var k :| 0 <= k < |q| && q[k].id == v;
          assert q'[k].id == v;
        }
      }
    }
  }

  lemma DispatchDoneBelow(st: seq<Status>, p: int)
    requires |st| == NumTasks && DoneBelow(st) && 0 <= p < 7 && Ready(st, p)
    ensures DoneBelow(st[p := Dispatched])
  {
    var st' := st[p := Dispatched];
    forall u, v | IsNode(u) && IsNode(v) && u != v && Below(u, v) && st'[v] != NotDispatched
      ensures st'[u] == Completed
    {
      if v == p {
        BelowChild(u, p);
      }
    }
  }

  /** A worker finishes the job it holds at position `k`. */
  lemma FinishKeeps(st: seq<Status>, q: seq<Job>, f: seq<Job>, s0: seq<int>, s1: seq<int>, cnt: int, k: int)
    requires SchedInv(st, q, f, s0, cnt) && 0 <= k < |f|
    requires Executed(f[k], s0, s1)
    ensures SchedInv(st[f[k].id := Completed], q, RemoveAt(f, k), s1, cnt)
    ensures multiset(s1) == multiset(s0)
  {
    var v := f[k].id;
    var st', f' := st[v := Completed], RemoveAt(f, k);
    FinishJobsOk(st, q, f, |s0|, k);
    FinishDoneBelow(st, q, f, s0, cnt, k);
    FinishTops(st, q, f, s0, s1, cnt, k);
    ExecutedPermutes(f[k], s0, s1);
    if v < 7 {
      assert st'[..7] == st[..7][v := Completed];
      CountUpdate(st[..7], v, Completed, NotDispatched);
    } else {
      assert st'[..7] == st[..7];
    }
  }

  lemma FinishJobsOk(st: seq<Status>, q: seq<Job>, f: seq<Job>, n: int, k: int)
    requires |st| == NumTasks && JobsOk(q, f, st, n) && 0 <= k < |f|
    ensures JobsOk(q, RemoveAt(f, k), st[f[k].id := Completed], n)
  {
    var v := f[k].id;
    var st', f' := st[v := Completed], RemoveAt(f, k);
    RemoveHeld(st, q, f, n, k);
    forall w | IsNode(w) && Active(st', w) ensures HasJob(q, w) || HasJob(f', w) {
      assert w != v;
      if !HasJob(q, w) {
        var l :| 0 <= l < |f| && f[l].id == w;
        assert l != k;
        assert f'[if l < k then l else l - 1].id == w;
      }
    }
  }

  /** `f` without its element at `k`. */
  function RemoveAt(f: seq<Job>, k: int): (r: seq<Job>)
    requires 0 <= k < |f|
    ensures |r| == |f| - 1
    ensures forall l :: 0 <= l < |r| ==> r[l] == f[if l < k then l else l + 1]
  {
    f[..k] + f[k + 1..]
  }

  /** Dropping the finished job keeps the held jobs active and distinct. */
  lemma RemoveHeld(st: seq<Status>, q: seq<Job>, f: seq<Job>, n: int, k: int)
    requires |st| == NumTasks && JobsOk(q, f, st, n) && 0 <= k < |f|
    ensures forall l :: 0 <= l < |f| - 1 ==> RemoveAt(f, k)[l].id != f[k].id
    ensures forall j :: 0 <= j < |q| ==> q[j].id != f[k].id && Active(st[f[k].id := Completed], q[j].id)
    ensures DistinctIds(RemoveAt(f, k))
  {
  }

  lemma FinishDoneBelow(st: seq<Status>, q: seq<Job>, f: seq<Job>, s: seq<int>, cnt: int, k: int)
    requires SchedInv(st, q, f, s, cnt) && 0 <= k < |f|
    ensures DoneBelow(st[f[k].id := Completed])
  {
    var v := f[k].id;
    var st' := st[v := Completed];
    assert Active(st, v);
    forall u, w | IsNode(u) && IsNode(w) && u != w && Below(u, w) && st'[w] != NotDispatched
      ensures st'[u] == Completed
    {
      if u == v {
        // an ancestor that has started would have needed v completed
        assert false;
      }
    }
  }

  lemma FinishTops(st: seq<Status>, q: seq<Job>, f: seq<Job>, s0: seq<int>, s1: seq<int>, cnt: int, k: int)
    requires SchedInv(st, q, f, s0, cnt) && 0 <= k < |f|
    requires Executed(f[k], s0, s1)
    ensures TopsSorted(st[f[k].id := Completed], s1)
  {
    var v := f[k].id;
    var n := |s0|;
    var st' := st[v := Completed];
    assert Active(st, v) && f[k] == TreeJob(v, n);
    TreeJobRange(v, n);
    forall u | IsNode(u) && IsTop(st', u) && 0 <= Lo(u, |s1|) <= Hi(u, |s1|) <= |s1|
      ensures SortedRange(s1, Lo(u, |s1|), Hi(u, |s1|))
    {
      if u == v {
        FinishedSorted(st, q, f, s0, s1, cnt, k);
      } else {
        assert IsTop(st, u);
        Laminar(u, v);
        if Below(u, v) {
          ParentBelow(u, v);
          assert false;
        } else if Below(v, u) {
          assert false;
        } else if LastLeaf(u) <= FirstLeaf(v) {
          DisjointRanges(u, v, n);
          SortedRangeFrame(s0, s1, Lo(u, n), Hi(u, n), Lo(v, n), Hi(v, n));
        } else {
          DisjointRanges(v, u, n);
          SortedRangeFrame(s0, s1, Lo(u, n), Hi(u, n), Lo(v, n), Hi(v, n));
        }
      }
    }
  }

  /** The finished job's own range is sorted: a sort job sorts it, a merge
      job merges the sorted ranges of its two completed children. */
  lemma FinishedSorted(st: seq<Status>, q: seq<Job>, f: seq<Job>, s0: seq<int>, s1: seq<int>, cnt: int, k: int)
    requires SchedInv(st, q, f, s0, cnt) && 0 <= k < |f|
    requires Executed(f[k], s0, s1)
    ensures SortedRange(s1, Lo(f[k].id, |s0|), Hi(f[k].id, |s0|))
  {
    var v := f[k].id;
    assert Active(st, v) && f[k] == TreeJob(v, |s0|);
    if v < 7 {
      MergeOfTopsSorted(st, s0, s1, v);
    }
  }

  /** Merging the ranges of two completed children of a dispatched node
      leaves the node's range sorted. */
  lemma MergeOfTopsSorted(st: seq<Status>, s0: seq<int>, s1: seq<int>, v: int)
    requires |st| == NumTasks && DoneBelow(st) && TopsSorted(st, s0)
    requires 0 <= v < 7 && st[v] == Dispatched
    requires Executed(TreeJob(v, |s0|), s0, s1)
    ensures SortedRange(s1, Lo(v, |s0|), Hi(v, |s0|))
  {
    var n := |s0|;
    var c1, c2 := 2 * v + 1, 2 * v + 2;
    TreeJobRange(v, n);
    TreeJobRange(c1, n);
    TreeJobRange(c2, n);
    assert Below(c1, v) && Below(c2, v);
    assert IsTop(st, c1) && IsTop(st, c2);
    MergeSortsRange(s0, Lo(v, n), Hi(c1, n), Hi(v, n));
    SortedSlice(s1, Lo(v, n), Hi(v, n));
  }


  /** With no job queued, held or signalled, and no node ready, every node
      has completed: the dispatcher loop cannot wait forever. */
  lemma Quiescent(st: seq<Status>, s: seq<int>, cnt: int)
    requires SchedInv(st, [], [], s, cnt) && Closed(st)
    ensures forall v :: IsNode(v) ==> st[v] == Completed
  {
    assert forall v :: IsNode(v) ==> !Active(st, v);
    forall v | 7 <= v < NumTasks ensures st[v] == Completed {
      assert !Active(st, v) && st[v] != Dispatched;
    }
    var p := 6;
    while p >= 0
      invariant -1 <= p <= 6
      invariant forall v :: p < v < NumTasks ==> st[v] == Completed
    {
      assert !Ready(st, p) && !Active(st, p);
      p := p - 1;
    }
  }

  /** Once the root has completed, every job has run, `job_cnt` is 15 and the
      array is sorted. */
  lemma RootDone(st: seq<Status>, q: seq<Job>, f: seq<Job>, s: seq<int>, cnt: int)
    requires SchedInv(st, q, f, s, cnt) && st[0] == Completed
    ensures forall v :: IsNode(v) ==> st[v] == Completed
    ensures cnt == NumTasks
    ensures Sorted(s)
  {
    forall u | IsNode(u) ensures st[u] == Completed {
      BelowRoot(u);
    }
    CountAbsent(st[..7], NotDispatched);
    RootCoversAll(|s|);
    assert IsTop(st, 0);
  }

  // ----- one dispatcher scan, as a specification -----------------------------

  /** The progress tree after one scan: every ready inner node is dispatched. */
  function ScanStatus(st: seq<Status>): (r: seq<Status>)
    requires |st| == NumTasks
    ensures |r| == NumTasks
  {
    ScanStatusAbove(st, -1)
  }

  /** The progress tree once the scan has looked at the inner nodes above `p`. */
  function ScanStatusAbove(st: seq<Status>, p: int): (r: seq<Status>)
    requires |st| == NumTasks
    ensures |r| == NumTasks
  {
    seq(NumTasks, v requires 0 <= v < NumTasks => if p < v < 7 && Ready(st, v) then Dispatched else st[v])
  }


  /** The merge jobs a scan queues for the inner nodes `p + 1 .. 6`, in the
      order the scan meets them (from node 6 down). */
  function ScanJobsAbove(st: seq<Status>, n: int, p: int): (r: seq<Job>)
    requires |st| == NumTasks && -1 <= p <= 6
    decreases 6 - p
  {
    if p == 6 then []
    else ScanJobsAbove(st, n, p + 1) + (if Ready(st, p + 1) then [TreeJob(p + 1, n)] else [])
  }

  function ScanJobs(st: seq<Status>, n: int): seq<Job>
    requires |st| == NumTasks
  {
    ScanJobsAbove(st, n, -1)
  }

  /** A scan leaves no node ready, only moves ready nodes from NOT_DISPATCHED to
      DISPATCHED, and leaves every other node as it was. */
  lemma ScanCloses(st: seq<Status>)
    requires |st| == NumTasks
    ensures Closed(ScanStatus(st))
    ensures forall v :: 0 <= v < NumTasks ==>
      (ScanStatus(st)[v] != st[v] <==> v < 7 && Ready(st, v)) &&
      (ScanStatus(st)[v] != st[v] ==> st[v] == NotDispatched && ScanStatus(st)[v] == Dispatched)
  {
    forall p | 0 <= p < 7 ensures !Ready(ScanStatus(st), p) {
      var c := 2 * p + 1;
      if c < 7 && Ready(st, c) {
        assert ScanStatus(st)[c] == Dispatched;
      } else if 2 * p + 2 < 7 && Ready(st, 2 * p + 2) {
        assert ScanStatus(st)[2 * p + 2] == Dispatched;
      }
    }
  }

  /** Every job a scan queues is the merge job of a node that was ready. */
  lemma {:induction false} ScanJobsReady(st: seq<Status>, n: int, p: int)
    requires |st| == NumTasks && -1 <= p <= 6
    ensures forall k :: 0 <= k < |ScanJobsAbove(st, n, p)| ==> JobOfReady(st, n, ScanJobsAbove(st, n, p)[k])
    decreases 6 - p
  {
    if p < 6 {
      ScanJobsReady(st, n, p + 1);
      var r0 := ScanJobsAbove(st, n, p + 1);
      if Ready(st, p + 1) {
        var j := TreeJob(p + 1, n);
        assert JobOfReady(st, n, j);
        assert ScanJobsAbove(st, n, p) == r0 + [j];
      } else {
        assert ScanJobsAbove(st, n, p) == r0;
      }
    }
  }

  /** `j` is the merge job of an inner node that is ready in `st`. */
  predicate JobOfReady(st: seq<Status>, n: int, j: Job)
    requires |st| == NumTasks
  {
    0 <= j.id < 7 && Ready(st, j.id) && j == TreeJob(j.id, n)
  }

  lemma {:induction false} ScanJobsIds(st: seq<Status>, n: int, p: int)
    requires |st| == NumTasks && -1 <= p <= 6
    ensures forall k :: 0 <= k < |ScanJobsAbove(st, n, p)| ==> p < ScanJobsAbove(st, n, p)[k].id < 7
    decreases 6 - p
  {
    if p < 6 {
      ScanJobsIds(st, n, p + 1);
    }
  }

  /** A scan queues at most one job per node, and one for every ready node. */
  lemma {:induction false} ScanJobsOnce(st: seq<Status>, n: int, p: int)
    requires |st| == NumTasks && -1 <= p <= 6
    ensures DistinctIds(ScanJobsAbove(st, n, p))
    ensures forall v :: p < v < 7 && Ready(st, v) ==> HasJob(ScanJobsAbove(st, n, p), v)
    decreases 6 - p
  {
    if p < 6 {
      ScanJobsOnce(st, n, p + 1);
      ScanJobsIds(st, n, p + 1);
      var r0 := ScanJobsAbove(st, n, p + 1);
      if Ready(st, p + 1) {
        var j := TreeJob(p + 1, n);
        AppendFresh(r0, j);
        assert ScanJobsAbove(st, n, p) == r0 + [j];
      } else {
        assert ScanJobsAbove(st, n, p) == r0;
      }
    }
  }

  /** Appending a job with a new id keeps ids distinct and loses no job. */
  lemma AppendFresh(r: seq<Job>, j: Job)
    requires DistinctIds(r) && forall k :: 0 <= k < |r| ==> r[k].id != j.id
    ensures DistinctIds(r + [j])
    ensures HasJob(r + [j], j.id)
    ensures forall v :: HasJob(r, v) ==> HasJob(r + [j], v)
  {
    assert (r + [j])[|r|] == j;
    forall v | HasJob(r, v) ensures HasJob(r + [j], v) {
      var k :| 0 <= k < |r| && r[k].id == v;
      assert (r + [j])[k] == r[k];
    }
  }

  /** Mid-scan, as values: the scan started from tree `st0` and queue `q0`,
      has looked at the inner nodes above `p`, and the scheduler invariant holds. */
  ghost predicate MidScan(st0: seq<Status>, q0: seq<Job>, st: seq<Status>, q: seq<Job>, f: seq<Job>,
                          s: seq<int>, cnt: int, p: int)
  {
    |st0| == NumTasks && |st| == NumTasks && -1 <= p <= 6
    && st == ScanStatusAbove(st0, p)
    && q == q0 + ScanJobsAbove(st0, |s|, p)
    && SchedInv(st, q, f, s, cnt)
    && Count(st[..7], NotDispatched) + |q| == Count(st0[..7], NotDispatched) + |q0|
  }

  /** A whole scan from tree `st0` and queue `q0` leads to tree `st` and
      queue `q`: the ready nodes are dispatched, their jobs queued, no node is
      left ready, and the scheduler invariant holds. */
  ghost predicate ScanResult(st0: seq<Status>, q0: seq<Job>, st: seq<Status>, q: seq<Job>, f: seq<Job>,
                             s: seq<int>, cnt: int)
  {
    |st0| == NumTasks
    && st == ScanStatus(st0) && q == q0 + ScanJobs(st0, |s|)
    && SchedInv(st, q, f, s, cnt) && Closed(st)
    && Count(st[..7], NotDispatched) + |q| == Count(st0[..7], NotDispatched) + |q0|
  }

  lemma ScanStart(st: seq<Status>, q: seq<Job>, f: seq<Job>, s: seq<int>, cnt: int)
    requires SchedInv(st, q, f, s, cnt)
    ensures MidScan(st, q, st, q, f, s, cnt, 6)
  {
    assert q + ScanJobsAbove(st, |s|, 6) == q;
    assert st == ScanStatusAbove(st, 6);
  }

  /** At the end of the scan the tree and the queue are as specified. */
  lemma ScanDone(st0: seq<Status>, q0: seq<Job>, st: seq<Status>, q: seq<Job>, f: seq<Job>, s: seq<int>, cnt: int,
                 p: int)
    requires MidScan(st0, q0, st, q, f, s, cnt, p) && p == -1
    ensures ScanResult(st0, q0, st, q, f, s, cnt)
  {
    ScanCloses(st0);
  }

  /** The scan's test at node `p` sees the tree as it was when the scan
      started, and dispatching the node keeps the mid-scan invariant. */
  lemma ScanStep(st0: seq<Status>, q0: seq<Job>, st: seq<Status>, q: seq<Job>, f: seq<Job>,
                 s: seq<int>, cnt: int, p: int)
    requires MidScan(st0, q0, st, q, f, s, cnt, p) && 0 <= p < 7
    ensures Ready(st0, p) <==> Ready(st, p)
    ensures Ready(st0, p) ==> MidScan(st0, q0, st[p := Dispatched], q + [TreeJob(p, |s|)], f, s, cnt + 1, p - 1)
    ensures !Ready(st0, p) ==> MidScan(st0, q0, st, q, f, s, cnt, p - 1)
  {
    ScanAdvance(st0, p, |s|);
    if Ready(st0, p) {
      DispatchKeeps(st, q, f, s, cnt, p);
    }
  }

  /** Looking at node `p` dispatches it exactly when it was ready. */
  lemma ScanAdvance(st0: seq<Status>, p: int, n: int)
    requires |st0| == NumTasks && 0 <= p < 7
    ensures Ready(st0, p) <==> Ready(ScanStatusAbove(st0, p), p)
    ensures Ready(st0, p) ==>
      ScanStatusAbove(st0, p - 1) == ScanStatusAbove(st0, p)[p := Dispatched] &&
      ScanJobsAbove(st0, n, p - 1) == ScanJobsAbove(st0, n, p) + [TreeJob(p, n)]
    ensures !Ready(st0, p) ==>
      ScanStatusAbove(st0, p - 1) == ScanStatusAbove(st0, p) &&
      ScanJobsAbove(st0, n, p - 1) == ScanJobsAbove(st0, n, p)
  {
  }


  // ----- the shared state of one sorting session -----------------------------

  /** One sorting session: the array and its scratch copy, the progress tree,
      the FIFO job queue with `job_count` and `job_cnt`, the jobs the workers
      hold, and the pending posts of the dispatcher semaphore. The threads are
      modelled by `Run`, which interleaves their steps in any order. */
  class Scheduler {
    const data: array<int>
    const temp: array<int>
    const progress: array<Status>
    const workers: nat
    var queue: seq<Job>
    var jobCount: int
    var jobCnt: int
    var held: seq<Job>
    var signals: nat

    /** The state `main` sets up before starting the threads. */
    predicate Initial()
      reads this, progress
    {
      progress.Length == NumTasks
      && (forall v :: 0 <= v < NumTasks ==> progress[v] == NotDispatched)
      && queue == [] && jobCount == 0 && jobCnt == 0 && held == [] && signals == 0
      && data != temp && data.Length == temp.Length
    }

    ghost predicate Valid()
      reads this, progress, data
    {
      progress.Length == NumTasks && data != temp && data.Length == temp.Length
      && jobCount == |queue| && |held| <= workers
      && SchedInv(progress[..], queue, held, data[..], jobCnt)
      && (signals == 0 ==> Closed(progress[..]))
    }

    /** Decreases with every step of every thread. */
    ghost function Measure(): nat
      reads this, progress
      requires progress.Length == NumTasks
    {
      4 * Count(progress[..7], NotDispatched) + 3 * |queue| + 2 * |held| + signals
    }

    constructor (input: array<int>, threads: nat)
      ensures data == input && workers == threads
      ensures fresh(temp) && fresh(progress)
      ensures Initial()
    {
      data := input;
      temp := new int[input.Length];
      progress := new Status[NumTasks](_ => NotDispatched);
      workers := threads;
      queue := [];
      jobCount := 0;
      jobCnt := 0;
      held := [];
      signals := 0;
    }

    /** `add_job`: append at the tail and count the job twice over. */
    method AddJob(job: Job)
      modifies this
      ensures queue == old(queue) + [job]
      ensures jobCount == old(jobCount) + 1 && jobCnt == old(jobCnt) + 1
      ensures held == old(held) && signals == old(signals)
    {
      queue := queue + [job];
      jobCount := jobCount + 1;
      jobCnt := jobCnt + 1;
    }

    /** `get_job`: take the head of the queue, or the invalid job when empty. */
    method GetJob() returns (job: Job)
      modifies this
      ensures old(queue) == [] ==> job == InvalidJob && queue == [] && jobCount == old(jobCount)
      ensures old(queue) != [] ==>
        job == old(queue)[0] && queue == old(queue)[1..] && jobCount == old(jobCount) - 1
      ensures jobCnt == old(jobCnt) && held == old(held) && signals == old(signals)
    {
      if queue == [] {
        job := InvalidJob;
        return;
      }
      job := queue[0];
      queue := queue[1..];
      jobCount := jobCount - 1;
    }

    /** The dispatcher queues the eight sort jobs, leaves 7 .. 14 in order. */
    method Seed()
      requires Initial()
      modifies this
      ensures queue == Seeds(data.Length) && jobCnt == NumSortTasks
      ensures Valid() && held == [] && signals == 0
    {
      var i := 0;
      while i < NumSortTasks
        invariant 0 <= i <= NumSortTasks
        invariant queue == Seeds(data.Length)[..i] && jobCount == i && jobCnt == i
        invariant held == [] && signals == 0
      {
        AddJob(SeedJob(i, data.Length));
        i := i + 1;
      }
      SeedEstablishes(progress[..], data[..]);
    }

    /** One pass of the dispatcher over the merge nodes, from node 6 down to
        node 0: every node whose children have completed and which is still
        NOT_DISPATCHED becomes DISPATCHED and its merge job is queued. */
    method Scan()
      requires progress.Length == NumTasks && data != temp && data.Length == temp.Length
      requires jobCount == |queue| && SchedInv(progress[..], queue, held, data[..], jobCnt)
      modifies this, progress
      ensures ScanResult(old(progress[..]), old(queue), progress[..], queue, held, data[..], jobCnt)
      ensures held == old(held) && signals == old(signals) && jobCount == |queue|
    {
      ghost var st0, q0 := progress[..], queue;
      ScanStart(st0, q0, held, data[..], jobCnt);
      var k := 13;
      ghost var p := 6;
      while k > 0
        invariant -1 <= p <= 6 && k == 2 * p + 1
        invariant held == old(held) && signals == old(signals) && jobCount == |queue|
        invariant MidScan(st0, q0, progress[..], queue, held, data[..], jobCnt, p)
      {
        ScanNode(k, p, st0, q0);
        k, p := k - 2, p - 1;
      }
      ScanDone(st0, q0, progress[..], queue, held, data[..], jobCnt, p);
    }

    /** The scan's look at the children `k`, `k + 1` of node `(k - 1) / 2`,
        against the tree `st0` and the queue `q0` the scan started from. */
    method ScanNode(k: int, ghost node: int, ghost st0: seq<Status>, ghost q0: seq<Job>)
      requires 0 <= node < 7 && k == 2 * node + 1 && jobCount == |queue|
      requires MidScan(st0, q0, progress[..], queue, held, data[..], jobCnt, node)
      modifies this, progress
      ensures held == old(held) && signals == old(signals) && jobCount == |queue|
      ensures MidScan(st0, q0, progress[..], queue, held, data[..], jobCnt, node - 1)
    {
      var n := data.Length;
      SiblingIndex(node);
      var p := (k - 1) / 2;
      ghost var st, q, s, cnt := progress[..], queue, data[..], jobCnt;
      ScanStep(st0, q0, st, q, held, s, cnt, p);
      if progress[k] == Completed && progress[k + 1] == Completed && progress[p] == NotDispatched {
        assert Ready(st, p);
        progress[p] := Dispatched;
        var job := MergeJob(k, n);
        AddJob(job);
        assert progress[..] == st[p := Dispatched] && queue == q + [TreeJob(p, n)];
        assert data[..] == s && jobCnt == cnt + 1;
      } else {
        assert !Ready(st, p);
      }
    }

    /** A worker runs a job: a sort job bubble-sorts its range, a merge job
        merges its two halves through the scratch array. */
    method Execute(job: Job)
      requires data != temp && data.Length == temp.Length
      requires 0 <= job.start <= job.end <= data.Length
      requires job.id < 7 ==> job.start <= job.mid <= job.end
      modifies data, temp
      ensures Executed(job, old(data[..]), data[..])
    {
      if job.id >= 7 {
        BubbleSort(data, job.start, job.end);
      } else {
        Merge(data, temp, job.start, job.mid, job.end);
      }
    }

    /** A free worker takes the job at the head of the queue. */
    method WorkerTake()
      requires Valid() && |queue| > 0 && |held| < workers
      modifies this
      ensures Valid() && Measure() < old(Measure())
      ensures queue == old(queue)[1..] && held == old(held) + [old(queue)[0]]
      ensures signals == old(signals) && jobCnt == old(jobCnt)
    {
      ghost var st, q, f := progress[..], queue, held;
      var job := GetJob();
      if job.id != -1 {
        held := held + [job];
      }
      TakeKeeps(st, q, f, data[..], jobCnt);
    }

    /** The worker holding `held[k]` finishes it: runs it, marks the node
        COMPLETED and posts the dispatcher semaphore. */
    method WorkerFinish(k: int)
      requires Valid() && 0 <= k < |held|
      modifies this, data, temp, progress
      ensures Valid() && Measure() < old(Measure())
      ensures multiset(data[..]) == multiset(old(data[..]))
      ensures Executed(old(held)[k], old(data[..]), data[..])
      ensures progress[..] == old(progress[..])[old(held)[k].id := Completed]
      ensures held == RemoveAt(old(held), k) && queue == old(queue)
      ensures signals == old(signals) + 1 && jobCnt == old(jobCnt)
    {
      ghost var st, s0 := progress[..], data[..];
      var job := held[k];
      assert Active(st, job.id) && job == TreeJob(job.id, data.Length);
      TreeJobRange(job.id, data.Length);
      Execute(job);
      FinishKeeps(st, queue, held, s0, data[..], jobCnt, k);
      progress[job.id] := Completed;
      assert progress[..] == st[job.id := Completed];
      held := RemoveAt(held, k);
      signals := signals + 1;
    }

    /** The dispatcher consumes one post of its semaphore and scans. */
    method DispatcherScan()
      requires Valid() && signals > 0
      modifies this, progress
      ensures Valid() && Measure() < old(Measure())
      ensures ScanResult(old(progress[..]), old(queue), progress[..], queue, held, data[..], jobCnt)
      ensures held == old(held) && signals == old(signals) - 1
    {
      signals := signals - 1;
      Scan();
    }

    /** A whole session: seed, then let the dispatcher and the workers take
        steps in any order until the root has completed. The array ends up
        sorted, a permutation of its input, after exactly 15 jobs. */
    method Run()
      requires Initial() && workers >= 1
      modifies this, data, temp, progress
      ensures Sorted(data[..]) && multiset(data[..]) == multiset(old(data[..]))
      ensures forall v :: 0 <= v < NumTasks ==> progress[v] == Completed
      ensures jobCnt == NumTasks
    {
      Seed();
      while progress[0] != Completed
        invariant Valid() && multiset(data[..]) == multiset(old(data[..]))
        decreases Measure()
      {
        if queue == [] && held == [] && signals == 0 {
          Quiescent(progress[..], data[..], jobCnt);
          assert false;
        }
        if
        case queue != [] && |held| < workers =>
          WorkerTake();
        case held != [] =>
          var k :| 0 <= k < |held|;
          WorkerFinish(k);
        case signals > 0 =>
          DispatcherScan();
      }
      RootDone(progress[..], queue, held, data[..], jobCnt);
    }
  }
}
