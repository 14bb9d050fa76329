// The two job bodies of the merge-sort scheduler in hw3/111511141.c:
// the leaf sort (`bubble_sort`) and the two-run merge through the scratch
// buffer (`merge`). Both work in place on the shared array.
module SortKernels {

  /** `s[lo..hi)` is non-decreasing. */
  ghost predicate SortedRange(s: seq<int>, lo: int, hi: int)
    requires 0 <= lo <= hi <= |s|
  {
    forall p, q :: lo <= p < q < hi ==> s[p] <= s[q]
  }

  ghost predicate Sorted(s: seq<int>)
  {
    forall p, q :: 0 <= p < q < |s| ==> s[p] <= s[q]
  }

  /** What `merge` writes for the cursors `i` (left run `s[i..mid)`) and `j`
      (right run `s[j..hi)`): one element per step, the left head while it is
      `<=` the right head (the left run wins ties), and each run drained once
      the other is exhausted. */
  function Merged(s: seq<int>, i: int, mid: int, j: int, hi: int): (r: seq<int>)
    requires 0 <= i <= mid <= j <= hi <= |s|
    ensures |r| == (mid - i) + (hi - j)
    decreases (mid - i) + (hi - j)
  {
    if i < mid && (j == hi || s[i] <= s[j]) then [s[i]] + Merged(s, i + 1, mid, j, hi)
    else if j < hi then [s[j]] + Merged(s, i, mid, j + 1, hi)
    else []
  }

  /** The merge is a permutation of the two runs. */
  lemma {:induction false} MergedPermutes(s: seq<int>, i: int, mid: int, j: int, hi: int)
    requires 0 <= i <= mid <= j <= hi <= |s|
    ensures multiset(Merged(s, i, mid, j, hi)) == multiset(s[i..mid]) + multiset(s[j..hi])
    decreases (mid - i) + (hi - j)
  {
    if i < mid && (j == hi || s[i] <= s[j]) {
      MergedPermutes(s, i + 1, mid, j, hi);
      SliceHead(s, i, mid);
      ConsCount(s[i], Merged(s, i + 1, mid, j, hi), multiset(s[i + 1..mid]), multiset(s[j..hi]));
    } else if j < hi {
      MergedPermutes(s, i, mid, j + 1, hi);
      SliceHead(s, j, hi);
      ConsCount(s[j], Merged(s, i, mid, j + 1, hi), multiset(s[j + 1..hi]), multiset(s[i..mid]));
    } else {
      assert s[i..mid] == [] && s[j..hi] == [];
    }
  }

  /** Counting step of the permutation proof: one more element in front. */
  lemma ConsCount(v: int, rest: seq<int>, x: multiset<int>, y: multiset<int>)
    requires multiset(rest) == x + y
    ensures multiset([v] + rest) == (multiset{v} + x) + y
    ensures multiset([v] + rest) == y + (multiset{v} + x)
  {
    assert multiset([v] + rest) == multiset{v} + multiset(rest);
  }

  lemma SliceHead(s: seq<int>, lo: int, hi: int)
    requires 0 <= lo < hi <= |s|
    ensures multiset(s[lo..hi]) == multiset{s[lo]} + multiset(s[lo + 1..hi])
  {
    assert s[lo..hi] == [s[lo]] + s[lo + 1..hi];
  }

  /** A lower bound of both runs bounds their merge. */
  lemma {:induction false} MergedBounded(s: seq<int>, i: int, mid: int, j: int, hi: int, v: int)
    requires 0 <= i <= mid <= j <= hi <= |s|
    requires forall p :: i <= p < mid ==> v <= s[p]
    requires forall p :: j <= p < hi ==> v <= s[p]
    ensures forall p :: 0 <= p < |Merged(s, i, mid, j, hi)| ==> v <= Merged(s, i, mid, j, hi)[p]
    decreases (mid - i) + (hi - j)
  {
    if i < mid && (j == hi || s[i] <= s[j]) {
      MergedBounded(s, i + 1, mid, j, hi, v);
    } else if j < hi {
      MergedBounded(s, i, mid, j + 1, hi, v);
    }
  }

  /** Merging two sorted runs gives a sorted run. */
  lemma {:induction false} MergedSorted(s: seq<int>, i: int, mid: int, j: int, hi: int)
    requires 0 <= i <= mid <= j <= hi <= |s|
    requires SortedRange(s, i, mid) && SortedRange(s, j, hi)
    ensures Sorted(Merged(s, i, mid, j, hi))
    decreases (mid - i) + (hi - j)
  {
    if i < mid && (j == hi || s[i] <= s[j]) {
      MergedSorted(s, i + 1, mid, j, hi);
      MergedBounded(s, i + 1, mid, j, hi, s[i]);
      SortedCons(s[i], Merged(s, i + 1, mid, j, hi));
    } else if j < hi {
      MergedSorted(s, i, mid, j + 1, hi);
      MergedBounded(s, i, mid, j + 1, hi, s[j]);
      SortedCons(s[j], Merged(s, i, mid, j + 1, hi));
    }
  }

  /** A merge job over two sorted adjacent runs leaves `s[lo..hi)` sorted and
      permuted. */
  lemma MergeSortsRange(s: seq<int>, lo: int, mid: int, hi: int)
    requires 0 <= lo <= mid <= hi <= |s|
    requires SortedRange(s, lo, mid) && SortedRange(s, mid, hi)
    ensures Sorted(Merged(s, lo, mid, mid, hi))
    ensures multiset(Merged(s, lo, mid, mid, hi)) == multiset(s[lo..hi])
  {
    MergedSorted(s, lo, mid, mid, hi);
    MergedPermutes(s, lo, mid, mid, hi);
    assert s[lo..hi] == s[lo..mid] + s[mid..hi];
  }

  lemma SortedCons(v: int, s: seq<int>)
    requires Sorted(s) && (s != [] ==> v <= s[0])
    ensures Sorted([v] + s)
  {
    var t := [v] + s;
    forall p, q | 0 <= p < q < |t| ensures t[p] <= t[q] {
      if p > 0 {
        assert t[p] == s[p - 1] && t[q] == s[q - 1];
      } else {
        assert t[q] == s[q - 1];
      }
    }
  }

  /** Exchanges two cells; nothing else changes. */
  method Swap(a: array<int>, i: int, j: int)
    requires 0 <= i < a.Length && 0 <= j < a.Length
    modifies a
    ensures a[i] == old(a[j]) && a[j] == old(a[i])
    ensures forall k :: 0 <= k < a.Length && k != i && k != j ==> a[k] == old(a[k])
    ensures multiset(a[..]) == old(multiset(a[..]))
  {
    a[i], a[j] := a[j], a[i];
  }

  /** `bubble_sort(start, end)`: after the call `a[lo..hi)` is sorted and a
      permutation of what it held; every cell outside is unchanged. */
  method BubbleSort(a: array<int>, lo: int, hi: int)
    requires 0 <= lo <= hi <= a.Length
    modifies a
    ensures SortedRange(a[..], lo, hi)
    ensures multiset(a[lo..hi]) == multiset(old(a[lo..hi]))
    ensures a[..lo] == old(a[..lo]) && a[hi..] == old(a[hi..])
  {
    var i := lo;
    while i < hi - 1
      invariant lo <= i && (i <= hi - 1 || i == lo)
      // after i - lo passes the last i - lo cells hold the largest values, sorted
      invariant SortedRange(a[..], hi - (i - lo), hi)
      invariant forall p, q :: lo <= p < hi - (i - lo) <= q < hi ==> a[p] <= a[q]
      invariant multiset(a[..]) == multiset(old(a[..]))
      invariant forall k :: 0 <= k < a.Length && !(lo <= k < hi) ==> a[k] == old(a[k])
    {
      BubblePass(a, lo, hi - (i - lo), hi);
      i := i + 1;
    }
    SliceMultiset(a[..], old(a[..]), lo, hi);
  }

  /** One pass of the inner loop of `bubble_sort` over `a[lo..b)`: carries the
      largest value of `a[lo..b)` to `a[b - 1]`. The sorted block `a[b..hi)`
      above it is untouched. */
  method BubblePass(a: array<int>, lo: int, b: int, hi: int)
    requires 0 <= lo < b <= hi <= a.Length
    requires SortedRange(a[..], b, hi)
    requires forall p, q :: lo <= p < b <= q < hi ==> a[p] <= a[q]
    modifies a
    ensures SortedRange(a[..], b - 1, hi)
    ensures forall p, q :: lo <= p < b - 1 <= q < hi ==> a[p] <= a[q]
    ensures multiset(a[..]) == multiset(old(a[..]))
    ensures forall k :: 0 <= k < a.Length && !(lo <= k < b) ==> a[k] == old(a[k])
  {
    var j := lo;
    while j < b - 1
      invariant lo <= j <= b - 1
      // a[j] is the largest value of a[lo..j]
      invariant forall p :: lo <= p < j ==> a[p] <= a[j]
      invariant forall p, q :: lo <= p < b <= q < hi ==> a[p] <= a[q]
      invariant multiset(a[..]) == multiset(old(a[..]))
      invariant forall k :: 0 <= k < a.Length && !(lo <= k < b) ==> a[k] == old(a[k])
    {
      if a[j] > a[j + 1] {
        Swap(a, j, j + 1);
      }
      j := j + 1;
    }
  }

  /** Two sequences that agree outside `[lo, hi)` and have the same multiset
      have the same multiset on `[lo, hi)`. */
  lemma SliceMultiset(s: seq<int>, t: seq<int>, lo: int, hi: int)
    requires 0 <= lo <= hi <= |s| == |t|
    requires multiset(s) == multiset(t)
    requires forall k :: 0 <= k < |s| && !(lo <= k < hi) ==> s[k] == t[k]
    ensures multiset(s[lo..hi]) == multiset(t[lo..hi])
    ensures s[..lo] == t[..lo] && s[hi..] == t[hi..]
  {
    assert s[..lo] == t[..lo];
    assert s[hi..] == t[hi..];
    assert s == s[..lo] + s[lo..hi] + s[hi..];
    assert t == t[..lo] + t[lo..hi] + t[hi..];
    var ms, mt := multiset(s[lo..hi]), multiset(t[lo..hi]);
    var ml, mh := multiset(s[..lo]), multiset(s[hi..]);
    assert multiset(s) == ml + ms + mh;
    assert multiset(t) == ml + mt + mh;
    forall v ensures ms[v] == mt[v] {
      assert (ml + ms + mh)[v] == ml[v] + ms[v] + mh[v];
      assert (ml + mt + mh)[v] == ml[v] + mt[v] + mh[v];
    }
  }

  /** `merge(start, mid, end)`: copies `a[lo..hi)` into the scratch buffer
      and merges its two runs back into `a`, the left run winning ties. */
  method Merge(a: array<int>, temp: array<int>, lo: int, mid: int, hi: int)
    requires a != temp && a.Length == temp.Length
    requires 0 <= lo <= mid <= hi <= a.Length
    modifies a, temp
    ensures a[lo..hi] == Merged(old(a[..]), lo, mid, mid, hi)
    ensures a[..lo] == old(a[..lo]) && a[hi..] == old(a[hi..])
    ensures temp[lo..hi] == old(a[lo..hi])
    ensures temp[..lo] == old(temp[..lo]) && temp[hi..] == old(temp[hi..])
  {
    CopyRange(a, temp, lo, hi);
    MergeBack(temp, a, lo, mid, hi, old(a[..]));
  }

  /** The `memcpy` of `a[lo..hi)` into the same cells of the scratch buffer. */
  method CopyRange(a: array<int>, temp: array<int>, lo: int, hi: int)
    requires a != temp && a.Length == temp.Length
    requires 0 <= lo <= hi <= a.Length
    modifies temp
    ensures temp[lo..hi] == a[lo..hi]
    ensures temp[..lo] == old(temp[..lo]) && temp[hi..] == old(temp[hi..])
  {
    forall k | lo <= k < hi {
      temp[k] := a[k];
    }
  }

  /** The three cursor loops of `merge`: the runs `temp[lo..mid)` and
      `temp[mid..hi)`, which hold what `s` holds there, are merged into
      `a[lo..hi)`. */
  method MergeBack(temp: array<int>, a: array<int>, lo: int, mid: int, hi: int, ghost s: seq<int>)
    requires a != temp && a.Length == temp.Length == |s|
    requires 0 <= lo <= mid <= hi <= a.Length
    requires temp[lo..hi] == s[lo..hi]
    modifies a
    ensures a[lo..hi] == Merged(s, lo, mid, mid, hi)
    ensures a[..lo] == old(a[..lo]) && a[hi..] == old(a[hi..])
  {
    ghost var m := Merged(s, lo, mid, mid, hi);
    var i, j, k := MergeHeads(temp, a, lo, mid, hi, s, m);
    i, k := DrainLeft(temp, a, lo, mid, hi, s, m, i, j, k);
    DrainRight(temp, a, lo, mid, hi, s, m, j, k);
  }

  /** The first loop of `merge`: while both runs are non-empty the smaller
      head, the left one on a tie, is written out. */
  method MergeHeads(temp: array<int>, a: array<int>, lo: int, mid: int, hi: int, ghost s: seq<int>,
                    ghost m: seq<int>) returns (i: int, j: int, k: int)
    requires a != temp && a.Length == temp.Length == |s|
    requires 0 <= lo <= mid <= hi <= a.Length
    requires temp[lo..hi] == s[lo..hi] && m == Merged(s, lo, mid, mid, hi)
    modifies a
    ensures lo <= i <= mid <= j <= hi && k == i + (j - mid) && (i == mid || j == hi)
    ensures a[lo..k] == m[..k - lo] && Merged(s, i, mid, j, hi) == m[k - lo..]
    ensures a[..lo] == old(a[..lo]) && a[hi..] == old(a[hi..])
  {
    i, j, k := lo, mid, lo;
    assert a[lo..k] == m[..0] && m[0..] == m;
    while i < mid && j < hi
      invariant lo <= i <= mid <= j <= hi && k == i + (j - mid) && |m| == hi - lo
      invariant a[lo..k] == m[..k - lo] && Merged(s, i, mid, j, hi) == m[k - lo..]
      invariant a[..lo] == old(a[..lo]) && a[hi..] == old(a[hi..])
    {
      i, j, k := MergeStep(temp, a, lo, mid, hi, s, m, i, j, k);
    }
  }

  /** One iteration of the first loop of `merge`. */
  method MergeStep(temp: array<int>, a: array<int>, lo: int, mid: int, hi: int, ghost s: seq<int>,
                   ghost m: seq<int>, i: int, j: int, k: int) returns (i': int, j': int, k': int)
    requires a != temp && a.Length == temp.Length == |s|
    requires 0 <= lo <= i < mid <= j < hi <= a.Length && k == i + (j - mid) && |m| == hi - lo
    requires temp[lo..hi] == s[lo..hi]
    requires a[lo..k] == m[..k - lo] && Merged(s, i, mid, j, hi) == m[k - lo..]
    modifies a
    ensures (i', j') == (i + 1, j) || (i', j') == (i, j + 1)
    ensures k' == k + 1 && i' <= mid && j' <= hi
    ensures a[lo..k'] == m[..k' - lo] && Merged(s, i', mid, j', hi) == m[k' - lo..]
    ensures a[..lo] == old(a[..lo]) && a[hi..] == old(a[hi..])
  {
    ReadRun(temp, s, lo, hi, i);
    ReadRun(temp, s, lo, hi, j);
    if temp[i] <= temp[j] {
      MergedTakeLeft(s, i, mid, j, hi);
      Emit(a, lo, k, hi, temp[i], m, Merged(s, i + 1, mid, j, hi));
      i', j', k' := i + 1, j, k + 1;
    } else {
      MergedTakeRight(s, i, mid, j, hi);
      Emit(a, lo, k, hi, temp[j], m, Merged(s, i, mid, j + 1, hi));
      i', j', k' := i, j + 1, k + 1;
    }
  }

  /** The second loop of `merge`: copies the rest of the left run. */
  method DrainLeft(temp: array<int>, a: array<int>, lo: int, mid: int, hi: int, ghost s: seq<int>,
                   ghost m: seq<int>, i0: int, j: int, k0: int) returns (i: int, k: int)
    requires a != temp && a.Length == temp.Length == |s|
    requires 0 <= lo <= i0 <= mid <= j <= hi <= a.Length && k0 == i0 + (j - mid)
    requires i0 == mid || j == hi
    requires temp[lo..hi] == s[lo..hi] && |m| == hi - lo
    requires a[lo..k0] == m[..k0 - lo] && Merged(s, i0, mid, j, hi) == m[k0 - lo..]
    modifies a
    ensures i == mid && k == i + (j - mid)
    ensures a[lo..k] == m[..k - lo] && Merged(s, i, mid, j, hi) == m[k - lo..]
    ensures a[..lo] == old(a[..lo]) && a[hi..] == old(a[hi..])
  {
    i, k := i0, k0;
    while i < mid
      invariant i0 <= i <= mid && k == i + (j - mid)
      invariant a[lo..k] == m[..k - lo] && Merged(s, i, mid, j, hi) == m[k - lo..]
      invariant a[..lo] == old(a[..lo]) && a[hi..] == old(a[hi..])
    {
      ReadRun(temp, s, lo, hi, i);
      MergedTakeLeft(s, i, mid, j, hi);
      Emit(a, lo, k, hi, temp[i], m, Merged(s, i + 1, mid, j, hi));
      i, k := i + 1, k + 1;
    }
  }

  /** The third loop of `merge`: copies the rest of the right run. */
  method DrainRight(temp: array<int>, a: array<int>, lo: int, mid: int, hi: int, ghost s: seq<int>,
                    ghost m: seq<int>, j0: int, k0: int)
    requires a != temp && a.Length == temp.Length == |s|
    requires 0 <= lo <= mid <= j0 <= hi <= a.Length && k0 == mid + (j0 - mid)
    requires temp[lo..hi] == s[lo..hi] && |m| == hi - lo
    requires a[lo..k0] == m[..k0 - lo] && Merged(s, mid, mid, j0, hi) == m[k0 - lo..]
    modifies a
    ensures a[lo..hi] == m
    ensures a[..lo] == old(a[..lo]) && a[hi..] == old(a[hi..])
  {
    var j, k := j0, k0;
    while j < hi
      invariant j0 <= j <= hi && k == j
      invariant a[lo..k] == m[..k - lo] && Merged(s, mid, mid, j, hi) == m[k - lo..]
      invariant a[..lo] == old(a[..lo]) && a[hi..] == old(a[hi..])
    {
      ReadRun(temp, s, lo, hi, j);
      MergedTakeRight(s, mid, mid, j, hi);
      Emit(a, lo, k, hi, temp[j], m, Merged(s, mid, mid, j + 1, hi));
      j, k := j + 1, k + 1;
    }
    assert m[..hi - lo] == m;
  }

  lemma MergedTakeLeft(s: seq<int>, i: int, mid: int, j: int, hi: int)
    requires 0 <= i < mid <= j <= hi <= |s| && (j == hi || s[i] <= s[j])
    ensures Merged(s, i, mid, j, hi) == [s[i]] + Merged(s, i + 1, mid, j, hi)
  {
  }

  lemma MergedTakeRight(s: seq<int>, i: int, mid: int, j: int, hi: int)
    requires 0 <= i <= mid <= j < hi <= |s| && (i == mid || s[j] < s[i])
    ensures Merged(s, i, mid, j, hi) == [s[j]] + Merged(s, i, mid, j + 1, hi)
  {
  }

  /** A cell of the copied range reads what `s` holds there. */
  lemma ReadRun(temp: array<int>, s: seq<int>, lo: int, hi: int, p: int)
    requires 0 <= lo <= p < hi <= temp.Length <= |s|
    requires temp[lo..hi] == s[lo..hi]
    ensures temp[p] == s[p]
  {
    assert temp[lo..hi][p - lo] == s[lo..hi][p - lo];
  }

  /** `array[k++] = v`, where `v` heads what remains of the merge `m`. */
  method Emit(a: array<int>, lo: int, k: int, hi: int, v: int, ghost m: seq<int>, ghost rest: seq<int>)
    requires 0 <= lo <= k < hi <= a.Length && |m| == hi - lo
    requires a[lo..k] == m[..k - lo] && [v] + rest == m[k - lo..]
    modifies a
    ensures a[lo..k + 1] == m[..k + 1 - lo] && rest == m[k + 1 - lo..]
    ensures a[..lo] == old(a[..lo]) && a[hi..] == old(a[hi..])
  {
    a[k] := v;
    assert m[k - lo] == m[k - lo..][0] == v;
    assert m[k + 1 - lo..] == m[k - lo..][1..];
    assert a[lo..k + 1] == old(a[lo..k]) + [v];
    assert m[..k + 1 - lo] == m[..k - lo] + [m[k - lo]];
    assert a[..lo] == old(a[..lo]);
    assert a[hi..] == old(a[hi..]);
  }

}
