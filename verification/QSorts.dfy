/**
 The quicksort of clibs/qsort.c: three-way partition in place, recursion on the smaller side only.
 Positions are element numbers; `compar` is any function.
 */
module QSorts {
  import opened Bits

  // ----- permutations of a stretch -----

  /** From `lo` up to `hi` the elements are permuted; the others stay. */
  ghost predicate Permuted<T>(s: seq<T>, s': seq<T>, lo: int, hi: int) {
    && 0 <= lo <= hi <= |s| == |s'|
    && multiset(s'[lo..hi]) == multiset(s[lo..hi])
    && s'[..lo] == s[..lo] && s'[hi..] == s[hi..]
  }

  lemma PermutedSelf<T>(s: seq<T>, lo: int, hi: int)
    requires 0 <= lo <= hi <= |s|
    ensures Permuted(s, s, lo, hi)
  {
  }

  lemma PermutedTrans<T>(s: seq<T>, t: seq<T>, u: seq<T>, lo: int, hi: int)
    requires Permuted(s, t, lo, hi) && Permuted(t, u, lo, hi)
    ensures Permuted(s, u, lo, hi)
  {
  }

  lemma PermutedWider<T>(s: seq<T>, t: seq<T>, lo: int, hi: int, lo': int, hi': int)
    requires Permuted(s, t, lo, hi) && 0 <= lo' <= lo && hi <= hi' <= |s|
    ensures Permuted(s, t, lo', hi')
  {
    Split3(s, lo', lo, hi, hi');
    Split3(t, lo', lo, hi, hi');
    assert t[lo'..lo] == t[..lo][lo'..] == s[lo'..lo];
    assert t[hi..hi'] == t[hi..][..hi' - hi] == s[hi..hi'];
    assert t[..lo'] == t[..lo][..lo'] == s[..lo'];
    assert t[hi'..] == t[hi..][hi' - hi..] == s[hi'..];
  }

  lemma Split3<T>(s: seq<T>, a: int, b: int, c: int, d: int)
    requires 0 <= a <= b <= c <= d <= |s|
    ensures multiset(s[a..d]) == multiset(s[a..b]) + multiset(s[b..c]) + multiset(s[c..d])
  {
    assert s[a..d] == s[a..b] + s[b..c] + s[c..d];
  }

  function Swapped<T>(s: seq<T>, i: int, j: int): seq<T>
    requires 0 <= i < |s| && 0 <= j < |s|
  {
    s[i := s[j]][j := s[i]]
  }

  lemma SwapPermutes<T>(s: seq<T>, i: int, j: int, lo: int, hi: int)
    requires 0 <= lo <= i < hi <= |s| && lo <= j < hi
    ensures Permuted(s, Swapped(s, i, j), lo, hi)
  {
    var t := Swapped(s, i, j);
    var u := s[lo..hi];
    assert t[lo..hi] == u[i - lo := u[j - lo]][j - lo := u[i - lo]];
    assert t[..lo] == s[..lo] && t[hi..] == s[hi..];
  }

  /** Whatever holds of all elements of a stretch still does when it is permuted. */
  lemma FromBefore<T>(s: seq<T>, t: seq<T>, lo: int, hi: int, k: int) returns (j: int)
    requires Permuted(s, t, lo, hi) && lo <= k < hi
    ensures lo <= j < hi && s[j] == t[k]
  {
    assert t[lo..hi][k - lo] in multiset(t[lo..hi]);
    assert t[k] in s[lo..hi];
    j :| lo <= j < hi && s[j] == t[k];
  }

  // ----- orders -----

  type Compar<!T> = (T, T) -> int

  ghost predicate Preorder<T(!new)>(compar: Compar<T>) {
    && (forall x, y :: compar(x, y) <= 0 <==> compar(y, x) >= 0)
    && (forall x, y, z :: compar(x, y) <= 0 && compar(y, z) <= 0 ==> compar(x, z) <= 0)
  }

  ghost predicate Sorted<T>(compar: Compar<T>, s: seq<T>, lo: int, hi: int) {
    forall i, j :: 0 <= lo <= i < j < hi <= |s| ==> compar(s[i], s[j]) <= 0
  }

  /** Between `lo` and `hi` every pair is in order, unless both lie between `first` and `last`. */
  ghost predicate DoneBut<T>(compar: Compar<T>, s: seq<T>, lo: int, first: int, last: int, hi: int) {
    forall i, j :: 0 <= lo <= i < j < hi <= |s| && !(first <= i && j <= last) ==> compar(s[i], s[j]) <= 0
  }

  /** What the partition makes: below the pivot, like it, above it. */
  ghost predicate Parted<T>(compar: Compar<T>, s: seq<T>, first: int, lt: int, gt: int, last: int) {
    && 0 <= first <= lt <= gt <= last < |s|
    && (forall k :: first <= k < lt ==> compar(s[k], s[lt]) < 0)
    && (forall k :: lt <= k <= gt ==> k == lt || compar(s[k], s[lt]) == 0)
    && (forall k :: gt < k <= last ==> compar(s[k], s[lt]) > 0)
  }

  lemma PermutedDone<T>(compar: Compar<T>, s: seq<T>, t: seq<T>, lo: int, first: int, last: int, hi: int)
    requires 0 <= lo <= first <= last + 1 <= hi <= |s| && Permuted(s, t, first, last + 1)
    requires DoneBut(compar, s, lo, first, last, hi)
    ensures DoneBut(compar, t, lo, first, last, hi)
  {
    forall i, j | lo <= i < j < hi && !(first <= i && j <= last)
      ensures compar(t[i], t[j]) <= 0
    {
      var i' := Origin(s, t, first, last + 1, i);
      var j' := Origin(s, t, first, last + 1, j);
    }
  }

  /** Where the element now at `k` was, in its own part. */
  lemma Origin<T>(s: seq<T>, t: seq<T>, lo: int, hi: int, k: int) returns (j: int)
    requires Permuted(s, t, lo, hi) && 0 <= k < |s|
    ensures 0 <= j < |s| && s[j] == t[k] && if lo <= k < hi then lo <= j < hi else j == k
  {
    j := k;
    if lo <= k < hi {
      j := FromBefore(s, t, lo, hi, k);
    } else if k < lo {
      assert t[k] == t[..lo][k] == s[..lo][k];
    } else {
      assert t[k] == t[hi..][k - hi] == s[hi..][k - hi];
    }
  }

  /** Sorting one side keeps the partition. */
  lemma PermutedParted<T>(compar: Compar<T>, s: seq<T>, t: seq<T>, lo: int, hi: int, first: int, lt: int, gt: int, last: int)
    requires Parted(compar, s, first, lt, gt, last) && Permuted(s, t, lo, hi)
    requires (lo == first && hi == lt) || (lo == gt + 1 && hi == last + 1)
    ensures Parted(compar, t, first, lt, gt, last)
  {
    var p := Origin(s, t, lo, hi, lt);
    forall k | first <= k <= last
      ensures k < lt ==> compar(t[k], t[lt]) < 0
      ensures lt < k <= gt ==> compar(t[k], t[lt]) == 0
      ensures gt < k ==> compar(t[k], t[lt]) > 0
    {
      var j := Origin(s, t, lo, hi, k);
    }
  }

  /** Parted, with one side sorted: what is not done is the other side. */
  lemma OtherSide<T(!new)>(compar: Compar<T>, s: seq<T>, lo: int, first: int, lt: int, gt: int, last: int, hi: int, left: bool)
    requires Preorder(compar) && 0 <= lo <= first && last < hi <= |s|
    requires Parted(compar, s, first, lt, gt, last) && DoneBut(compar, s, lo, first, last, hi)
    requires if left then Sorted(compar, s, first, lt) else Sorted(compar, s, gt + 1, last + 1)
    ensures if left then DoneBut(compar, s, lo, gt + 1, last, hi) else DoneBut(compar, s, lo, first, lt - 1, hi)
  {
    forall i, j | first <= i < j <= last
      ensures (i < lt <= j) || (lt <= i <= gt) || (i <= gt < j) ==> compar(s[i], s[j]) <= 0
    {
      assert compar(s[i], s[lt]) <= 0 || i > gt;
      assert compar(s[lt], s[j]) <= 0 || j < lt;
    }
  }

  /** Where the loop of QSort3 is: only the stretch from `first` to `last` still needs sorting. */
  ghost predicate Progress<T(!new)>(compar: Compar<T>, s0: seq<T>, s: seq<T>, from: int, first: int, last: int, til: int) {
    && 0 <= from <= first <= last + 1 <= til + 1 <= |s|
    && Permuted(s0, s, from, til + 1)
    && (Preorder(compar) ==> DoneBut(compar, s, from, first, last, til + 1))
  }

  /** The stretch is permuted. */
  lemma Rearranged<T(!new)>(compar: Compar<T>, s0: seq<T>, s: seq<T>, t: seq<T>, from: int, first: int, last: int, til: int)
    requires Progress(compar, s0, s, from, first, last, til) && Permuted(s, t, first, last + 1)
    ensures Progress(compar, s0, t, from, first, last, til)
  {
    PermutedWider(s, t, first, last + 1, from, til + 1);
    PermutedTrans(s0, s, t, from, til + 1);
    if Preorder(compar) {
      PermutedDone(compar, s, t, from, first, last, til + 1);
    }
  }

  lemma Start<T(!new)>(compar: Compar<T>, s: seq<T>, from: int, til: int)
    requires 0 <= from <= til < |s|
    ensures Progress(compar, s, s, from, from, til, til)
  {
  }

  /** ... and sorted: nothing is left to do. */
  lemma Finished<T(!new)>(compar: Compar<T>, s0: seq<T>, s: seq<T>, from: int, first: int, last: int, til: int)
    requires Progress(compar, s0, s, from, first, last, til)
    requires Preorder(compar) ==> Sorted(compar, s, first, last + 1)
    ensures Permuted(s0, s, from, til + 1)
    ensures Preorder(compar) ==> Sorted(compar, s, from, til + 1)
  {
  }

  /** One side of a partition is sorted: the other side is left. */
  lemma OneSide<T(!new)>(compar: Compar<T>, s0: seq<T>, s: seq<T>, t: seq<T>, u: seq<T>, from: int, first: int, lt: int, gt: int, last: int, til: int, left: bool)
    requires Progress(compar, s0, s, from, first, last, til) && Permuted(s, t, first, last + 1) && Parted(compar, t, first, lt, gt, last)
    requires if left then Permuted(t, u, first, lt) else Permuted(t, u, gt + 1, last + 1)
    requires Preorder(compar) ==> if left then Sorted(compar, u, first, lt) else Sorted(compar, u, gt + 1, last + 1)
    ensures if left then Progress(compar, s0, u, from, gt + 1, last, til) else Progress(compar, s0, u, from, first, lt - 1, til)
  {
    var lo, hi := if left then first else gt + 1, if left then lt else last + 1;
    Rearranged(compar, s0, s, t, from, first, last, til);
    PermutedWider(t, u, lo, hi, first, last + 1);
    Rearranged(compar, s0, t, u, from, first, last, til);
    PermutedParted(compar, t, u, lo, hi, first, lt, gt, last);
    if Preorder(compar) {
      OtherSide(compar, u, from, first, lt, gt, last, til + 1, left);
    }
  }

  /** The inner loop of the partition: the pivot is at `first`, elements from `i` to `gt` are still to be looked at. */
  ghost predicate Parting<T>(compar: Compar<T>, s: seq<T>, first: int, lt: int, i: int, gt: int, last: int) {
    && 0 <= first <= lt < i <= gt + 1 <= last + 1 <= |s|
    && (forall k :: first < k <= lt ==> compar(s[k], s[first]) < 0)
    && (forall k :: lt < k < i ==> compar(s[k], s[first]) == 0)
    && (forall k :: gt < k <= last ==> compar(s[k], s[first]) > 0)
  }

  lemma PartingStart<T>(compar: Compar<T>, s: seq<T>, first: int, last: int)
    requires 0 <= first < last < |s|
    ensures Parting(compar, s, first, first, first + 1, last, last)
  {
  }

  /** One turn of that loop. */
  ghost predicate Turn<T>(compar: Compar<T>, s: seq<T>, t: seq<T>, first: int, lt: int, i: int, gt: int, lt': int, i': int, gt': int)
    requires 0 <= first <= lt < i <= gt < |s|
  {
    var cmp := compar(s[i], s[first]);
    if cmp < 0 then t == Swapped(s, i, lt + 1) && lt' == lt + 1 && i' == i + 1 && gt' == gt
    else if cmp > 0 then t == Swapped(s, i, gt) && lt' == lt && i' == i && gt' == gt - 1
    else t == s && lt' == lt && i' == i + 1 && gt' == gt
  }

  lemma PartingNext<T>(compar: Compar<T>, s: seq<T>, t: seq<T>, first: int, lt: int, i: int, gt: int, lt': int, i': int, gt': int, last: int)
    requires Parting(compar, s, first, lt, i, gt, last) && i <= gt && Turn(compar, s, t, first, lt, i, gt, lt', i', gt')
    ensures Parting(compar, t, first, lt', i', gt', last)
  {
  }

  lemma TurnPermutes<T>(compar: Compar<T>, s: seq<T>, t: seq<T>, first: int, lt: int, i: int, gt: int, lt': int, i': int, gt': int, last: int)
    requires 0 <= first <= lt < i <= gt <= last < |s| && Turn(compar, s, t, first, lt, i, gt, lt', i', gt')
    ensures Permuted(s, t, first, last + 1)
  {
    if compar(s[i], s[first]) < 0 {
      SwapPermutes(s, i, lt + 1, first, last + 1);
    } else if compar(s[i], s[first]) > 0 {
      SwapPermutes(s, i, gt, first, last + 1);
    }
  }

  lemma PartingDone<T>(compar: Compar<T>, s: seq<T>, t: seq<T>, first: int, lt: int, i: int, gt: int, last: int)
    requires Parting(compar, s, first, lt, i, gt, last) && i > gt && t == Swapped(s, first, lt)
    ensures Parted(compar, t, first, lt, gt, last)
  {
  }

  /** `t` is `s` with its elements `i` and `i + 1` put in order. */
  ghost predicate Exchanged<T>(compar: Compar<T>, s: seq<T>, t: seq<T>, i: int) {
    0 <= i && i + 1 < |s| && t == if compar(s[i], s[i + 1]) > 0 then Swapped(s, i, i + 1) else s
  }

  lemma TwoSorted<T(!new)>(compar: Compar<T>, s: seq<T>, t: seq<T>, i: int, lo: int, hi: int)
    requires Exchanged(compar, s, t, i) && 0 <= lo <= i && i + 2 <= hi <= |s|
    ensures Permuted(s, t, lo, hi)
    ensures Preorder(compar) ==> compar(t[i], t[i + 1]) <= 0 && Sorted(compar, t, i, i + 2)
  {
    SwapPermutes(s, i, i + 1, lo, hi);
    PermutedSelf(s, lo, hi);
  }

  lemma ThreeSorted<T(!new)>(compar: Compar<T>, s: seq<T>, t: seq<T>, u: seq<T>, v: seq<T>, i: int)
    requires i + 2 < |s| && Exchanged(compar, s, t, i) && Exchanged(compar, t, u, i + 1) && Exchanged(compar, u, v, i)
    ensures Permuted(s, v, i, i + 3)
    ensures Preorder(compar) ==> Sorted(compar, v, i, i + 3)
  {
    hide Permuted;
    TwoSorted(compar, s, t, i, i, i + 3);
    TwoSorted(compar, t, u, i + 1, i, i + 3);
    TwoSorted(compar, u, v, i, i, i + 3);
    PermutedTrans(s, t, u, i, i + 3);
    PermutedTrans(s, u, v, i, i + 3);
    if Preorder(compar) {
      assert compar(u[i], u[i + 2]) <= 0;
    }
  }

  lemma OneLeft<T(!new)>(compar: Compar<T>, s: seq<T>, first: int, last: int)
    requires last <= first
    ensures Sorted(compar, s, first, last + 1)
  {
  }

  // ----- the algorithm -----

  method MemSwap<T>(a: array<T>, i: int, j: int)
    requires 0 <= i < a.Length && 0 <= j < a.Length
    modifies a
    ensures a[..] == Swapped(old(a[..]), i, j)
  {
    a[i], a[j] := a[j], a[i];
  }

  function MiddlePivot(first: int, last: int): (p: int)
    requires 0 <= first <= last
    ensures first <= p && (first + 3 <= last ==> p <= last)
  {
    first + (last - first + 1) / 2
  }

  /** Three-way partition of at least four elements around the middle one. */
  method Partition<T(!new)>(a: array<T>, compar: Compar<T>, first: int, last: int) returns (lt: int, gt: int)
    requires 0 <= first && first + 3 <= last < a.Length
    modifies a
    ensures first <= lt <= gt <= last && Permuted(old(a[..]), a[..], first, last + 1)
    ensures Parted(compar, a[..], first, lt, gt, last)
  {
    hide Permuted, Parted, Parting;
    ghost var s0 := a[..];
    PermutedSelf(s0, first, last + 1);
    var pivot := MiddlePivot(first, last);
    if pivot != first {
      SwapPermutes(s0, first, pivot, first, last + 1);
      MemSwap(a, first, pivot);
      pivot := first;
    }
    PartingStart(compar, a[..], first, last);
    var i;
    lt, i, gt := PartRest(a, compar, pivot, last, s0);
    PivotPut(compar, s0, a[..], first, lt, i, gt, last);
    if lt != first {
      MemSwap(a, first, lt);
    }
  }

  method PartRest<T(!new)>(a: array<T>, compar: Compar<T>, pivot: int, last: int, ghost s0: seq<T>)
    returns (lt: int, i: int, gt: int)
    requires 0 <= pivot < last < a.Length && Permuted(s0, a[..], pivot, last + 1)
    requires Parting(compar, a[..], pivot, pivot, pivot + 1, last, last)
    modifies a
    ensures pivot <= lt <= gt <= last && i > gt
    ensures Permuted(s0, a[..], pivot, last + 1) && Parting(compar, a[..], pivot, lt, i, gt, last)
  {
    hide Permuted, Parting, Turn;
    lt, i, gt := pivot, pivot + 1, last;
    while i <= gt
      invariant pivot <= lt < i <= gt + 1 <= last + 1
      invariant Permuted(s0, a[..], pivot, last + 1)
      invariant Parting(compar, a[..], pivot, lt, i, gt, last)
      decreases gt + 1 - i
    {
      ghost var s, lt0, i0, gt0 := a[..], lt, i, gt;
      lt, i, gt := PartOne(a, compar, pivot, lt, i, gt);
      PartingNext(compar, s, a[..], pivot, lt0, i0, gt0, lt, i, gt, last);
      TurnPermutes(compar, s, a[..], pivot, lt0, i0, gt0, lt, i, gt, last);
      PermutedTrans(s0, s, a[..], pivot, last + 1);
    }
  }

  /** One turn of the partition: look at element `i`. */
  method PartOne<T(!new)>(a: array<T>, compar: Compar<T>, pivot: int, lt: int, i: int, gt: int)
    returns (lt': int, i': int, gt': int)
    requires 0 <= pivot <= lt < i <= gt < a.Length
    modifies a
    ensures Turn(compar, old(a[..]), a[..], pivot, lt, i, gt, lt', i', gt')
    ensures lt <= lt' < i' <= gt' + 1 && gt' <= gt && gt' - i' == gt - i - 1
  {
    lt', i', gt' := lt, i, gt;
    var cmp := compar(a[i], a[pivot]);
    if cmp < 0 {
      lt' := lt + 1;
      MemSwap(a, i, lt');
      i' := i + 1;
    } else if cmp > 0 {
      MemSwap(a, i, gt);
      gt' := gt - 1;
    } else {
      i' := i + 1;
    }
  }

  /** The pivot goes between those below and those like it. */
  lemma PivotPut<T>(compar: Compar<T>, s0: seq<T>, s: seq<T>, first: int, lt: int, i: int, gt: int, last: int)
    requires Parting(compar, s, first, lt, i, gt, last) && i > gt && Permuted(s0, s, first, last + 1)
    ensures first <= lt <= gt <= last && Permuted(s0, Swapped(s, first, lt), first, last + 1)
    ensures Parted(compar, Swapped(s, first, lt), first, lt, gt, last)
    ensures lt == first ==> Swapped(s, first, lt) == s
  {
    SwapPermutes(s, first, lt, first, last + 1);
    PermutedTrans(s0, s, Swapped(s, first, lt), first, last + 1);
    PartingDone(compar, s, Swapped(s, first, lt), first, lt, i, gt, last);
  }

  /** Two or three elements. */
  method SortFew<T(!new)>(a: array<T>, compar: Compar<T>, first: int, last: int)
    requires 0 <= first && last < a.Length && (first + 1 == last || first + 2 == last)
    modifies a
    ensures Permuted(old(a[..]), a[..], first, last + 1)
    ensures Preorder(compar) ==> Sorted(compar, a[..], first, last + 1)
  {
    hide Permuted, Preorder, Sorted;
    ghost var s0 := a[..];
    if last - first == 1 {
      if compar(a[first], a[last]) > 0 {
        MemSwap(a, first, last);
      }
      TwoSorted(compar, s0, a[..], first, first, last + 1);
      return;
    }
    var b := first + 1;
    var c := b + 1;
    if compar(a[first], a[b]) > 0 {
      MemSwap(a, first, b);
    }
    ghost var s1 := a[..];
    if compar(a[b], a[c]) > 0 {
      MemSwap(a, b, c);
    }
    ghost var s2 := a[..];
    if compar(a[first], a[b]) > 0 {
      MemSwap(a, first, b);
    }
    ThreeSorted(compar, s0, s1, s2, a[..], first);
  }

  /**
   Sort the elements from `from` to `to`.  `depth` is how deep the recursion went: at most the
   binary logarithm of the number of elements, for any `compar` and any array.
   */
  method QSort3<T(!new)>(a: array<T>, compar: Compar<T>, from: int, til: int) returns (ghost depth: nat)
    requires 0 <= from <= til < a.Length
    modifies a
    ensures Permuted(old(a[..]), a[..], from, til + 1)
    ensures Preorder(compar) ==> Sorted(compar, a[..], from, til + 1)
    ensures Pow2(depth) <= til - from + 1
    decreases til - from, 3
  {
    hide Permuted, Sorted, Preorder, DoneBut, Parted, Progress;
    depth := 0;
    var first, last := from, til;
    ghost var s0 := a[..];
    Start(compar, s0, from, til);
    while last - first >= 1
      invariant from <= first <= last + 1 <= til + 1 && Pow2(depth) <= til - from + 1
      invariant Progress(compar, s0, a[..], from, first, last, til)
      decreases last - first
    {
      if last - first == 1 || last - first == 2 {
        ghost var s := a[..];
        SortFew(a, compar, first, last);
        Rearranged(compar, s0, s, a[..], from, first, last, til);
        break;
      }
      first, last, depth := Round(a, compar, first, last, from, til, s0, depth);
    }
    if last <= first {
      OneLeft(compar, a[..], first, last);
    }
    Finished(compar, s0, a[..], from, first, last, til);
  }

  /** Partition, sort the smaller side, and go on with the other; an empty range if that has at most one element. */
  method Round<T(!new)>(a: array<T>, compar: Compar<T>, first: int, last: int, ghost from: int, ghost til: int, ghost s0: seq<T>, ghost depth: nat)
    returns (first': int, last': int, ghost depth': nat)
    requires 0 <= from <= first && first + 3 <= last <= til < a.Length && Pow2(depth) <= til - from + 1
    requires Progress(compar, s0, a[..], from, first, last, til)
    modifies a
    ensures from <= first' <= last' + 1 && last' <= til && last' - first' < last - first && Pow2(depth') <= til - from + 1
    ensures Progress(compar, s0, a[..], from, first', last', til)
    decreases last - first, 2
  {
    hide Permuted, Sorted, Preorder, DoneBut, Parted, Progress;
    depth' := depth;
    ghost var s := a[..];
    var lt, gt := Partition(a, compar, first, last);
    ghost var t := a[..];
    if lt - first < last - gt {
      depth' := SmallerSide(a, compar, first, lt - 1, lt - 1 >= first, til - from + 1, depth);
      OneSide(compar, s0, s, t, a[..], from, first, lt, gt, last, til, true);
      first', last' := gt + 1, last;
    } else {
      depth' := SmallerSide(a, compar, gt + 1, last, gt + 1 < last, til - from + 1, depth);
      OneSide(compar, s0, s, t, a[..], from, first, lt, gt, last, til, false);
      first', last' := first, lt - 1;
    }
  }

  /** The recursive call, on at most half of `n` elements, if there are enough of them. */
  method SmallerSide<T(!new)>(a: array<T>, compar: Compar<T>, lo: int, hi: int, enough: bool, ghost n: nat, ghost depth: nat)
    returns (ghost deeper: nat)
    requires 0 <= lo <= hi + 1 <= a.Length && 2 * (hi - lo + 1) <= n && Pow2(depth) <= n
    requires if enough then lo <= hi else hi <= lo
    modifies a
    ensures Permuted(old(a[..]), a[..], lo, hi + 1)
    ensures Preorder(compar) ==> Sorted(compar, a[..], lo, hi + 1)
    ensures Pow2(deeper) <= n
    decreases hi - lo, 4
  {
    deeper := depth;
    if enough {
      ghost var d := QSort3(a, compar, lo, hi);
      assert Pow2(d + 1) == 2 * Pow2(d);
      deeper := if depth < d + 1 then d + 1 else depth;
    }
  }

  method QSort<T(!new)>(a: array<T>, compar: Compar<T>)
    modifies a
    ensures multiset(a[..]) == multiset(old(a[..]))
    ensures Preorder(compar) ==> Sorted(compar, a[..], 0, a.Length)
  {
    var nmemb := a.Length;
    if nmemb < 2 {
      return;
    }
    ghost var s0 := a[..];
    ghost var depth := QSort3(a, compar, 0, nmemb - 1);
    assert s0[0..nmemb] == s0 && a[..][0..nmemb] == a[..];
  }
}
