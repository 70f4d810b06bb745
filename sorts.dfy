/** The four sort drivers. They reach the data only through
    PagedArray.Access (operator[]), a read or a write of the page buffer cell
    it designates, and PagedArray.MarkPageDirty, exactly in the order of the
    C++ statements; their contracts are stated over the logical array
    PagedArray.contents. */
module Sorts {
  import opened CacheModel
  import opened PagedArrays

  /** s is non-decreasing on the positions lo..hi. */
  ghost predicate SortedBetween(s: seq<int>, lo: int, hi: int)
  {
    forall k, l :: 0 <= lo <= k <= l <= hi < |s| ==> s[k] <= s[l]
  }

  /** a is b with the elements at positions lo..hi rearranged and every other
      position untouched. */
  ghost predicate PermutedWithin(a: seq<int>, b: seq<int>, lo: int, hi: int)
  {
    |a| == |b| && multiset(a) == multiset(b) &&
    forall k :: 0 <= k < |a| && (k < lo || hi < k) ==> a[k] == b[k]
  }

  /** Exchanging two positions rearranges a sequence. */
  lemma {:induction false} SwapPermutes(s: seq<int>, i: int, j: int)
    requires 0 <= i < |s| && 0 <= j < |s|
    ensures multiset(s[i := s[j]][j := s[i]]) == multiset(s)
  {
    if i != j {
      var t := s[i := s[j]];
      assert multiset(t) == multiset(s) - multiset{s[i]} + multiset{s[j]};
      assert multiset(t[j := s[i]]) == multiset(t) - multiset{t[j]} + multiset{s[i]};
    }
  }

  /** A sequence's multiset is the sum of those of its three parts around
      lo..hi. */
  lemma MultisetInThree(s: seq<int>, lo: int, hi: int)
    requires 0 <= lo <= hi + 1 <= |s|
    ensures multiset(s) == multiset(s[..lo]) + multiset(s[lo..hi + 1]) + multiset(s[hi + 1..])
  {
    assert s == s[..lo] + s[lo..hi + 1] + s[hi + 1..];
  }

  /** Rearranging within lo..hi keeps the multiset of that range. */
  lemma {:induction false} PermutedRange(a: seq<int>, b: seq<int>, lo: int, hi: int)
    requires PermutedWithin(a, b, lo, hi) && 0 <= lo <= hi + 1 <= |a|
    ensures multiset(a[lo..hi + 1]) == multiset(b[lo..hi + 1])
  {
    MultisetInThree(a, lo, hi);
    MultisetInThree(b, lo, hi);
    assert a[..lo] == b[..lo];
    assert a[hi + 1..] == b[hi + 1..];
    var left, right := multiset(a[..lo]), multiset(a[hi + 1..]);
    var x, y := multiset(a[lo..hi + 1]), multiset(b[lo..hi + 1]);
    forall e
      ensures x[e] == y[e]
    {
      assert (left + x + right)[e] == (left + y + right)[e];
    }
  }

  /** A bound that every element of lo..hi obeys survives rearranging the
      range: below x before means below x after, likewise at least x. */
  lemma {:induction false} PermutedKeepsBounds(a: seq<int>, b: seq<int>, lo: int, hi: int, x: int)
    requires PermutedWithin(a, b, lo, hi) && 0 <= lo <= hi + 1 <= |a|
    ensures (forall k :: lo <= k <= hi ==> b[k] < x) ==> forall k :: lo <= k <= hi ==> a[k] < x
    ensures (forall k :: lo <= k <= hi ==> b[k] >= x) ==> forall k :: lo <= k <= hi ==> a[k] >= x
    ensures (forall k :: lo <= k <= hi ==> b[k] <= x) ==> forall k :: lo <= k <= hi ==> a[k] <= x
  {
    PermutedRange(a, b, lo, hi);
    forall k | lo <= k <= hi
      ensures exists m :: lo <= m <= hi && b[m] == a[k]
    {
      var range := b[lo..hi + 1];
      assert a[lo..hi + 1][k - lo] == a[k];
      assert a[k] in multiset(range);
      var m :| 0 <= m < |range| && range[m] == a[k];
      assert b[lo + m] == a[k];
    }
  }

  /** Dropping the first element keeps a sequence sorted. */
  lemma TailSorted(s: seq<int>)
    requires |s| > 0 && SortedBetween(s, 0, |s| - 1)
    ensures SortedBetween(s[1..], 0, |s| - 2)
  {
    forall k, l | 0 <= k <= l <= |s| - 2
      ensures s[1..][k] <= s[1..][l]
    {
      assert s[1..][k] == s[k + 1] && s[1..][l] == s[l + 1];
    }
  }

  /** The first element of a sorted sequence is its least element. */
  lemma SortedHeadIsLeast(s: seq<int>)
    requires |s| > 0 && SortedBetween(s, 0, |s| - 1)
    ensures forall x :: x in multiset(s) ==> s[0] <= x
  {
    forall x | x in multiset(s)
      ensures s[0] <= x
    {
      var i :| 0 <= i < |s| && s[i] == x;
    }
  }

  /** Dropping the head of a sequence removes one copy of it from its
      multiset. */
  lemma DropHead(s: seq<int>)
    requires |s| > 0
    ensures multiset(s[1..]) == multiset(s) - multiset{s[0]}
  {
    assert s == [s[0]] + s[1..];
  }

  /** Two sorted sequences with the same elements start alike. */
  lemma SortedHeadsAgree(a: seq<int>, b: seq<int>)
    requires |a| > 0 && |b| > 0
    requires SortedBetween(a, 0, |a| - 1) && SortedBetween(b, 0, |b| - 1)
    requires multiset(a) == multiset(b)
    ensures a[0] == b[0]
  {
    SortedHeadIsLeast(a);
    SortedHeadIsLeast(b);
    assert a[0] in multiset(a) && b[0] in multiset(b);
  }

  /** Two sorted rearrangements of the same elements are the same sequence. */
  lemma {:induction false} SortedPermutationUnique(a: seq<int>, b: seq<int>)
    requires SortedBetween(a, 0, |a| - 1) && SortedBetween(b, 0, |b| - 1)
    requires multiset(a) == multiset(b)
    ensures a == b
  {
    assert |a| == |multiset(a)| == |multiset(b)| == |b|;
    if |a| > 0 {
      SortedHeadsAgree(a, b);
      DropHead(a);
      DropHead(b);
      TailSorted(a);
      TailSorted(b);
      SortedPermutationUnique(a[1..], b[1..]);
      forall k | 0 <= k < |a|
        ensures a[k] == b[k]
      {
        if k > 0 {
          assert a[k] == a[1..][k - 1] && b[k] == b[1..][k - 1];
        }
      }
    }
  }

  /** Every driver that leaves 0..n-1 sorted and rearranged produces the same
      logical array; in particular an already sorted range stays as it is. */
  lemma {:induction false} SortOutcomeUnique(a: seq<int>, b: seq<int>, v: seq<int>, n: int)
    requires 0 <= n <= |v|
    requires PermutedWithin(a, v, 0, n - 1) && SortedBetween(a, 0, n - 1)
    requires PermutedWithin(b, v, 0, n - 1) && SortedBetween(b, 0, n - 1)
    ensures a == b
  {
    PermutedRange(a, v, 0, n - 1);
    PermutedRange(b, v, 0, n - 1);
    SortedPermutationUnique(a[..n], b[..n]);
    assert a == a[..n] + a[n..] && b == b[..n] + b[n..];
    assert a[n..] == b[n..];
  }

  /** `arr[i]` read as a value on a coherent cache: the logical element,
      with the logical array unchanged and the cache still coherent. */
  method ReadAt(arr: PagedArray, i: int) returns (x: int)
    requires arr.Valid() && arr.Coherent() && 0 <= i < |arr.disk|
    modifies arr, arr.pages
    ensures arr.Valid() && arr.Coherent() && arr.accessCounter > old(arr.accessCounter)
    ensures arr.contents == old(arr.contents) && x == arr.contents[i]
  {
    x := arr.ReadElement(i);
  }

  /** Takes the references `arr[first]` then `arr[second]`: both designate
      their elements, because the slot touched first is not the victim of the
      second access once the counter is past 0, and is hit again when both
      elements share a page. */
  method TwoRefs(arr: PagedArray, first: int, second: int) returns (s1: int, o1: int, s2: int, o2: int)
    requires arr.Valid() && arr.Coherent()
    requires arr.accessCounter >= 1 || first / PAGE_SIZE == second / PAGE_SIZE
    requires 0 <= first < |arr.disk| && 0 <= second < |arr.disk|
    modifies arr, arr.pages
    ensures arr.Valid() && arr.Coherent() && arr.accessCounter > old(arr.accessCounter)
    ensures arr.contents == old(arr.contents)
    ensures 0 <= s1 < SLOTS && 0 <= o1 < PAGE_SIZE && 0 <= s2 < SLOTS && 0 <= o2 < PAGE_SIZE
    ensures SlotFor(arr.loadedPages, first / PAGE_SIZE) == s1 && o1 == first % PAGE_SIZE
    ensures SlotFor(arr.loadedPages, second / PAGE_SIZE) == s2 && o2 == second % PAGE_SIZE
    ensures arr.pages[s1, o1] == arr.contents[first] && arr.pages[s2, o2] == arr.contents[second]
  {
    s1, o1 := arr.Access(first);
    ghost var ts, c, l := arr.lastAccessed, arr.accessCounter, arr.loadedPages;
    if SlotFor(l, second / PAGE_SIZE) == EMPTY {
      MostRecentNotVictim(ts, c, s1);
    }
    s2, o2 := arr.Access(second);
    SlotForExact(arr.loadedPages, first / PAGE_SIZE, s1);
    SlotForExact(arr.loadedPages, second / PAGE_SIZE, s2);
    assert arr.contents[first] == CellOf(arr.disk, arr.loadedPages, arr.Rows(), first);
    assert arr.contents[second] == CellOf(arr.disk, arr.loadedPages, arr.Rows(), second);
  }

  /** Writes x into buffer cell (s, o), which designates logical element i:
      the logical array changes at i only; the slot is not yet marked. */
  method WriteThrough(arr: PagedArray, s: int, o: int, i: int, x: int)
    requires arr.Valid() && 0 <= i < |arr.disk|
    requires SlotFor(arr.loadedPages, i / PAGE_SIZE) == s != EMPTY && o == i % PAGE_SIZE
    modifies arr`contents, arr.pages
    ensures arr.Valid() && arr.contents == old(arr.contents)[i := x]
    ensures arr.Rows() == old(arr.Rows())[s := old(arr.Rows())[s][o := x]]
  {
    ghost var r := arr.Rows();
    PresentsIsView(arr.contents, arr.disk, arr.loadedPages, r);
    WriteCell(arr.disk, arr.loadedPages, r, i, x);
    arr.pages[s, o] := x;
    arr.RowsAre(r[s := r[s][o := x]]);
    arr.contents := arr.contents[i := x];
    PresentsIsView(arr.contents, arr.disk, arr.loadedPages, arr.Rows());
  }

  /** `std::swap(arr[i], arr[j]); arr.markPageDirty(i); arr.markPageDirty(j);`
      exchanges two logical elements and leaves the cache coherent. */
  method SwapAt(arr: PagedArray, i: int, j: int)
    requires arr.Valid() && arr.Coherent() && arr.accessCounter >= 1
    requires 0 <= i < |arr.disk| && 0 <= j < |arr.disk|
    modifies arr, arr.pages
    ensures arr.Valid() && arr.Coherent() && arr.accessCounter > old(arr.accessCounter)
    ensures arr.contents == old(arr.contents)[i := old(arr.contents)[j]][j := old(arr.contents)[i]]
  {
    var si, oi, sj, oj := TwoRefs(arr, i, j);
    SwapThrough(arr, si, oi, i, sj, oj, j);
    arr.MarkPageDirty(i);
    arr.MarkPageDirty(j);
  }

  /** `std::swap` on the references (si, oi) to element i and (sj, oj) to
      element j: the two logical elements are exchanged, and the cache is
      coherent again once both slots are marked dirty. */
  method SwapThrough(arr: PagedArray, si: int, oi: int, i: int, sj: int, oj: int, j: int)
    requires arr.Valid() && arr.Coherent() && 0 <= i < |arr.disk| && 0 <= j < |arr.disk|
    requires SlotFor(arr.loadedPages, i / PAGE_SIZE) == si != EMPTY && oi == i % PAGE_SIZE
    requires SlotFor(arr.loadedPages, j / PAGE_SIZE) == sj != EMPTY && oj == j % PAGE_SIZE
    modifies arr`contents, arr.pages
    ensures arr.Valid()
    ensures arr.contents == old(arr.contents)[i := old(arr.contents)[j]][j := old(arr.contents)[i]]
    ensures CoherentOf(arr.disk, arr.loadedPages, arr.dirtyPages[si := true][sj := true], arr.Rows())
  {
    ghost var c, d, l, dp, r := arr.contents, arr.disk, arr.loadedPages, arr.dirtyPages, arr.Rows();
    assert arr.pages[si, oi] == c[i] && arr.pages[sj, oj] == c[j] by {
      assert c[i] == CellOf(d, l, r, i) && c[j] == CellOf(d, l, r, j);
    }
    var t := arr.pages[si, oi];
    ghost var u := arr.pages[sj, oj];
    WriteThrough(arr, si, oi, i, arr.pages[sj, oj]);
    MarkedSlotMayDiffer(d, l, dp, r, si, oi, u);
    ghost var r1 := r[si := r[si][oi := u]];
    WriteThrough(arr, sj, oj, j, t);
    MarkedSlotMayDiffer(d, l, dp[si := true], r1, sj, oj, t);
  }

  /** `arr[dst] = arr[src]; arr.markPageDirty(dst);` copies one logical
      element over another and leaves the cache coherent. */
  method CopyAt(arr: PagedArray, src: int, dst: int)
    requires arr.Valid() && arr.Coherent() && arr.accessCounter >= 1
    requires 0 <= src < |arr.disk| && 0 <= dst < |arr.disk|
    modifies arr, arr.pages
    ensures arr.Valid() && arr.Coherent() && arr.accessCounter > old(arr.accessCounter)
    ensures arr.contents == old(arr.contents)[dst := old(arr.contents)[src]]
  {
    var ss, os, sd, od := TwoRefs(arr, src, dst);
    ghost var d, l, dp, r := arr.disk, arr.loadedPages, arr.dirtyPages, arr.Rows();
    ghost var x := arr.pages[ss, os];
    WriteThrough(arr, sd, od, dst, arr.pages[ss, os]);
    MarkedSlotMayDiffer(d, l, dp, r, sd, od, x);
    arr.MarkPageDirty(dst);
  }

  /** `arr[dst] = x; arr.markPageDirty(dst);` stores a value into one
      logical element and leaves the cache coherent. */
  method PutAt(arr: PagedArray, dst: int, x: int)
    requires arr.Valid() && arr.Coherent() && 0 <= dst < |arr.disk|
    modifies arr, arr.pages
    ensures arr.Valid() && arr.Coherent() && arr.accessCounter > old(arr.accessCounter)
    ensures arr.contents == old(arr.contents)[dst := x]
  {
    var s, o := arr.Access(dst);
    SlotForExact(arr.loadedPages, dst / PAGE_SIZE, s);
    ghost var d, l, dp, r := arr.disk, arr.loadedPages, arr.dirtyPages, arr.Rows();
    WriteThrough(arr, s, o, dst, x);
    MarkedSlotMayDiffer(d, l, dp, r, s, o, x);
    arr.MarkPageDirty(dst);
  }


  /** `arr[a] ... arr[b]` in one expression: both references are taken, then
      both elements are read through them. */
  method ReadPair(arr: PagedArray, a: int, b: int) returns (x: int, y: int)
    requires arr.Valid() && arr.Coherent() && 0 <= a < |arr.disk| && 0 <= b < |arr.disk|
    requires arr.accessCounter >= 1 || a / PAGE_SIZE == b / PAGE_SIZE
    modifies arr, arr.pages
    ensures arr.Valid() && arr.Coherent() && arr.accessCounter > old(arr.accessCounter)
    ensures arr.contents == old(arr.contents) && x == arr.contents[a] && y == arr.contents[b]
  {
    var sa, oa, sb, ob := TwoRefs(arr, a, b);
    x := arr.pages[sa, oa];
    y := arr.pages[sb, ob];
  }

  /** A rearrangement within lo2..hi2 of a rearrangement within the wider
      lo..hi is a rearrangement within lo..hi. */
  lemma PermutedTrans(a: seq<int>, b: seq<int>, c: seq<int>, lo: int, hi: int, lo2: int, hi2: int)
    requires PermutedWithin(a, b, lo2, hi2) && PermutedWithin(b, c, lo, hi)
    requires lo <= lo2 && hi2 <= hi
    ensures PermutedWithin(a, c, lo, hi)
  {
  }

  /** Exchanging two positions of lo..hi keeps a rearrangement within lo..hi. */
  lemma SwapKeepsPermuted(a: seq<int>, b: seq<int>, lo: int, hi: int, i: int, j: int)
    requires PermutedWithin(a, b, lo, hi) && lo <= i <= hi && lo <= j <= hi && 0 <= lo && hi < |a|
    ensures PermutedWithin(a[i := a[j]][j := a[i]], b, lo, hi)
  {
    SwapPermutes(a, i, j);
  }

  /** Moving v[j] up into the hole at j + 1 moves the hole, where key belongs,
      down to j. */
  lemma ShiftKeepsPermuted(v: seq<int>, key: int, v0: seq<int>, lo: int, hi: int, j: int)
    requires 0 <= lo <= j && j + 1 <= hi < |v| && PermutedWithin(v[j + 1 := key], v0, lo, hi)
    ensures PermutedWithin(v[j + 1 := v[j]][j := key], v0, lo, hi)
  {
    var w := v[j + 1 := key];
    SwapKeepsPermuted(w, v0, lo, hi, j, j + 1);
    assert w[j := w[j + 1]][j + 1 := w[j]] == v[j + 1 := v[j]][j := key];
  }

  /** The state of partition's loop: v rearranges low..high-1 of v0, and
      of low..j-1 the part low..i is below the pivot and the rest is not. */
  ghost predicate Partitioning(v: seq<int>, v0: seq<int>, low: int, high: int, pivot: int, i: int, j: int)
  {
    0 <= low && low - 1 <= i < j <= high < |v| && PermutedWithin(v, v0, low, high - 1) &&
    (forall k :: low <= k <= i ==> v[k] < pivot) &&
    (forall k :: i < k < j ==> v[k] >= pivot)
  }

  /** Examining v[j]: an element below the pivot joins the low block by
      trading places with the first element of the high block at i + 1;
      any other element extends the high block. */
  lemma ScanStep(v: seq<int>, w: seq<int>, v0: seq<int>, low: int, high: int, pivot: int, i: int, j: int)
    requires Partitioning(v, v0, low, high, pivot, i, j) && j < high
    requires w == if v[j] < pivot then v[i + 1 := v[j]][j := v[i + 1]] else v
    ensures Partitioning(w, v0, low, high, pivot, if v[j] < pivot then i + 1 else i, j + 1)
  {
    if v[j] < pivot {
      SwapKeepsPermuted(v, v0, low, high - 1, i + 1, j);
    }
  }

  /** partition's loop: with pivot at high, positions low..high-1 are
      rearranged so that low..i hold the elements below the pivot and
      i+1..high-1 the others. */
  method PartitionScan(arr: PagedArray, low: int, high: int, pivot: int) returns (i: int)
    requires arr.Valid() && arr.Coherent() && arr.accessCounter >= 1
    requires 0 <= low < high < |arr.disk| && arr.contents[high] == pivot
    modifies arr, arr.pages
    ensures arr.Valid() && arr.Coherent() && arr.accessCounter >= 1
    ensures low - 1 <= i < high
    ensures PermutedWithin(arr.contents, old(arr.contents), low, high - 1)
    ensures forall k :: low <= k <= i ==> arr.contents[k] < pivot
    ensures forall k :: i < k < high ==> arr.contents[k] >= pivot
  {
    ghost var v0 := arr.contents;
    ghost var v := v0;
    i := low - 1;
    for j := low to high
      invariant arr.Valid() && arr.Coherent() && arr.accessCounter >= 1 && |arr.disk| == |v0|
      invariant arr.contents == v
      invariant Partitioning(v, v0, low, high, pivot, i, j)
    {
      var x := ReadAt(arr, j);
      ghost var w := if x < pivot then v[i + 1 := v[j]][j := v[i + 1]] else v;
      ScanStep(v, w, v0, low, high, pivot, i, j);
      if x < pivot {
        i := i + 1;
        SwapAt(arr, i, j);
      }
      v := w;
    }
  }

  /** partition (last element as pivot): returns p in low..high with the old
      arr[high] at p, smaller elements before it and the others after it,
      the range rearranged and everything outside it untouched. */
  method Partition(arr: PagedArray, low: int, high: int) returns (p: int)
    requires arr.Valid() && arr.Coherent() && 0 <= low < high < |arr.disk|
    modifies arr, arr.pages
    ensures arr.Valid() && arr.Coherent()
    ensures low <= p <= high
    ensures PermutedWithin(arr.contents, old(arr.contents), low, high)
    ensures arr.contents[p] == old(arr.contents)[high]
    ensures forall k :: low <= k < p ==> arr.contents[k] < arr.contents[p]
    ensures forall k :: p < k <= high ==> arr.contents[k] >= arr.contents[p]
  {
    ghost var v0 := arr.contents;
    var pivot := ReadAt(arr, high);
    var i := PartitionScan(arr, low, high, pivot);
    ghost var v := arr.contents;
    PermutedTrans(v, v0, v0, low, high, low, high - 1);
    p := i + 1;
    SwapKeepsPermuted(v, v0, low, high, p, high);
    SwapAt(arr, p, high);
    ghost var w := v[p := v[high]][high := v[p]];
    assert arr.contents == w;
  }

  /** Two sorted runs around a pivot, the left one below it and the right
      one not, make one sorted run. */
  lemma JoinAroundPivot(v: seq<int>, low: int, p: int, high: int)
    requires 0 <= low <= p <= high < |v|
    requires SortedBetween(v, low, p - 1) && SortedBetween(v, p + 1, high)
    requires forall k :: low <= k < p ==> v[k] < v[p]
    requires forall k :: p < k <= high ==> v[k] >= v[p]
    ensures SortedBetween(v, low, high)
  {
  }

  /** quickSort's correctness step: a partition v1 of v0 around p whose two
      sides are then sorted in place (v2, then v3) is a sorted rearrangement
      of low..high of v0. */
  lemma SortAroundPivot(v0: seq<int>, v1: seq<int>, v2: seq<int>, v3: seq<int>, low: int, p: int, high: int)
    requires 0 <= low <= p <= high < |v1|
    requires PermutedWithin(v1, v0, low, high)
    requires forall k :: low <= k < p ==> v1[k] < v1[p]
    requires forall k :: p < k <= high ==> v1[k] >= v1[p]
    requires PermutedWithin(v2, v1, low, p - 1) && SortedBetween(v2, low, p - 1)
    requires PermutedWithin(v3, v2, p + 1, high) && SortedBetween(v3, p + 1, high)
    ensures PermutedWithin(v3, v0, low, high) && SortedBetween(v3, low, high)
  {
    PermutedKeepsBounds(v2, v1, low, p - 1, v1[p]);
    PermutedKeepsBounds(v3, v2, p + 1, high, v1[p]);
    PermutedTrans(v3, v2, v1, low, high, p + 1, high);
    PermutedTrans(v2, v1, v1, low, high, low, p - 1);
    PermutedTrans(v3, v1, v0, low, high, low, high);
    JoinAroundPivot(v3, low, p, high);
  }

  /** quickSort(low, high): sorts positions low..high of the logical array
      by rearranging them, leaving every other position as it was. */
  method QuickSort(arr: PagedArray, low: int, high: int)
    requires arr.Valid() && arr.Coherent() && 0 <= low && high < |arr.disk|
    modifies arr, arr.pages
    ensures arr.Valid() && arr.Coherent()
    ensures PermutedWithin(arr.contents, old(arr.contents), low, high)
    ensures SortedBetween(arr.contents, low, high)
    decreases high - low
  {
    if low < high {
      ghost var v0 := arr.contents;
      var pi := Partition(arr, low, high);
      ghost var v1 := arr.contents;
      QuickSort(arr, low, pi - 1);
      ghost var v2 := arr.contents;
      QuickSort(arr, pi + 1, high);
      ghost var v3 := arr.contents;
      SortAroundPivot(v0, v1, v2, v3, low, pi, high);
    }
  }

  /** insertionSort's inner loop invariant: positions 0..i other than the
      hole at j + 1 are in order, and those above the hole exceed key. */
  predicate HoleSorted(v: seq<int>, key: int, j: int, i: int)
    requires -1 <= j < i < |v|
  {
    (forall k, l :: 0 <= k <= l <= i && k != j + 1 && l != j + 1 ==> v[k] <= v[l]) &&
    (forall k :: j + 1 < k <= i ==> v[k] > key)
  }

  /** The hole at j + 1 closed with key leaves 0..i sorted, once the
      elements above the hole exceed key and the one below it does not. */
  lemma CloseHole(v: seq<int>, key: int, j: int, i: int)
    requires -1 <= j < i < |v| && HoleSorted(v, key, j, i)
    requires j >= 0 ==> v[j] <= key
    ensures SortedBetween(v[j + 1 := key], 0, i)
  {
  }

  /** Moving v[j], which exceeds key, up into the hole at j + 1 moves the
      hole to j and keeps the rest of 0..i sorted. */
  lemma ShiftHole(v: seq<int>, w: seq<int>, key: int, j: int, i: int)
    requires 0 <= j < i < |v| && w == v[j + 1 := v[j]] && v[j] > key
    requires HoleSorted(v, key, j, i)
    ensures HoleSorted(w, key, j - 1, i)
  {
  }

  /** The state of insertionSort's inner loop over prefix 0..i of v0: v with
      key put into the hole at j + 1 is a rearrangement of 0..i, and v is in
      order around the hole. */
  ghost predicate Inserting(v: seq<int>, v0: seq<int>, key: int, j: int, i: int)
  {
    -1 <= j < i < |v| && PermutedWithin(v[j + 1 := key], v0, 0, i) && HoleSorted(v, key, j, i)
  }

  /** Shifting v[j], which exceeds key, into the hole keeps the loop state,
      with the hole one place lower. */
  lemma ShiftStep(v: seq<int>, w: seq<int>, v0: seq<int>, key: int, j: int, i: int)
    requires Inserting(v, v0, key, j, i) && 0 <= j && v[j] > key && w == v[j + 1 := v[j]]
    ensures Inserting(w, v0, key, j - 1, i)
  {
    ShiftKeepsPermuted(v, key, v0, 0, i, j);
    ShiftHole(v, w, key, j, i);
  }

  /** One test and step of insertionSort's inner loop: `arr[j] > key`, and
      if so `arr[j + 1] = arr[j]; arr.markPageDirty(j + 1);`, which moves the
      hole from j + 1 down to j. When arr[j] does not exceed key nothing
      changes. */
  method ShiftIfGreater(arr: PagedArray, j: int, key: int, ghost v0: seq<int>, ghost i: int)
    returns (shifted: bool)
    requires arr.Valid() && arr.Coherent() && arr.accessCounter >= 1 && |arr.disk| == |v0|
    requires Inserting(arr.contents, v0, key, j, i) && 0 <= j
    modifies arr, arr.pages
    ensures arr.Valid() && arr.Coherent() && arr.accessCounter >= 1 && |arr.disk| == |v0|
    ensures shifted <==> old(arr.contents[j]) > key
    ensures shifted ==> Inserting(arr.contents, v0, key, j - 1, i)
    ensures !shifted ==> arr.contents == old(arr.contents)
  {
    ghost var v := arr.contents;
    var x := ReadAt(arr, j);
    shifted := x > key;
    if shifted {
      ShiftStep(v, v[j + 1 := v[j]], v0, key, j, i);
      CopyAt(arr, j, j + 1);
    }
  }

  /** insertionSort's inner loop: from the hole at i, elements of 0..i-1
      greater than key shift up one place until one that is not is met; j
      is the position below the final hole. */
  method ShiftGreater(arr: PagedArray, i: int, key: int) returns (j: int)
    requires arr.Valid() && arr.Coherent() && arr.accessCounter >= 1 && 1 <= i < |arr.disk|
    requires Inserting(arr.contents, arr.contents, key, i - 1, i)
    modifies arr, arr.pages
    ensures arr.Valid() && arr.Coherent() && arr.accessCounter >= 1
    ensures Inserting(arr.contents, old(arr.contents), key, j, i)
    ensures j >= 0 ==> arr.contents[j] <= key
  {
    ghost var v0 := arr.contents;
    j := i - 1;
    while j >= 0
      invariant arr.Valid() && arr.Coherent() && arr.accessCounter >= 1 && |arr.disk| == |v0|
      invariant Inserting(arr.contents, v0, key, j, i)
    {
      var shifted := ShiftIfGreater(arr, j, key, v0, i);
      if !shifted {
        break;
      }
      j := j - 1;
    }
  }

  /** One step of insertionSort's outer loop: with 0..i-1 sorted, key = arr[i]
      is moved down past the greater elements, which shift up one place, and
      stored in the hole; 0..i is then sorted. */
  method InsertIntoPrefix(arr: PagedArray, i: int)
    requires arr.Valid() && arr.Coherent() && 1 <= i < |arr.disk|
    requires SortedBetween(arr.contents, 0, i - 1)
    modifies arr, arr.pages
    ensures arr.Valid() && arr.Coherent()
    ensures PermutedWithin(arr.contents, old(arr.contents), 0, i)
    ensures SortedBetween(arr.contents, 0, i)
  {
    ghost var v0 := arr.contents;
    var key := ReadAt(arr, i);
    assert v0[i := key] == v0;
    var j := ShiftGreater(arr, i, key);
    ghost var v := arr.contents;
    CloseHole(v, key, j, i);
    PutAt(arr, j + 1, key);
    assert arr.contents == v[j + 1 := key];
  }

  /** insertionSort(n): positions 0..n-1 end sorted and rearranged, the rest
      untouched. */
  method InsertionSort(arr: PagedArray, n: int)
    requires arr.Valid() && arr.Coherent() && 0 <= n <= |arr.disk|
    modifies arr, arr.pages
    ensures arr.Valid() && arr.Coherent()
    ensures PermutedWithin(arr.contents, old(arr.contents), 0, n - 1)
    ensures SortedBetween(arr.contents, 0, n - 1)
  {
    ghost var v0 := arr.contents;
    var i := 1;
    while i < n
      invariant arr.Valid() && arr.Coherent() && |arr.disk| == |v0|
      invariant 1 <= i && (n >= 1 ==> i <= n)
      invariant PermutedWithin(arr.contents, v0, 0, n - 1)
      invariant SortedBetween(arr.contents, 0, i - 1)
    {
      ghost var v := arr.contents;
      InsertIntoPrefix(arr, i);
      PermutedTrans(arr.contents, v, v0, 0, n - 1, 0, i);
      i := i + 1;
    }
  }

  /** selectionSort's inner loop: the first position of a least element of
      i..n-1, the logical array unchanged. */
  method MinIndex(arr: PagedArray, i: int, n: int) returns (minIdx: int)
    requires arr.Valid() && arr.Coherent() && 0 <= i < n <= |arr.disk|
    requires arr.accessCounter >= 1 || i == 0
    modifies arr, arr.pages
    ensures arr.Valid() && arr.Coherent() && arr.contents == old(arr.contents)
    ensures i + 1 < n ==> arr.accessCounter >= 1
    ensures i <= minIdx < n
    ensures forall k :: i <= k < n ==> arr.contents[minIdx] <= arr.contents[k]
    ensures forall k :: i <= k < minIdx ==> arr.contents[minIdx] < arr.contents[k]
  {
    ghost var v := arr.contents;
    minIdx := i;
    for j := i + 1 to n
      invariant arr.Valid() && arr.Coherent() && arr.contents == v && |arr.disk| == |v|
      invariant i <= minIdx < j
      invariant arr.accessCounter >= 1 || (j == 1 && minIdx == 0)
      invariant forall k :: i <= k < j ==> v[minIdx] <= v[k]
      invariant forall k :: i <= k < minIdx ==> v[minIdx] < v[k]
    {
      var a, b := ReadPair(arr, j, minIdx);
      if a < b {
        minIdx := j;
      }
    }
  }

  /** The state of selectionSort's outer loop: v rearranges 0..n-1 of v0,
      and 0..i-1 is sorted and holds the least elements. */
  ghost predicate Selecting(v: seq<int>, v0: seq<int>, n: int, i: int)
  {
    0 <= i && (n >= 1 ==> i <= n - 1) && n <= |v| &&
    PermutedWithin(v, v0, 0, n - 1) && SortedBetween(v, 0, i - 1) &&
    forall k, l :: 0 <= k < i <= l < n ==> v[k] <= v[l]
  }

  /** Putting the least element of i..n-1 at i extends the sorted prefix,
      whose elements are at most every later one, by one place. */
  lemma SelectStep(v: seq<int>, w: seq<int>, v0: seq<int>, i: int, m: int, n: int)
    requires Selecting(v, v0, n, i) && i < n - 1 && i <= m < n
    requires w == v[m := v[i]][i := v[m]]
    requires forall k :: i <= k < n ==> v[m] <= v[k]
    ensures Selecting(w, v0, n, i + 1)
  {
    SwapKeepsPermuted(v, v0, 0, n - 1, m, i);
  }

  /** The body of selectionSort's outer loop: the first least element of
      i..n-1 is found, then exchanged with arr[i], both pages marked dirty. */
  method SelectMin(arr: PagedArray, i: int, n: int) returns (ghost m: int)
    requires arr.Valid() && arr.Coherent() && 0 <= i < n - 1 && n <= |arr.disk|
    requires arr.accessCounter >= 1 || i == 0
    modifies arr, arr.pages
    ensures arr.Valid() && arr.Coherent() && arr.accessCounter >= 1
    ensures i <= m < n && forall k :: i <= k < n ==> old(arr.contents)[m] <= old(arr.contents)[k]
    ensures var v := old(arr.contents); arr.contents == v[m := v[i]][i := v[m]]
  {
    var minIdx := MinIndex(arr, i, n);
    SwapAt(arr, minIdx, i);
    m := minIdx;
  }

  /** selectionSort(n): positions 0..n-1 end sorted and rearranged, the rest
      untouched. */
  method SelectionSort(arr: PagedArray, n: int)
    requires arr.Valid() && arr.Coherent() && 0 <= n <= |arr.disk|
    modifies arr, arr.pages
    ensures arr.Valid() && arr.Coherent()
    ensures PermutedWithin(arr.contents, old(arr.contents), 0, n - 1)
    ensures SortedBetween(arr.contents, 0, n - 1)
  {
    ghost var v0 := arr.contents;
    ghost var v := v0;
    var i := 0;
    while i < n - 1
      invariant arr.Valid() && arr.Coherent() && |arr.disk| == |v0|
      invariant arr.accessCounter >= 1 || i == 0
      invariant arr.contents == v
      invariant Selecting(v, v0, n, i)
    {
      ghost var m := SelectMin(arr, i, n);
      ghost var w := v[m := v[i]][i := v[m]];
      SelectStep(v, w, v0, i, m, n);
      v := w;
      i := i + 1;
    }
  }

  /** The state of bubbleSort's inner loop over 0..m: v rearranges 0..m of
      v0 and v[j] is the largest of 0..j. */
  ghost predicate Bubbling(v: seq<int>, v0: seq<int>, m: int, j: int)
  {
    0 <= j <= m < |v| && PermutedWithin(v, v0, 0, m) &&
    forall k :: 0 <= k < j ==> v[k] <= v[j]
  }

  /** Comparing neighbours j and j + 1 and swapping them when out of order
      carries the largest of 0..j + 1 to j + 1. */
  lemma CarryLargest(v: seq<int>, w: seq<int>, v0: seq<int>, m: int, j: int)
    requires Bubbling(v, v0, m, j) && j < m
    requires w == if v[j] > v[j + 1] then v[j := v[j + 1]][j + 1 := v[j]] else v
    ensures Bubbling(w, v0, m, j + 1)
  {
    if v[j] > v[j + 1] {
      SwapKeepsPermuted(v, v0, 0, m, j, j + 1);
    }
  }

  /** The body of bubbleSort's inner loop: `if (arr[j] > arr[j+1])` then
      swap the two neighbours and mark both pages dirty. */
  method OrderNeighbours(arr: PagedArray, j: int)
    requires arr.Valid() && arr.Coherent() && 0 <= j && j + 1 < |arr.disk|
    requires arr.accessCounter >= 1 || j == 0
    modifies arr, arr.pages
    ensures arr.Valid() && arr.Coherent() && arr.accessCounter >= 1
    ensures var v := old(arr.contents);
      arr.contents == if v[j] > v[j + 1] then v[j := v[j + 1]][j + 1 := v[j]] else v
  {
    var a, b := ReadPair(arr, j, j + 1);
    if a > b {
      SwapAt(arr, j, j + 1);
    }
  }

  /** bubbleSort's inner loop for pass i: the largest element of 0..n-i-1 is
      carried to n-i-1 by swapping out-of-order neighbours. */
  method BubblePass(arr: PagedArray, n: int, i: int)
    requires arr.Valid() && arr.Coherent() && 0 <= i && i + 1 < n <= |arr.disk|
    modifies arr, arr.pages
    ensures arr.Valid() && arr.Coherent() && arr.accessCounter >= 1
    ensures PermutedWithin(arr.contents, old(arr.contents), 0, n - i - 1)
    ensures forall k :: 0 <= k < n - i - 1 ==> arr.contents[k] <= arr.contents[n - i - 1]
  {
    ghost var v0 := arr.contents;
    ghost var v := v0;
    var last := n - i - 1;
    for j := 0 to last
      invariant arr.Valid() && arr.Coherent() && |arr.disk| == |v0|
      invariant arr.accessCounter >= 1 || j == 0
      invariant arr.contents == v
      invariant Bubbling(v, v0, last, j)
    {
      ghost var w := if v[j] > v[j + 1] then v[j := v[j + 1]][j + 1 := v[j]] else v;
      CarryLargest(v, w, v0, last, j);
      OrderNeighbours(arr, j);
      v := w;
    }
  }

  /** After pass i the tail n-i-1..n-1 is sorted and holds the largest
      elements. */
  lemma BubbleStep(v: seq<int>, w: seq<int>, n: int, i: int)
    requires 0 <= i && i + 1 < n <= |v|
    requires SortedBetween(v, n - i, n - 1)
    requires forall k, l :: 0 <= k < n - i <= l < n ==> v[k] <= v[l]
    requires PermutedWithin(w, v, 0, n - i - 1)
    requires forall k :: 0 <= k < n - i - 1 ==> w[k] <= w[n - i - 1]
    ensures SortedBetween(w, n - i - 1, n - 1)
    ensures forall k, l :: 0 <= k < n - i - 1 <= l < n ==> w[k] <= w[l]
  {
    forall l | n - i <= l < n
      ensures forall k :: 0 <= k <= n - i - 1 ==> w[k] <= w[l]
    {
      PermutedKeepsBounds(w, v, 0, n - i - 1, v[l]);
    }
  }

  /** bubbleSort(n): positions 0..n-1 end sorted and rearranged, the rest
      untouched. */
  method BubbleSort(arr: PagedArray, n: int)
    requires arr.Valid() && arr.Coherent() && 0 <= n <= |arr.disk|
    modifies arr, arr.pages
    ensures arr.Valid() && arr.Coherent()
    ensures PermutedWithin(arr.contents, old(arr.contents), 0, n - 1)
    ensures SortedBetween(arr.contents, 0, n - 1)
  {
    ghost var v0 := arr.contents;
    var i := 0;
    while i < n - 1
      invariant arr.Valid() && arr.Coherent() && |arr.disk| == |v0|
      invariant 0 <= i && (n >= 1 ==> i <= n - 1)
      invariant PermutedWithin(arr.contents, v0, 0, n - 1)
      invariant SortedBetween(arr.contents, n - i, n - 1)
      invariant forall k, l :: 0 <= k < n - i <= l < n ==> arr.contents[k] <= arr.contents[l]
    {
      ghost var v := arr.contents;
      BubblePass(arr, n, i);
      ghost var w := arr.contents;
      BubbleStep(v, w, n, i);
      PermutedTrans(w, v, v0, 0, n - 1, 0, n - i - 1);
      i := i + 1;
    }
  }
}
