/** The six sorts of sorting/src/lib.rs. Each Rust function sorts a
    mutable slice in place; here each is a method that takes the slice's
    contents and returns its contents afterwards, updating a local copy
    step by step exactly where the Rust code writes. The element type is
    `int`, which stands for any totally ordered `Copy` type. */
module Sorting {

  predicate Sorted(s: seq<int>) {
    forall i, j | 0 <= i < j < |s| :: s[i] <= s[j]
  }

  /** `slice::swap`: the two entries trade places and nothing else moves. */
  function Swap(s: seq<int>, i: int, j: int): (r: seq<int>)
    requires 0 <= i < |s| && 0 <= j < |s|
    ensures |r| == |s| && r[i] == s[j] && r[j] == s[i]
    ensures forall k | 0 <= k < |s| && k != i && k != j :: r[k] == s[k]
    ensures multiset(r) == multiset(s)
  {
    s[i := s[j]][j := s[i]]
  }

  /** A sorted permutation is unique: two sorted sequences with the same
      elements are equal. So every correct sort of a slice gives the same
      result. */
  lemma {:induction false} SortedUnique(a: seq<int>, b: seq<int>)
    requires Sorted(a) && Sorted(b) && multiset(a) == multiset(b)
    ensures a == b
    decreases |a|
  {
    assert |a| == |multiset(a)| == |multiset(b)| == |b|;
    if |a| > 0 {
      HeadIsLeast(a, b[0]);
      HeadIsLeast(b, a[0]);
      Uncons(a);
      Uncons(b);
      SortedTail(a);
      SortedTail(b);
      SortedUnique(a[1..], b[1..]);
      SameHeadTail(a, b);
    }
  }

  lemma SortedTail(s: seq<int>)
    requires Sorted(s) && |s| > 0
    ensures Sorted(s[1..])
  {
  }

  lemma SameHeadTail(a: seq<int>, b: seq<int>)
    requires |a| > 0 && |b| > 0 && a[0] == b[0] && a[1..] == b[1..]
    ensures a == b
  {
    assert a == [a[0]] + a[1..] && b == [b[0]] + b[1..];
  }

  lemma HeadIsLeast(s: seq<int>, x: int)
    requires Sorted(s) && x in multiset(s)
    ensures |s| > 0 && s[0] <= x
  {
    var k :| 0 <= k < |s| && s[k] == x;
  }

  lemma Uncons(s: seq<int>)
    requires |s| > 0
    ensures multiset(s[1..]) == multiset(s) - multiset{s[0]}
  {
    assert s == [s[0]] + s[1..];
  }

  // ---------------------------------------------------------------------
  // selection_sort
  // ---------------------------------------------------------------------

  /** `selection_sort`: step `i` swaps the first smallest of `arr[i..]`
      into place `i`. */
  method SelectionSort(a: seq<int>) returns (b: seq<int>)
    ensures Sorted(b) && multiset(b) == multiset(a)
    ensures |a| < 2 ==> b == a
  {
    var len := |a|;
    b := a;
    if len < 2 {
      return;
    }
    for i := 0 to len
      invariant |b| == len && multiset(b) == multiset(a)
      invariant forall x, y | 0 <= x < y < i :: b[x] <= b[y]
      invariant forall x, y | 0 <= x < i <= y < len :: b[x] <= b[y]
    {
      var m := i;
      for j := i + 1 to len
        invariant i <= m < len
        invariant forall k | i <= k < j :: b[m] <= b[k]
      {
        if b[m] > b[j] {
          m := j;
        }
      }
      b := Swap(b, i, m);
    }
  }

  // ---------------------------------------------------------------------
  // bubble_sort
  // ---------------------------------------------------------------------

  /** `bubble_sort`: pass `i` carries the largest of `arr[..len - i]` to
      its end; a pass without a swap found the rest in order and stops the
      sort. */
  method BubbleSort(a: seq<int>) returns (b: seq<int>)
    ensures Sorted(b) && multiset(b) == multiset(a)
    ensures |a| < 2 ==> b == a
  {
    var len := |a|;
    b := a;
    if len < 2 {
      return;
    }
    for i := 0 to len
      invariant |b| == len && multiset(b) == multiset(a)
      invariant Settled(b, len - i)
    {
      var swapped;
      b, swapped := BubblePass(b, len - i - 1);
      if !swapped {
        break;
      }
    }
  }

  /** The entries from `m` on are sorted and none is below an entry
      before `m`. */
  predicate Settled(b: seq<int>, m: nat) {
    && (forall x, y | m <= x < y < |b| :: b[x] <= b[y])
    && (forall x, y | 0 <= x < m <= y < |b| :: b[x] <= b[y])
  }

  /** The inner loop of `bubble_sort`: adjacent out-of-order entries in
      `[0, n]` are swapped, carrying the largest of them up to `n`. If no
      swap was needed the whole slice is sorted. */
  method BubblePass(a: seq<int>, n: int) returns (b: seq<int>, swapped: bool)
    requires 0 <= n < |a| && Settled(a, n + 1)
    ensures |b| == |a| && multiset(b) == multiset(a)
    ensures Settled(b, n)
    ensures !swapped ==> Sorted(b)
  {
    b := a;
    swapped := false;
    for j := 0 to n
      invariant |b| == |a| && multiset(b) == multiset(a) && Settled(b, n + 1)
      invariant forall k | 0 <= k <= j :: b[k] <= b[j]
      invariant !swapped ==> forall x, y | 0 <= x < y <= j :: b[x] <= b[y]
    {
      if b[j] > b[j + 1] {
        b := Swap(b, j, j + 1);
        swapped := true;
      }
    }
  }

  // ---------------------------------------------------------------------
  // insertion_sort
  // ---------------------------------------------------------------------

  /** `insertion_sort`: step `i` shifts the entries of the sorted
      `arr[..i]` that exceed `arr[i]` one place up and drops `arr[i]` into
      the gap. */
  method InsertionSort(a: seq<int>) returns (b: seq<int>)
    ensures Sorted(b) && multiset(b) == multiset(a)
    ensures |a| < 2 ==> b == a
  {
    b := a;
    if |a| < 2 {
      return;
    }
    for i := 1 to |a|
      invariant |b| == |a| && multiset(b) == multiset(a)
      invariant forall x, y | 0 <= x < y < i :: b[x] <= b[y]
    {
      b := Insert(b, i);
    }
  }

  /** One step of `insertion_sort`: the inner `while` loop and the final
      store. `j` is the Rust `isize` index, which reaches -1. */
  method Insert(p: seq<int>, i: int) returns (b: seq<int>)
    requires 0 < i < |p|
    requires forall x, y | 0 <= x < y < i :: p[x] <= p[y]
    ensures |b| == |p| && multiset(b) == multiset(p)
    ensures forall x, y | 0 <= x < y <= i :: b[x] <= b[y]
    ensures b[i + 1..] == p[i + 1..]
  {
    var key := p[i];
    var j := i - 1;
    b := p;
    while j >= 0 && key < b[j]
      invariant -1 <= j < i && |b| == |p|
      invariant Shifted(p, i, j + 1, b)
      invariant forall k | j + 1 <= k < i :: key < p[k]
    {
      b := b[j + 1 := b[j]];
      j := j - 1;
    }
    b := b[j + 1 := key];
    InsertedShape(p, i, j + 1, b);
  }

  /** While the gap is at `g`: entries below it are untouched, entries
      from `g` to `i - 1` sit one place up, and entries above `i` are
      untouched. */
  predicate Shifted(p: seq<int>, i: int, g: int, b: seq<int>)
    requires 0 <= g <= i < |p| == |b|
  {
    && (forall k | 0 <= k < g :: b[k] == p[k])
    && (forall k | g < k <= i :: b[k] == p[k - 1])
    && (forall k | i < k < |p| :: b[k] == p[k])
  }

  /** Once the key is stored in the gap, the first `i + 1` entries are
      sorted and the result is `p` with entry `i` moved down to `g`. */
  lemma InsertedShape(p: seq<int>, i: int, g: int, b: seq<int>)
    requires 0 <= g <= i < |p| == |b|
    requires forall x, y | 0 <= x < y < i :: p[x] <= p[y]
    requires (forall k | 0 <= k < g :: b[k] == p[k]) && b[g] == p[i]
    requires (forall k | g < k <= i :: b[k] == p[k - 1]) && (forall k | i < k < |p| :: b[k] == p[k])
    requires g == 0 || p[g - 1] <= p[i]
    requires forall k | g <= k < i :: p[i] < p[k]
    ensures forall x, y | 0 <= x < y <= i :: b[x] <= b[y]
    ensures multiset(b) == multiset(p)
    ensures b[i + 1..] == p[i + 1..]
  {
    assert b == p[..g] + [p[i]] + p[g..i] + p[i + 1..];
    InsertMultiset(p, i, g);
    forall x, y | 0 <= x < y <= i
      ensures b[x] <= b[y]
    {
      if y < g {
      } else if y == g {
        assert x <= g - 1 && p[x] <= p[g - 1];
      } else if x < g {
        assert p[x] <= p[g - 1] || g - 1 == x;
      } else if x == g {
      } else {
      }
    }
  }

  /** Moving entry `i` down to place `g` permutes the sequence. */
  lemma InsertMultiset(p: seq<int>, i: int, g: int)
    requires 0 <= g <= i < |p|
    ensures multiset(p[..g] + [p[i]] + p[g..i] + p[i + 1..]) == multiset(p)
  {
    assert p == p[..g] + p[g..i] + [p[i]] + p[i + 1..];
  }

  // ---------------------------------------------------------------------
  // merge and merge_sort
  // ---------------------------------------------------------------------

  /** `merge`: copies of the two halves `arr[..mid]` and `arr[mid..]` are
      merged back over `arr`, front to back. The left entry is taken when
      the right half is used up, or when it is strictly smaller than the
      right entry; on a tie the right entry goes first. */
  method Merge(a: seq<int>, mid: int) returns (b: seq<int>)
    requires 0 <= mid <= |a|
    requires Sorted(a[..mid]) && Sorted(a[mid..])
    ensures Sorted(b) && multiset(b) == multiset(a)
  {
    var left, right := a[..mid], a[mid..];
    var l, r := 0, 0;
    b := [];
    for k := 0 to |a|
      invariant l + r == k
      invariant Merged(left, right, l, r, b)
    {
      var usedUp := r == |right|;
      var leftLeft := l < |left|;
      if usedUp || (leftLeft && left[l] < right[r]) {
        TakeLeft(left, right, l, r, b);
        b := b + [left[l]];
        l := l + 1;
      } else {
        TakeRight(left, right, l, r, b);
        b := b + [right[r]];
        r := r + 1;
      }
    }
    assert left[..l] == left && right[..r] == right;
    assert a == left + right;
  }

  /** `b` is a sorted merge of the first `l` entries of `left` and the
      first `r` of `right`, and no later entry of either is smaller than
      its last entry. */
  predicate Merged(left: seq<int>, right: seq<int>, l: int, r: int, b: seq<int>) {
    && Sorted(left) && Sorted(right)
    && 0 <= l <= |left| && 0 <= r <= |right| && |b| == l + r
    && multiset(b) == multiset(left[..l]) + multiset(right[..r])
    && Sorted(b)
    && (|b| > 0 && l < |left| ==> b[|b| - 1] <= left[l])
    && (|b| > 0 && r < |right| ==> b[|b| - 1] <= right[r])
  }

  lemma TakeLeft(left: seq<int>, right: seq<int>, l: int, r: int, b: seq<int>)
    requires Merged(left, right, l, r, b) && l < |left|
    requires r == |right| || left[l] < right[r]
    ensures Merged(left, right, l + 1, r, b + [left[l]])
  {
    assert left[..l + 1] == left[..l] + [left[l]];
    AppendSorted(b, left[l]);
  }

  lemma TakeRight(left: seq<int>, right: seq<int>, l: int, r: int, b: seq<int>)
    requires Merged(left, right, l, r, b) && r < |right|
    requires l == |left| || right[r] <= left[l]
    ensures Merged(left, right, l, r + 1, b + [right[r]])
  {
    assert right[..r + 1] == right[..r] + [right[r]];
    AppendSorted(b, right[r]);
  }

  lemma AppendSorted(b: seq<int>, x: int)
    requires Sorted(b) && (|b| > 0 ==> b[|b| - 1] <= x)
    ensures Sorted(b + [x])
  {
  }

  /** `merge_sort`: sort both halves, then merge them. */
  method MergeSort(a: seq<int>) returns (b: seq<int>)
    ensures Sorted(b) && multiset(b) == multiset(a)
    ensures |a| < 2 ==> b == a
    decreases |a|
  {
    if |a| > 1 {
      var mid := |a| / 2;
      var l := MergeSort(a[..mid]);
      var r := MergeSort(a[mid..]);
      assert |l| == |multiset(l)| == mid;
      assert (l + r)[..mid] == l && (l + r)[mid..] == r;
      assert a == a[..mid] + a[mid..];
      b := Merge(l + r, mid);
    } else {
      b := a;
    }
  }

  // ---------------------------------------------------------------------
  // partition, _quick_sort and quick_sort
  // ---------------------------------------------------------------------

  /** Entries outside `[low, high]` are the same in `a` and `b`. */
  predicate SameOutside(a: seq<int>, b: seq<int>, low: int, high: int)
    requires |a| == |b|
  {
    forall k | 0 <= k < |a| && (k < low || high < k) :: b[k] == a[k]
  }

  /** The state of `partition`'s outer loop: everything from `low` to `i`
      is at most the pivot value `pv`, everything from `j` to just below
      the pivot's place `high` is at least `pv`, and the pivot is still in
      place. */
  predicate Split(b: seq<int>, low: int, high: int, i: int, j: int, pv: int) {
    && 0 <= low && low - 1 <= i < j <= high < |b| && b[high] == pv
    && (forall k | low <= k <= i :: b[k] <= pv)
    && (forall k | j <= k < high :: pv <= b[k])
  }

  /** `partition`: Hoare's scheme with the last entry as pivot. `i` climbs
      past entries below the pivot, `j` descends past entries above it,
      stopping at index 0 and not at `low`, and out-of-place pairs are
      swapped until the two meet; the pivot is then swapped into place
      `i`, which is returned. */
  method Partition(a: seq<int>, low: int, high: int) returns (b: seq<int>, p: int)
    requires 0 <= low < high < |a|
    ensures |b| == |a| && multiset(b) == multiset(a) && SameOutside(a, b, low, high)
    ensures low <= p <= high && b[p] == a[high]
    ensures forall k | low <= k < p :: b[k] <= b[p]
    ensures forall k | p < k <= high :: b[p] <= b[k]
  {
    var pivot := high;
    var pv := a[pivot];
    var i, j := low - 1, high;
    var done := false;
    b := a;
    while !done
      invariant |b| == |a| && multiset(b) == multiset(a) && SameOutside(a, b, low, high)
      invariant !done ==> Split(b, low, high, i, j, pv)
      invariant done ==> Parted(b, low, high, i, pv)
      decreases !done, j - i
    {
      b, i, j, done := PartitionRound(b, low, high, i, j, pv);
    }
    b := Swap(b, i, pivot);
    p := i;
  }

  /** Where the pivot goes: entries from `low` to `i - 1` are at most the
      pivot value, those from `i` to `high - 1` at least, and the pivot is
      still at `high`. */
  predicate Parted(b: seq<int>, low: int, high: int, i: int, pv: int) {
    && 0 <= low <= i <= high < |b| && b[high] == pv && pv <= b[i]
    && (forall k | low <= k < i :: b[k] <= pv)
    && (forall k | i < k < high :: pv <= b[k])
  }

  /** One round of the outer loop: both scans, then either the loop ends
      or the two out-of-place entries are swapped. */
  method PartitionRound(b: seq<int>, low: int, high: int, i0: int, j0: int, pv: int)
    returns (b': seq<int>, i: int, j: int, done: bool)
    requires Split(b, low, high, i0, j0, pv)
    ensures |b'| == |b| && multiset(b') == multiset(b)
    ensures forall k | 0 <= k < |b| && (k < low || high < k) :: b'[k] == b[k]
    ensures !done ==> Split(b', low, high, i, j, pv) && j - i < j0 - i0
    ensures done ==> Parted(b', low, high, i, pv)
  {
    i := ScanUp(b, pv, i0, j0);
    j := ScanDown(b, pv, j0);
    if i >= j {
      PartitionEnd(b, low, high, i0, j0, i, j, pv);
      return b, i, j, true;
    }
    PartitionStep(b, low, high, i0, j0, i, j, pv);
    b' := Swap(b, i, j);
    done := false;
  }

  /** The first inner loop of `partition`: `i` climbs from `i0 + 1` while
      the entry is below the pivot value. It stops by `j0` at the latest,
      whose entry is not below it. */
  method ScanUp(b: seq<int>, pv: int, i0: int, j0: int) returns (i: int)
    requires -1 <= i0 < j0 < |b| && pv <= b[j0]
    ensures i0 < i <= j0 && pv <= b[i]
    ensures forall k | i0 < k < i :: b[k] < pv
  {
    i := i0 + 1;
    while b[i] < pv
      invariant i0 < i <= j0
      invariant forall k | i0 < k < i :: b[k] < pv
      decreases j0 - i
    {
      i := i + 1;
    }
  }

  /** The second inner loop: `j` descends from `j0 - 1` while the entry is
      above the pivot value, stopping at index 0 at the latest. */
  method ScanDown(b: seq<int>, pv: int, j0: int) returns (j: int)
    requires 0 <= j0 <= |b|
    ensures -1 <= j < j0 && (j >= 0 ==> b[j] <= pv)
    ensures forall k | j < k < j0 :: pv < b[k]
  {
    j := j0 - 1;
    while j >= 0 && b[j] > pv
      invariant -1 <= j < j0
      invariant forall k | j < k < j0 :: pv < b[k]
      decreases j
    {
      j := j - 1;
    }
  }

  /** Swapping the two out-of-place entries keeps the loop's state. */
  lemma PartitionStep(b: seq<int>, low: int, high: int, i0: int, j0: int, i: int, j: int, pv: int)
    requires Split(b, low, high, i0, j0, pv)
    requires i0 < i < j < j0 && pv <= b[i] && b[j] <= pv
    requires forall k | i0 < k < i :: b[k] < pv
    requires forall k | j < k < j0 :: pv < b[k]
    ensures Split(Swap(b, i, j), low, high, i, j, pv)
  {
  }

  /** Once the scans meet, `i` is where the pivot goes. */
  lemma PartitionEnd(b: seq<int>, low: int, high: int, i0: int, j0: int, i: int, j: int, pv: int)
    requires Split(b, low, high, i0, j0, pv)
    requires i0 < i <= j0 && pv <= b[i] && -1 <= j <= i
    requires forall k | i0 < k < i :: b[k] < pv
    requires forall k | j < k < j0 :: pv < b[k]
    ensures Parted(b, low, high, i, pv)
  {
  }

  /** The entries from `low` to `high` of `b` are a rearrangement of those
      of `a`. */
  predicate SameRange(a: seq<int>, b: seq<int>, low: int, high: int)
    requires 0 <= low <= high + 1 <= |a| == |b|
  {
    multiset(b[low..high + 1]) == multiset(a[low..high + 1])
  }

  /** A rearrangement that leaves everything outside a range in place
      rearranges that range. */
  lemma RangeOfWhole(a: seq<int>, b: seq<int>, low: int, high: int)
    requires 0 <= low <= high + 1 <= |a| == |b|
    requires multiset(b) == multiset(a) && SameOutside(a, b, low, high)
    ensures SameRange(a, b, low, high)
  {
    SliceSame(a, b, 0, low);
    SliceSame(a, b, high + 1, |a|);
    ThreeParts(a, low, high);
    ThreeParts(b, low, high);
    Cancel(multiset(a[0..low]), multiset(a[low..high + 1]), multiset(b[low..high + 1]), multiset(a[high + 1..|a|]));
  }

  /** A sequence's elements are those of its three consecutive parts. */
  lemma ThreeParts(s: seq<int>, low: int, high: int)
    requires 0 <= low <= high + 1 <= |s|
    ensures multiset(s) == multiset(s[0..low]) + multiset(s[low..high + 1]) + multiset(s[high + 1..|s|])
  {
    assert s == s[0..low] + s[low..high + 1] + s[high + 1..|s|];
  }

  lemma Cancel(x: multiset<int>, ma: multiset<int>, mb: multiset<int>, y: multiset<int>)
    requires x + ma + y == x + mb + y
    ensures ma == mb
  {
    forall z
      ensures ma[z] == mb[z]
    {
      assert (x + ma + y)[z] == (x + mb + y)[z];
    }
  }

  lemma SliceSame(x: seq<int>, y: seq<int>, lo: int, hi: int)
    requires 0 <= lo <= hi <= |x| == |y|
    requires forall k | lo <= k < hi :: x[k] == y[k]
    ensures x[lo..hi] == y[lo..hi]
  {
  }

  /** Rearranging a range keeps every bound its entries obey. */
  lemma RangeBounds(a: seq<int>, b: seq<int>, low: int, high: int, v: int)
    requires 0 <= low <= high + 1 <= |a| == |b| && SameRange(a, b, low, high)
    ensures (forall k | low <= k <= high :: a[k] <= v) ==> forall k | low <= k <= high :: b[k] <= v
    ensures (forall k | low <= k <= high :: v <= a[k]) ==> forall k | low <= k <= high :: v <= b[k]
  {
    forall k | low <= k <= high
      ensures exists m | low <= m <= high :: b[k] == a[m]
    {
      assert b[k] == b[low..high + 1][k - low];
      assert b[k] in multiset(a[low..high + 1]);
      var m :| 0 <= m < high + 1 - low && a[low..high + 1][m] == b[k];
      assert a[low + m] == b[k];
    }
  }

  /** `_quick_sort(arr, low, high)`: partition, then sort both sides of
      the pivot. `high` may be -1 and `low` may pass `high` by one; such
      ranges are empty and left alone. */
  method QuickSortRange(a: seq<int>, low: int, high: int) returns (b: seq<int>)
    requires 0 <= low <= high + 1 <= |a|
    ensures |b| == |a| && SameRange(a, b, low, high) && SameOutside(a, b, low, high)
    ensures forall x, y | low <= x < y <= high :: b[x] <= b[y]
    decreases high - low
  {
    if low < high {
      var b1, p := Partition(a, low, high);
      RangeOfWhole(a, b1, low, high);
      var b2 := QuickSortRange(b1, low, p - 1);
      b := QuickSortRange(b2, p + 1, high);
      QuickSortJoin(a, b1, b2, b, low, p, high);
    } else {
      b := a;
    }
  }

  /** The two recursive calls of `_quick_sort` put together. */
  lemma QuickSortJoin(a: seq<int>, b1: seq<int>, b2: seq<int>, b: seq<int>, low: int, p: int, high: int)
    requires 0 <= low <= p <= high < |a| == |b1| == |b2| == |b|
    requires SameRange(a, b1, low, high) && SameOutside(a, b1, low, high)
    requires forall k | low <= k < p :: b1[k] <= b1[p]
    requires forall k | p < k <= high :: b1[p] <= b1[k]
    requires SameRange(b1, b2, low, p - 1) && SameOutside(b1, b2, low, p - 1)
    requires forall x, y | low <= x < y <= p - 1 :: b2[x] <= b2[y]
    requires SameRange(b2, b, p + 1, high) && SameOutside(b2, b, p + 1, high)
    requires forall x, y | p + 1 <= x < y <= high :: b[x] <= b[y]
    ensures SameRange(a, b, low, high) && SameOutside(a, b, low, high)
    ensures forall x, y | low <= x < y <= high :: b[x] <= b[y]
  {
    JoinRange(b1, b2, b, low, p, high);
    var pv := b1[p];
    RangeBounds(b1, b2, low, p - 1, pv);
    RangeBounds(b2, b, p + 1, high, pv);
    JoinSorted(b, low, p, high);
  }

  lemma JoinRange(b1: seq<int>, b2: seq<int>, b: seq<int>, low: int, p: int, high: int)
    requires 0 <= low <= p <= high < |b1| == |b2| == |b|
    requires SameRange(b1, b2, low, p - 1) && SameOutside(b1, b2, low, p - 1)
    requires SameRange(b2, b, p + 1, high) && SameOutside(b2, b, p + 1, high)
    ensures SameRange(b1, b, low, high)
  {
    WidenRange(b1, b2, low, p - 1, low, high);
    WidenRange(b2, b, p + 1, high, low, high);
  }

  /** A rearrangement of a range that leaves everything outside it in place
      also rearranges any wider range. */
  lemma WidenRange(a: seq<int>, b: seq<int>, lo: int, hi: int, lo': int, hi': int)
    requires 0 <= lo' <= lo <= hi + 1 <= hi' + 1 <= |a| == |b|
    requires SameRange(a, b, lo, hi) && SameOutside(a, b, lo, hi)
    ensures SameRange(a, b, lo', hi')
  {
    SliceSame(a, b, lo', lo);
    SliceSame(a, b, hi + 1, hi' + 1);
    SubParts(a, lo', lo, hi, hi');
    SubParts(b, lo', lo, hi, hi');
  }

  lemma SubParts(s: seq<int>, lo': int, lo: int, hi: int, hi': int)
    requires 0 <= lo' <= lo <= hi + 1 <= hi' + 1 <= |s|
    ensures multiset(s[lo'..hi' + 1]) == multiset(s[lo'..lo]) + multiset(s[lo..hi + 1]) + multiset(s[hi + 1..hi' + 1])
  {
    assert s[lo'..hi' + 1] == s[lo'..lo] + s[lo..hi + 1] + s[hi + 1..hi' + 1];
  }

  lemma JoinSorted(b: seq<int>, low: int, p: int, high: int)
    requires 0 <= low <= p <= high < |b|
    requires forall k | low <= k < p :: b[k] <= b[p]
    requires forall k | p < k <= high :: b[p] <= b[k]
    requires forall x, y | low <= x < y <= p - 1 :: b[x] <= b[y]
    requires forall x, y | p + 1 <= x < y <= high :: b[x] <= b[y]
    ensures forall x, y | low <= x < y <= high :: b[x] <= b[y]
  {
  }

  /** `quick_sort`: `_quick_sort` over the whole slice, when it holds more
      than one entry. */
  method QuickSort(a: seq<int>) returns (b: seq<int>)
    ensures Sorted(b) && multiset(b) == multiset(a)
    ensures |a| < 2 ==> b == a
  {
    if |a| > 1 {
      b := QuickSortRange(a, 0, |a| - 1);
      assert a[0..|a|] == a && b[0..|a|] == b;
    } else {
      b := a;
    }
  }

  // ---------------------------------------------------------------------
  // heapfiy and heap_sort
  // ---------------------------------------------------------------------

  /** Within the first `n` entries, seen as a binary tree with the children
      of `p` at `2p + 1` and `2p + 2`, entry `p` is at least its children. */
  predicate Dominates(b: seq<int>, n: int, p: int)
    requires 0 <= p && n <= |b|
  {
    && (2 * p + 1 < n ==> b[2 * p + 1] <= b[p])
    && (2 * p + 2 < n ==> b[2 * p + 2] <= b[p])
  }

  /** Every parent at index `lo` or beyond is at least its children. */
  predicate HeapFrom(b: seq<int>, n: int, lo: int)
    requires 0 <= lo && n <= |b|
  {
    forall p | lo <= p < n :: Dominates(b, n, p)
  }

  /** As `HeapFrom`, except possibly at the parent `i`; and the parent of
      `i`, if it counts, is at least the children of `i`. This is what
      holds while `heapfiy` sifts an entry down from `i`. */
  predicate HeapBut(b: seq<int>, n: int, lo: int, i: int)
    requires 0 <= lo && 0 <= i < n <= |b|
  {
    && (forall p | lo <= p < n && p != i :: Dominates(b, n, p))
    && (1 <= i && lo <= (i - 1) / 2 && 2 * i + 1 < n ==> b[2 * i + 1] <= b[(i - 1) / 2])
    && (1 <= i && lo <= (i - 1) / 2 && 2 * i + 2 < n ==> b[2 * i + 2] <= b[(i - 1) / 2])
  }

  /** `heapfiy(arr, n, i)`: swap entry `i` with its larger child while a
      child is larger. `lo` names the part of the tree that is already a
      heap apart from `i`; the source keeps it implicit. Only entries from
      `i` to `n - 1` move. */
  method Heapify(a: seq<int>, n: int, i: int, ghost lo: int) returns (b: seq<int>)
    requires 0 <= lo <= i < n <= |a|
    requires HeapBut(a, n, lo, i)
    ensures |b| == |a| && multiset(b) == multiset(a) && SameOutside(a, b, i, n - 1)
    ensures HeapFrom(b, n, lo)
    decreases n - i
  {
    var largest := i;
    var l, r := 2 * i + 1, 2 * i + 2;
    if l < n && a[largest] < a[l] {
      largest := l;
    }
    if r < n && a[largest] < a[r] {
      largest := r;
    }
    if largest != i {
      var s := Swap(a, i, largest);
      SiftStep(a, n, lo, i, largest);
      b := Heapify(s, n, largest, lo);
    } else {
      b := a;
    }
  }

  /** After the swap with the larger child, only the child's place may
      break the heap. */
  lemma SiftStep(a: seq<int>, n: int, lo: int, i: int, c: int)
    requires 0 <= lo <= i < n <= |a| && HeapBut(a, n, lo, i)
    requires c == 2 * i + 1 || c == 2 * i + 2
    requires c < n && a[i] < a[c]
    requires 2 * i + 1 < n ==> a[2 * i + 1] <= a[c]
    requires 2 * i + 2 < n ==> a[2 * i + 2] <= a[c]
    ensures HeapBut(Swap(a, i, c), n, lo, c)
  {
    var s := Swap(a, i, c);
    forall p | lo <= p < n && p != c
      ensures Dominates(s, n, p)
    {
      if p == i {
        if c == 2 * i + 1 {
          assert s[2 * p + 1] == a[i];
        } else {
          assert s[2 * p + 2] == a[i];
        }
      } else if 2 * p + 1 == i || 2 * p + 2 == i {
        assert Dominates(a, n, p);
        assert (i - 1) / 2 == p && s[p] == a[p] && s[i] == a[c];
        assert 2 * p + 1 != c && 2 * p + 2 != c;
      } else {
        assert Dominates(a, n, p);
        assert p < i || p > c || (i < p && p < c);
        assert 2 * p + 1 != c && 2 * p + 2 != c;
        assert s[p] == a[p];
      }
    }
    assert Dominates(a, n, c);
  }

  /** The root of a heap is its largest entry. */
  lemma {:induction false} HeapTop(b: seq<int>, n: int, k: int)
    requires 0 <= k < n <= |b| && HeapFrom(b, n, 0)
    ensures b[k] <= b[0]
    decreases k
  {
    if k > 0 {
      var p := (k - 1) / 2;
      assert Dominates(b, n, p);
      HeapTop(b, n, p);
    }
  }

  /** Swapping the root out of a heap of `i + 1` entries leaves a heap of
      `i` entries that may be broken only at the root. */
  lemma RootSwapped(a: seq<int>, i: int)
    requires 0 < i < |a| && HeapFrom(a, i + 1, 0)
    ensures HeapBut(Swap(a, i, 0), i, 0, 0)
  {
    var s := Swap(a, i, 0);
    forall p | 0 < p < i
      ensures Dominates(s, i, p)
    {
      assert Dominates(a, i + 1, p);
      assert s[p] == a[p];
      assert 2 * p + 1 < i ==> s[2 * p + 1] == a[2 * p + 1];
      assert 2 * p + 2 < i ==> s[2 * p + 2] == a[2 * p + 2];
    }
  }

  /** `heap_sort`: build a heap bottom up, then repeatedly swap its root
      behind the shrinking heap and sift the new root down. */
  method HeapSort(a: seq<int>) returns (b: seq<int>)
    ensures Sorted(b) && multiset(b) == multiset(a)
    ensures |a| < 2 ==> b == a
  {
    var n := |a|;
    b := a;
    if n < 2 {
      return;
    }
    var i := n / 2 - 1;
    while i > -1
      invariant -1 <= i <= n / 2 - 1
      invariant |b| == n && multiset(b) == multiset(a)
      invariant HeapFrom(b, n, i + 1)
    {
      b := Heapify(b, n, i, i);
      i := i - 1;
    }
    i := n - 1;
    while i > 0
      invariant 0 <= i < n
      invariant |b| == n && multiset(b) == multiset(a)
      invariant HeapFrom(b, i + 1, 0)
      invariant forall x, y | i < x < y < n :: b[x] <= b[y]
      invariant forall x, y | 0 <= x <= i < y < n :: b[x] <= b[y]
    {
      b := SortStep(b, i);
      i := i - 1;
    }
  }

  /** One turn of the second loop of `heap_sort`: the root, the largest
      of `arr[..=i]`, goes to place `i`, and the rest becomes a heap
      again. */
  method SortStep(a: seq<int>, i: int) returns (b: seq<int>)
    requires 0 < i < |a| && HeapFrom(a, i + 1, 0)
    requires forall x, y | i < x < y < |a| :: a[x] <= a[y]
    requires forall x, y | 0 <= x <= i < y < |a| :: a[x] <= a[y]
    ensures |b| == |a| && multiset(b) == multiset(a)
    ensures HeapFrom(b, i, 0)
    ensures forall x, y | i - 1 < x < y < |b| :: b[x] <= b[y]
    ensures forall x, y | 0 <= x <= i - 1 < y < |b| :: b[x] <= b[y]
  {
    var s := Swap(a, i, 0);
    SwappedOrder(a, i);
    RootSwapped(a, i);
    b := Heapify(s, i, 0, 0);
    KeepOrder(s, b, i);
  }

  /** After the root, the largest of the heap, is swapped to position `i`,
      the suffix from `i` is sorted and bounds everything before it. */
  lemma SwappedOrder(a: seq<int>, i: int)
    requires 0 < i < |a| && HeapFrom(a, i + 1, 0)
    requires forall x, y | i < x < y < |a| :: a[x] <= a[y]
    requires forall x, y | 0 <= x <= i < y < |a| :: a[x] <= a[y]
    ensures forall x, y | i - 1 < x < y < |a| :: Swap(a, i, 0)[x] <= Swap(a, i, 0)[y]
    ensures forall x, y | 0 <= x <= i - 1 < y < |a| :: Swap(a, i, 0)[x] <= Swap(a, i, 0)[y]
  {
    forall k | 0 <= k <= i
      ensures a[k] <= a[0]
    {
      HeapTop(a, i + 1, k);
    }
  }

  /** Rearranging only the prefix `[0, i)` keeps the sorted suffix and its
      bound over the prefix. */
  lemma KeepOrder(s: seq<int>, b: seq<int>, i: int)
    requires 0 < i < |s| == |b| && multiset(b) == multiset(s) && SameOutside(s, b, 0, i - 1)
    requires forall x, y | i - 1 < x < y < |s| :: s[x] <= s[y]
    requires forall x, y | 0 <= x <= i - 1 < y < |s| :: s[x] <= s[y]
    ensures forall x, y | i - 1 < x < y < |b| :: b[x] <= b[y]
    ensures forall x, y | 0 <= x <= i - 1 < y < |b| :: b[x] <= b[y]
  {
    RangeOfWhole(s, b, 0, i - 1);
    forall y | i <= y < |b|
      ensures forall x | 0 <= x <= i - 1 :: b[x] <= b[y]
    {
      RangeBounds(s, b, 0, i - 1, s[y]);
    }
  }

  lemma ExpectedFacts()
    ensures Sorted([2, 3, 5, 7, 11])
    ensures multiset([2, 3, 5, 7, 11]) == multiset([11, 7, 3, 5, 2])
  {
    SameElements();
  }

  lemma SameElements()
    ensures multiset([2, 3, 5, 7, 11]) == multiset([11, 7, 3, 5, 2])
  {
  }

  /** The `basics` test: every sort turns `[11, 7, 3, 5, 2]` into
      `[2, 3, 5, 7, 11]`. */
  method BasicsScenario() returns (results: seq<seq<int>>)
    ensures |results| == 6
    ensures forall r | r in results :: r == [2, 3, 5, 7, 11]
  {
    var unsorted := [11, 7, 3, 5, 2];
    var expected := [2, 3, 5, 7, 11];
    ExpectedFacts();
    var r1 := SelectionSort(unsorted);
    SortedUnique(r1, expected);
    var r2 := BubbleSort(unsorted);
    SortedUnique(r2, expected);
    var r3 := InsertionSort(unsorted);
    SortedUnique(r3, expected);
    var r4 := MergeSort(unsorted);
    SortedUnique(r4, expected);
    var r5 := QuickSort(unsorted);
    SortedUnique(r5, expected);
    var r6 := HeapSort(unsorted);
    SortedUnique(r6, expected);
    results := [r1, r2, r3, r4, r5, r6];
  }
}
