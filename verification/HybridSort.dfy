/** Quicksort down to short blocks, then one insertion-sort pass over everything. */
module HybridSort {

  const MAX_THRESH := 10

  ghost predicate Sorted(s: seq<real>) {
    forall i, j | 0 <= i < j < |s| :: s[i] <= s[j]
  }

  /** Everything in s[lo..c] is at most everything in s[c..hi]. */
  ghost predicate Separates(s: seq<real>, lo: nat, c: nat, hi: nat) {
    forall p, q | lo <= p < c <= q < hi && q < |s| :: s[p] <= s[q]
  }

  /** A block boundary follows position k within ten places. */
  ghost predicate BoundaryAfter(s: seq<real>, lo: nat, k: nat, hi: nat) {
    exists c: nat :: k < c <= k + MAX_THRESH && c <= hi && Separates(s, lo, c, hi)
  }

  /** s[lo..hi] falls into ordered blocks of at most ten entries. */
  ghost predicate Blocked(s: seq<real>, lo: nat, hi: nat) {
    forall k | lo <= k < hi :: BoundaryAfter(s, lo, k, hi)
  }

  // ----- insertion sort

  /** How many entries of s are greater than v. */
  function Above(s: seq<real>, v: real): (n: nat)
    ensures n <= |s|
  {
    if |s| == 0 then 0 else Above(s[..|s| - 1], v) + if s[|s| - 1] > v then 1 else 0
  }

  /** How many entries in front of i are greater than s[i]. */
  function InversionsAt(s: seq<real>, i: nat): nat
    requires i < |s|
  {
    Above(s[..i], s[i])
  }

  function Inversions(s: seq<real>, n: nat): nat
    requires n <= |s|
  {
    if n == 0 then 0 else Inversions(s, n - 1) + InversionsAt(s, n - 1)
  }

  lemma {:induction false} AboveConcat(s: seq<real>, t: seq<real>, v: real)
    ensures Above(s + t, v) == Above(s, v) + Above(t, v)
  {
    if |t| == 0 {
      assert s + t == s;
    } else {
      AboveConcat(s, t[..|t| - 1], v);
      assert (s + t)[..|s| + |t| - 1] == s + t[..|t| - 1];
    }
  }

  lemma {:induction false} AboveAll(s: seq<real>, v: real)
    requires forall k | 0 <= k < |s| :: s[k] > v
    ensures Above(s, v) == |s|
  {
    if |s| != 0 { AboveAll(s[..|s| - 1], v); }
  }

  lemma {:induction false} AboveNone(s: seq<real>, v: real)
    requires forall k | 0 <= k < |s| :: s[k] <= v
    ensures Above(s, v) == 0
  {
    if |s| != 0 { AboveNone(s[..|s| - 1], v); }
  }

  /** The sequence s with entry i moved forward to position e. */
  function Moved(s: seq<real>, e: nat, i: nat): (t: seq<real>)
    requires e <= i < |s|
    ensures |t| == |s|
  {
    s[..e] + [s[i]] + s[e..i] + s[i + 1..]
  }

  /** Where entry i belongs in the sorted prefix in front of it. */
  ghost predicate IsSlot(s: seq<real>, e: nat, i: nat)
    requires i < |s|
  {
    && e <= i
    && (forall k | 0 <= k < e :: s[k] <= s[i])
    && (forall k | e <= k < i :: s[k] > s[i])
  }

  /** Shifts the greater entries in front of i one place up and inserts entry i below them. */
  method InsertNext(value: array<real>, i: nat) returns (empty: nat)
    requires 0 < i < value.Length && Sorted(value[..i])
    modifies value
    ensures empty <= i && value[..] == Moved(old(value[..]), empty, i)
    ensures IsSlot(old(value[..]), empty, i)
  {
    ghost var s := value[..];
    var current := value[i];
    empty := i;
    while empty > 0 && current < value[empty - 1]
      invariant empty <= i
      invariant forall k | 0 <= k < empty :: value[k] == s[k]
      invariant forall k | empty < k <= i :: value[k] == s[k - 1]
      invariant forall k | empty <= k < i :: s[k] > current
      invariant forall k | i < k < value.Length :: value[k] == s[k]
    {
      value[empty] := value[empty - 1];
      empty := empty - 1;
    }
    value[empty] := current;
    assert forall j, k | 0 <= j < k < i :: s[..i][j] <= s[..i][k];
    if empty > 0 {
      assert s[empty - 1] <= current;
      assert forall k | 0 <= k < empty - 1 :: s[..i][k] <= s[..i][empty - 1];
    }
    assert value[..] == Moved(s, empty, i);
  }

  lemma MovedKeepsSorted(s: seq<real>, e: nat, i: nat)
    requires i < |s| && Sorted(s[..i]) && IsSlot(s, e, i)
    ensures Sorted(Moved(s, e, i)[..i + 1])
  {
    var t := Moved(s, e, i);
    var p := t[..i + 1];
    forall k | 0 <= k <= i
      ensures p[k] == if k < e then s[k] else if k == e then s[i] else s[k - 1]
    {
    }
    hide Moved;
    forall j, k | 0 <= j < k <= i
      ensures p[j] <= p[k]
    {
      assert forall a, b | 0 <= a < b < i :: s[..i][a] <= s[..i][b];
      if j != e && k != e {
        var a, b := if j < e then j else j - 1, if k < e then k else k - 1;
        assert s[..i][a] <= s[..i][b];
      }
    }
  }

  lemma MovedIsPermutation(s: seq<real>, e: nat, i: nat)
    requires e <= i < |s|
    ensures multiset(Moved(s, e, i)) == multiset(s)
  {
    assert s == s[..e] + (s[e..i] + ([s[i]] + s[i + 1..]));
  }

  /** The number of places moved is the number of inversions, and counts in the prefix do not depend on its order. */
  lemma MovedCounts(s: seq<real>, e: nat, i: nat, v: real)
    requires i < |s|
    requires e <= i
    ensures IsSlot(s, e, i) ==> Above(s[..i], s[i]) == i - e
    ensures Above(Moved(s, e, i)[..i + 1], v) == Above(s[..i + 1], v)
  {
    assert s[..i] == s[..e] + s[e..i];
    if IsSlot(s, e, i) {
      AboveConcat(s[..e], s[e..i], s[i]);
      AboveNone(s[..e], s[i]);
      AboveAll(s[e..i], s[i]);
    }
    assert Moved(s, e, i)[..i + 1] == (s[..e] + [s[i]]) + s[e..i];
    assert s[..i + 1] == (s[..e] + s[e..i]) + [s[i]];
    AboveConcat(s[..e] + [s[i]], s[e..i], v);
    AboveConcat(s[..e], [s[i]], v);
    AboveConcat(s[..e] + s[e..i], [s[i]], v);
    AboveConcat(s[..e], s[e..i], v);
  }

  /** Counting the entries above any bound gives the same on both. */
  ghost predicate SameCounts(s: seq<real>, t: seq<real>) {
    forall v :: Above(s, v) == Above(t, v)
  }

  lemma SameCountsNext(t: seq<real>, s: seq<real>, e: nat, i: nat)
    requires e <= i < |s| == |t| && t[i] == s[i] && SameCounts(t[..i], s[..i])
    ensures SameCounts(Moved(t, e, i)[..i + 1], s[..i + 1])
  {
    var p, q := Moved(t, e, i)[..i + 1], s[..i + 1];
    assert t[..i + 1][..i] == t[..i] && q[..i] == s[..i];
    forall v
      ensures Above(p, v) == Above(q, v)
    {
      MovedCounts(t, e, i, v);
      assert Above(t[..i], v) == Above(s[..i], v);
    }
  }

  /** State t of the array after the first i entries of s have been sorted. */
  ghost predicate PrefixSorted(t: seq<real>, s: seq<real>, i: nat) {
    && |t| == |s| && i <= |s|
    && Sorted(t[..i]) && t[i..] == s[i..] && multiset(t) == multiset(s)
    && SameCounts(t[..i], s[..i])
  }

  lemma InsertionAdvances(t: seq<real>, s: seq<real>, e: nat, i: nat)
    requires i < |s| && PrefixSorted(t, s, i) && IsSlot(t, e, i)
    ensures PrefixSorted(Moved(t, e, i), s, i + 1)
    ensures i - e == InversionsAt(s, i)
  {
    hide Sorted, Above;
    assert t[i] == t[i..][0] == s[i..][0] == s[i];
    MovedKeepsSorted(t, e, i);
    MovedIsPermutation(t, e, i);
    SameCountsNext(t, s, e, i);
    MovedCounts(t, e, i, t[i]);
    assert Moved(t, e, i)[i + 1..] == t[i + 1..] == t[i..][1..];
    assert s[i + 1..] == s[i..][1..];
  }

  /** The pass sorts, permutes, and makes exactly as many moves as the input has inversions. */
  method InsertionSort(value: array<real>) returns (ghost moves: nat)
    modifies value
    ensures Sorted(value[..]) && multiset(value[..]) == multiset(old(value[..]))
    ensures moves == Inversions(old(value[..]), value.Length)
  {
    hide Sorted, IsSlot, SameCounts, InversionsAt, Moved;
    ghost var s := value[..];
    moves := 0;
    if value.Length == 0 {
      assert value[..] == value[..0];
      NothingSorted(s, 0);
      return;
    }
    NothingSorted(s, 1);
    for i := 1 to value.Length
      invariant PrefixSorted(value[..], s, i)
      invariant moves == Inversions(s, i)
    {
      ghost var t := value[..];
      assert t[..i] == value[..i];
      var empty := InsertNext(value, i);
      InsertionAdvances(t, s, empty, i);
      moves := moves + (i - empty);
    }
    assert value[..][..value.Length] == value[..];
  }

  lemma NothingSorted(s: seq<real>, i: nat)
    requires i <= 1 && i <= |s|
    ensures PrefixSorted(s, s, i) && Inversions(s, i) == 0 && (i == |s| ==> Sorted(s))
  {
  }

  // ----- quicksort down to short blocks

  /** b lies between a and c. */
  predicate Between(a: real, b: real, c: real) {
    a <= b <= c || c <= b <= a
  }

  /** v is one of x, y and z, and lies between the other two. */
  predicate IsMedian(v: real, x: real, y: real, z: real) {
    (v == x && Between(y, v, z)) || (v == y && Between(x, v, z)) || (v == z && Between(x, v, y))
  }

  lemma ProductSign(x: real, y: real)
    ensures x * y >= 0.0 <==> (x >= 0.0 && y >= 0.0) || (x <= 0.0 && y <= 0.0)
  {
  }

  /** The comparison of the source picks an index whose entry is a median of the three. */
  method ChoosePivot(a: array<real>, low: nat, mid: nat, high: nat) returns (pivot: nat)
    requires low < a.Length && mid < a.Length && high < a.Length
    ensures pivot in {low, mid, high} && IsMedian(a[pivot], a[low], a[mid], a[high])
  {
    ProductSign(a[low] - a[mid], a[high] - a[low]);
    ProductSign(a[mid] - a[low], a[high] - a[mid]);
    if (a[low] - a[mid]) * (a[high] - a[low]) >= 0.0 {
      pivot := low;
    } else if (a[mid] - a[low]) * (a[high] - a[mid]) >= 0.0 {
      pivot := mid;
    } else {
      pivot := high;
    }
  }

  ghost predicate Permutes(s: seq<real>, t: seq<real>) {
    multiset(s) == multiset(t)
  }

  lemma PermutesTrans(s: seq<real>, t: seq<real>, u: seq<real>)
    requires Permutes(s, t) && Permutes(t, u)
    ensures Permutes(s, u)
  {
  }

  method Swap(a: array<real>, i: nat, j: nat)
    requires i < a.Length && j < a.Length
    modifies a
    ensures a[i] == old(a[j]) && a[j] == old(a[i])
    ensures forall k | 0 <= k < a.Length && k != i && k != j :: a[k] == old(a[k])
    ensures Permutes(a[..], old(a[..]))
  {
    var tmp := a[i];
    a[i] := a[j];
    a[j] := tmp;
  }

  /** Entries outside low..high are as they were. */
  twostate predicate OnlyBetween(a: array<real>, low: nat, high: nat)
    reads a
  {
    forall k | 0 <= k < a.Length && !(low <= k <= high) :: a[k] == old(a[k])
  }

  /** The first position from left on, at most high, whose entry is greater than cur. */
  method SkipSmall(a: array<real>, left: nat, high: nat, cur: real) returns (l: nat)
    requires left <= high < a.Length
    ensures left <= l <= high && (forall k | left <= k < l :: a[k] <= cur) && (a[l] > cur || l == high)
  {
    l := left;
    while a[l] <= cur && l < high
      invariant left <= l <= high && forall k | left <= k < l :: a[k] <= cur
      decreases high - l
    {
      l := l + 1;
    }
  }

  /** The last position up to right whose entry is at most cur; the entry at low stops the search. */
  method SkipLarge(a: array<real>, low: nat, right: nat, cur: real) returns (r: nat)
    requires low <= right < a.Length && a[low] <= cur
    ensures low <= r <= right && (forall k | r < k <= right :: a[k] > cur) && a[r] <= cur
  {
    r := right;
    while a[r] > cur
      invariant low <= r <= right && forall k | r < k <= right :: a[k] > cur
      decreases r
    {
      r := r - 1;
    }
  }

  /** Moves entries greater than cur behind the others; cur itself waits at low. */
  method MoveAcross(a: array<real>, low: nat, high: nat, cur: real) returns (right: nat)
    requires low < high < a.Length && a[low] == cur
    modifies a
    ensures low <= right <= high && OnlyBetween(a, low, high) && a[low] == cur
    ensures Permutes(a[..], old(a[..]))
    ensures forall k | low <= k <= right :: a[k] <= cur
    ensures forall k | right < k <= high :: a[k] > cur
  {
    ghost var s := a[..];
    assert Permutes(s, s);
    hide Permutes;
    var left := low;
    right := high;
    while left < right
      invariant low <= left <= high && low <= right <= high
      invariant a[low] == cur && OnlyBetween(a, low, high)
      invariant Permutes(a[..], s)
      invariant forall k | low <= k < left :: a[k] <= cur
      invariant forall k | right < k <= high :: a[k] > cur
      invariant left < right ==> a[left] <= cur && left < high
      invariant left >= right ==> a[right] <= cur
      decreases high - left
    {
      left := SkipSmall(a, left, high, cur);
      right := SkipLarge(a, low, right, cur);
      if left < right {
        ghost var t := a[..];
        Swap(a, right, left);
        PermutesTrans(a[..], t, s);
      }
    }
  }

  /**
   Splits a[low..high] around a median of three: everything in front of the returned position is at most
   the entry there, everything behind it is greater.
   */
  method Partition(a: array<real>, low: nat, high: nat) returns (right: nat)
    requires low < high < a.Length
    modifies a
    ensures low <= right <= high && OnlyBetween(a, low, high)
    ensures Permutes(a[..], old(a[..]))
    ensures forall k | low <= k < right :: a[k] <= a[right]
    ensures forall k | right < k <= high :: a[k] > a[right]
    ensures IsMedian(a[right], old(a[low]), old(a[(low + high) / 2]), old(a[high]))
  {
    hide IsMedian, Permutes;
    ghost var s := a[..];
    var mid := (low + high) / 2;
    var pivot := ChoosePivot(a, low, mid, high);
    var cur := a[pivot];
    // the pivot waits in front while the others are moved
    Swap(a, low, pivot);
    ghost var t := a[..];
    right := MoveAcross(a, low, high, cur);
    PermutesTrans(a[..], t, s);
    t := a[..];
    // and takes the place between the two parts
    Swap(a, low, right);
    PermutesTrans(a[..], t, s);
  }

  // ----- the recursion

  /** s and t agree outside lo..hi. */
  ghost predicate AgreeOutside(s: seq<real>, t: seq<real>, lo: nat, hi: nat) {
    |s| == |t| && lo <= hi <= |s| && s[..lo] == t[..lo] && s[hi..] == t[hi..]
  }

  lemma AgreeFromOnlyBetween(s: seq<real>, t: seq<real>, lo: nat, hi: nat)
    requires |s| == |t| && lo <= hi <= |s|
    requires forall k | 0 <= k < |s| && !(lo <= k < hi) :: s[k] == t[k]
    ensures AgreeOutside(s, t, lo, hi)
  {
  }

  lemma SliceEntries(s: seq<real>, lo: nat, hi: nat)
    requires lo <= hi <= |s|
    ensures multiset(s) == multiset(s[lo..hi]) + (multiset(s[..lo]) + multiset(s[hi..]))
  {
    assert s == s[..lo] + s[lo..hi] + s[hi..];
  }

  /** A rearrangement that changes nothing outside lo..hi rearranges lo..hi, so it keeps bounds there. */
  lemma BoundsKept(s: seq<real>, t: seq<real>, lo: nat, hi: nat, v: real)
    requires Permutes(s, t) && AgreeOutside(s, t, lo, hi)
    ensures (forall k | lo <= k < hi :: t[k] <= v) ==> forall k | lo <= k < hi :: s[k] <= v
    ensures (forall k | lo <= k < hi :: t[k] > v) ==> forall k | lo <= k < hi :: s[k] > v
  {
    SliceEntries(s, lo, hi);
    SliceEntries(t, lo, hi);
    assert multiset(s[lo..hi]) == multiset(s) - (multiset(s[..lo]) + multiset(s[hi..]));
    assert multiset(t[lo..hi]) == multiset(t) - (multiset(t[..lo]) + multiset(t[hi..]));
    forall k | lo <= k < hi
      ensures exists j :: lo <= j < hi && t[j] == s[k]
    {
      assert s[lo..hi][k - lo] in multiset(s[lo..hi]);
      assert s[k] in t[lo..hi];
    }
  }

  lemma BlockedDependsOnSlice(s: seq<real>, t: seq<real>, lo: nat, hi: nat)
    requires Blocked(s, lo, hi) && |s| == |t| && hi <= |s| && forall k | lo <= k < hi :: s[k] == t[k]
    ensures Blocked(t, lo, hi)
  {
    forall k | lo <= k < hi
      ensures BoundaryAfter(t, lo, k, hi)
    {
      assert BoundaryAfter(s, lo, k, hi);
      var c: nat :| k < c <= k + MAX_THRESH && c <= hi && Separates(s, lo, c, hi);
      assert Separates(t, lo, c, hi);
    }
  }

  /** Two blocked parts around a pivot make a blocked whole. */
  lemma BlockedJoin(s: seq<real>, lo: nat, p: nat, hi: nat)
    requires lo <= p < hi <= |s| && Blocked(s, lo, p) && Blocked(s, p + 1, hi)
    requires forall k | lo <= k < p :: s[k] <= s[p]
    requires forall k | p < k < hi :: s[k] > s[p]
    ensures Blocked(s, lo, hi)
  {
    forall k | lo <= k < hi
      ensures BoundaryAfter(s, lo, k, hi)
    {
      if k < p {
        assert BoundaryAfter(s, lo, k, p);
        var c: nat :| k < c <= k + MAX_THRESH && c <= p && Separates(s, lo, c, p);
        assert Separates(s, lo, c, hi);
      } else if k == p {
        assert Separates(s, lo, p + 1, hi);
      } else {
        assert BoundaryAfter(s, p + 1, k, hi);
        var c: nat :| k < c <= k + MAX_THRESH && c <= hi && Separates(s, p + 1, c, hi);
        assert Separates(s, lo, c, hi);
      }
    }
  }

  lemma ShortIsBlocked(s: seq<real>, lo: nat, hi: nat)
    requires hi <= lo + MAX_THRESH
    ensures Blocked(s, lo, hi)
  {
    forall k | lo <= k < hi
      ensures BoundaryAfter(s, lo, k, hi)
    {
      assert Separates(s, lo, hi, hi);
    }
  }

  /** Sorts a[low..high] roughly: into ordered blocks of at most MAX_THRESH entries; one that short is left alone. */
  method QuicksortInner(a: array<real>, low: int, high: int)
    requires 0 <= low <= high + 1 <= a.Length
    modifies a
    ensures AgreeOutside(a[..], old(a[..]), low, high + 1) && Permutes(a[..], old(a[..]))
    ensures Blocked(a[..], low, high + 1)
    ensures high - low < 10 ==> a[..] == old(a[..])
    decreases high - low
  {
    hide Permutes, Blocked, AgreeOutside, IsMedian;
    ghost var s := a[..];
    var length := high - low + 1;
    if high > low && length > MAX_THRESH {
      var pivot := Partition(a, low, high);
      ghost var t := a[..];
      AgreeFromOnlyBetween(t, s, low, high + 1);
      QuicksortInner(a, low, (pivot as int) - 1);
      ghost var u := a[..];
      QuicksortInner(a, pivot + 1, high);
      QuicksortJoins(s, t, u, a[..], low, pivot, high + 1);
    } else {
      SameSequence(s, low, high + 1);
      ShortIsBlocked(s, low, high + 1);
    }
  }

  lemma SameSequence(s: seq<real>, lo: nat, hi: nat)
    requires lo <= hi <= |s|
    ensures AgreeOutside(s, s, lo, hi) && Permutes(s, s)
  {
  }

  /** From s, the partition gives t, sorting the left part u, and sorting the right part v. */
  lemma QuicksortJoins(s: seq<real>, t: seq<real>, u: seq<real>, v: seq<real>, lo: nat, p: nat, hi: nat)
    requires lo <= p < hi <= |t|
    requires AgreeOutside(t, s, lo, hi) && Permutes(t, s)
    requires forall k | lo <= k < p :: t[k] <= t[p]
    requires forall k | p < k < hi :: t[k] > t[p]
    requires AgreeOutside(u, t, lo, p) && Permutes(u, t) && Blocked(u, lo, p)
    requires AgreeOutside(v, u, p + 1, hi) && Permutes(v, u) && Blocked(v, p + 1, hi)
    ensures AgreeOutside(v, s, lo, hi) && Permutes(v, s) && Blocked(v, lo, hi)
  {
    hide Permutes, Blocked;
    PermutesTrans(v, u, t);
    PermutesTrans(v, t, s);
    BoundsKept(u, t, lo, p, t[p]);
    assert forall k | p <= k < hi :: u[k] == u[p..][k - p] == t[p..][k - p] == t[k];
    BoundsKept(v, u, p + 1, hi, t[p]);
    assert forall k | lo <= k <= p :: v[k] == v[..p + 1][k] == u[..p + 1][k] == u[k];
    BlockedDependsOnSlice(u, v, lo, p);
    BlockedJoin(v, lo, p, hi);
    AgreeChain(s, t, u, v, lo, p, hi);
  }

  lemma AgreeChain(s: seq<real>, t: seq<real>, u: seq<real>, v: seq<real>, lo: nat, p: nat, hi: nat)
    requires lo <= p < hi <= |t|
    requires AgreeOutside(t, s, lo, hi) && AgreeOutside(u, t, lo, p) && AgreeOutside(v, u, p + 1, hi)
    ensures AgreeOutside(v, s, lo, hi)
  {
    assert v[..lo] == v[..p + 1][..lo] == u[..p + 1][..lo] == u[..lo];
    assert u[hi..] == u[p..][hi - p..] == t[p..][hi - p..] == t[hi..];
  }

  // ----- the whole sort

  /** In a blocked sequence an entry has at most nine greater ones in front of it. */
  lemma BlockedInversions(s: seq<real>, i: nat)
    requires Blocked(s, 0, |s|) && i < |s|
    ensures InversionsAt(s, i) <= MAX_THRESH - 1
  {
    var far := if i < MAX_THRESH then 0 else i - (MAX_THRESH - 1);
    forall k | 0 <= k < far
      ensures s[k] <= s[i]
    {
      assert BoundaryAfter(s, 0, k, |s|);
      var c: nat :| k < c <= k + MAX_THRESH && c <= |s| && Separates(s, 0, c, |s|);
      assert c <= i;
    }
    assert s[..i] == s[..far] + s[far..i];
    AboveConcat(s[..far], s[far..i], s[i]);
    AboveNone(s[..far], s[i]);
  }

  lemma {:induction false} FewInversions(s: seq<real>, n: nat)
    requires Blocked(s, 0, |s|) && n <= |s|
    ensures Inversions(s, n) <= (MAX_THRESH - 1) * n
  {
    if n != 0 {
      FewInversions(s, n - 1);
      BlockedInversions(s, n - 1);
    }
  }

  /**
   The sort.  rough is the array between the two phases: blocked, so that the insertion pass, which makes one
   move per inversion, moves each entry at most nine places and makes at most nine moves per entry in all.
   */
  method Quicksort(a: array<real>) returns (ghost rough: seq<real>, ghost moves: nat)
    modifies a
    ensures Sorted(a[..]) && multiset(a[..]) == multiset(old(a[..]))
    ensures multiset(rough) == multiset(old(a[..])) && Blocked(rough, 0, |rough|)
    ensures |rough| == a.Length && forall i | 0 <= i < |rough| :: InversionsAt(rough, i) <= 9
    ensures moves == Inversions(rough, |rough|) <= 9 * a.Length
  {
    hide Blocked, Sorted, InversionsAt, Inversions;
    QuicksortInner(a, 0, a.Length - 1);
    rough := a[..];
    moves := InsertionSort(a);
    FewInversions(rough, |rough|);
    forall i | 0 <= i < |rough|
      ensures InversionsAt(rough, i) <= 9
    {
      BlockedInversions(rough, i);
    }
  }
}
