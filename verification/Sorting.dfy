/** The three sorting algorithms on a range of an array. */
module Sorting {
  import opened Arithmetic

  type Less<!T> = (T, T) -> bool

  ghost predicate Transitive<T(!new)>(less: Less<T>) {
    forall x, y, z :: less(x, y) && less(y, z) ==> less(x, z)
  }

  ghost predicate Irreflexive<T(!new)>(less: Less<T>) {
    forall x :: !less(x, x)
  }

  predicate Alike<T>(less: Less<T>, x: T, y: T) {
    !less(x, y) && !less(y, x)
  }

  ghost predicate AlikeTransitive<T(!new)>(less: Less<T>) {
    forall x, y, z :: Alike(less, x, y) && Alike(less, y, z) ==> Alike(less, x, z)
  }

  ghost predicate StrictOrder<T(!new)>(less: Less<T>) {
    Transitive(less) && Irreflexive(less)
  }

  ghost predicate StrictWeakOrder<T(!new)>(less: Less<T>) {
    StrictOrder(less) && AlikeTransitive(less)
  }

  ghost predicate Sorted<T>(s: seq<T>, less: Less<T>) {
    forall i, j :: 0 <= i < j < |s| ==> !less(s[j], s[i])
  }

  /** The same elements, moved only within a range. */
  ghost predicate Rearranged<T>(s: seq<T>, t: seq<T>, lo: nat, hi: nat) {
    lo <= hi <= |s| == |t| && s[..lo] == t[..lo] && s[hi..] == t[hi..] && multiset(s[lo..hi]) == multiset(t[lo..hi])
  }

  lemma RearrangedTwice<T>(s: seq<T>, t: seq<T>, u: seq<T>, lo: nat, hi: nat)
    requires Rearranged(s, t, lo, hi) && Rearranged(t, u, lo, hi)
    ensures Rearranged(s, u, lo, hi)
  {}

  lemma SplitMultiset<T>(s: seq<T>, lo: nat, mid: nat, hi: nat)
    requires lo <= mid <= hi <= |s|
    ensures multiset(s[lo..hi]) == multiset(s[lo..mid]) + multiset(s[mid..hi])
  {
    assert s[lo..hi] == s[lo..mid] + s[mid..hi];
  }

  lemma SameParts<T>(s: seq<T>, t: seq<T>, lo: nat, i: nat, j: nat, hi: nat)
    requires lo <= i <= j <= hi <= |s| == |t| && s[..i] == t[..i] && s[j..] == t[j..]
    ensures s[..lo] == t[..lo] && s[hi..] == t[hi..] && s[lo..i] == t[lo..i] && s[j..hi] == t[j..hi]
  {
    assert s[lo..i] == s[..i][lo..] && t[lo..i] == t[..i][lo..];
    assert s[j..hi] == s[j..][..hi - j] && t[j..hi] == t[j..][..hi - j];
    assert s[hi..] == s[j..][hi - j..] && t[hi..] == t[j..][hi - j..];
    assert s[..lo] == s[..i][..lo] && t[..lo] == t[..i][..lo];
  }

  /** A rearrangement within a part of a range is one within the range. */
  lemma RearrangedWider<T>(s: seq<T>, t: seq<T>, lo: nat, i: nat, j: nat, hi: nat)
    requires lo <= i <= j <= hi <= |s| && Rearranged(s, t, i, j)
    ensures Rearranged(s, t, lo, hi)
  {
    SameParts(s, t, lo, i, j, hi);
    SplitMultiset(s, lo, i, hi);
    SplitMultiset(s, i, j, hi);
    SplitMultiset(t, lo, i, hi);
    SplitMultiset(t, i, j, hi);
  }

  // ----- quick sort -----

  function Swapped<T>(s: seq<T>, i: nat, j: nat): (t: seq<T>)
    requires i < |s| && j < |s|
    ensures |t| == |s|
  {
    s[i := s[j]][j := s[i]]
  }

  lemma SwappedRearranged<T>(s: seq<T>, i: nat, j: nat, lo: nat, hi: nat)
    requires lo <= i < j < hi <= |s|
    ensures Rearranged(s, Swapped(s, i, j), lo, hi)
  {
    var t := Swapped(s, i, j);
    assert t[..lo] == s[..lo] && t[hi..] == s[hi..];
    assert t[lo..hi] == s[lo..hi][i - lo := s[j]][j - lo := s[i]];
    SwapMultiset(s[lo..hi], i - lo, j - lo);
  }

  lemma SwapMultiset<T>(s: seq<T>, i: nat, j: nat)
    requires i < |s| && j < |s|
    ensures multiset(s[i := s[j]][j := s[i]]) == multiset(s)
  {}

  /** Everything before `left` goes before the pivot, and nothing after `right` does. */
  ghost predicate Parted<T>(v: seq<T>, lo: nat, left: nat, right: nat, hi: nat, pivot: T, less: Less<T>) {
    lo <= left <= right < hi <= |v|
    && (forall k :: lo <= k < left ==> less(v[k], pivot))
    && (forall k :: right < k < hi ==> !less(v[k], pivot))
  }

  /** The pivot is lifted out of the first place, which leaves a hole; elements are moved into the
      hole from alternate ends until both ends meet, and the pivot is put back there. */
  method Partition<T>(a: array<T>, lo: nat, hi: nat, less: Less<T>) returns (left: nat)
    requires lo < hi <= a.Length
    modifies a
    ensures Rearranged(old(a[..]), a[..], lo, hi)
    ensures lo <= left < hi && Parted(a[..], lo, left, left, hi, a[left], less)
  {
    hide Swapped, Parted, Rearranged;
    left := lo;
    var right := hi - 1;
    var pivot := a[left];
    ghost var v := a[..];
    StartParted(v, lo, hi, less);
    ghost var was := a[..];
    while left < right
      invariant lo <= left <= right < hi && v == a[..][left := pivot]
      invariant Parted(v, lo, left, right, hi, pivot, less) && Rearranged(was, v, lo, hi)
    {
      right := ScanRight(a, v, lo, left, right, hi, pivot, less);
      if left < right {
        FillLeft(a[..], v, lo, left, right, hi, pivot, less);
        SwapKeeps(was, v, left, right, lo, hi);
        v := Swapped(v, left, right);
        a[left] := a[right];
        left := left + 1;
        left := ScanLeft(a, v, lo, left, right, hi, pivot, less);
        if left < right {
          FillRight(a[..], v, lo, left, right, hi, pivot, less);
          SwapKeeps(was, v, left, right, lo, hi);
          v := Swapped(v, left, right);
          a[right] := a[left];
          right := right - 1;
        }
      }
    }
    a[left] := pivot;
    assert a[..] == v;
    EndParted(v, lo, left, right, hi, pivot, less);
  }

  lemma StartParted<T>(v: seq<T>, lo: nat, hi: nat, less: Less<T>)
    requires lo < hi <= |v|
    ensures Parted(v, lo, lo, hi - 1, hi, v[lo], less) && Rearranged(v, v, lo, hi) && v == v[lo := v[lo]]
  {}

  lemma EndParted<T>(v: seq<T>, lo: nat, left: nat, right: nat, hi: nat, pivot: T, less: Less<T>)
    requires Parted(v, lo, left, right, hi, pivot, less) && right <= left
    ensures left == right
  {}

  /** The right end moves down over elements that stay; the hole is on the left. */
  method ScanRight<T>(a: array<T>, ghost v: seq<T>, lo: nat, left: nat, right: nat, hi: nat, pivot: T, less: Less<T>)
    returns (r: nat)
    requires hi <= a.Length && Parted(v, lo, left, right, hi, pivot, less) && v == a[..][left := pivot]
    ensures left <= r <= right && Parted(v, lo, left, r, hi, pivot, less)
    ensures left < r ==> less(a[r], pivot)
  {
    r := right;
    while left < r && !less(a[r], pivot)
      invariant left <= r <= right && Parted(v, lo, left, r, hi, pivot, less)
    {
      assert v[r] == a[r];
      r := r - 1;
    }
  }

  method ScanLeft<T>(a: array<T>, ghost v: seq<T>, lo: nat, left: nat, right: nat, hi: nat, pivot: T, less: Less<T>)
    returns (l: nat)
    requires hi <= a.Length && Parted(v, lo, left, right, hi, pivot, less) && v == a[..][right := pivot]
    ensures left <= l <= right && Parted(v, lo, l, right, hi, pivot, less)
    ensures l < right ==> !less(a[l], pivot)
  {
    l := left;
    while l < right && less(a[l], pivot)
      invariant left <= l <= right && Parted(v, lo, l, right, hi, pivot, less)
    {
      assert v[l] == a[l];
      l := l + 1;
    }
  }

  /** An element that goes before the pivot moves into the hole on the left. */
  lemma FillLeft<T>(s: seq<T>, v: seq<T>, lo: nat, left: nat, right: nat, hi: nat, pivot: T, less: Less<T>)
    requires left < right < |s| && v == s[left := pivot] && less(s[right], pivot)
    requires Parted(v, lo, left, right, hi, pivot, less)
    ensures Parted(Swapped(v, left, right), lo, left + 1, right, hi, pivot, less)
    ensures Swapped(v, left, right) == s[left := s[right]][right := pivot]
  {}

  lemma FillRight<T>(s: seq<T>, v: seq<T>, lo: nat, left: nat, right: nat, hi: nat, pivot: T, less: Less<T>)
    requires left < right < |s| && v == s[right := pivot] && !less(s[left], pivot)
    requires Parted(v, lo, left, right, hi, pivot, less)
    ensures Parted(Swapped(v, left, right), lo, left, right - 1, hi, pivot, less)
    ensures Swapped(v, left, right) == s[right := s[left]][left := pivot]
  {}

  lemma SwapKeeps<T>(was: seq<T>, v: seq<T>, left: nat, right: nat, lo: nat, hi: nat)
    requires Rearranged(was, v, lo, hi) && lo <= left < right < hi
    ensures Rearranged(was, Swapped(v, left, right), lo, hi)
  {
    hide Swapped;
    SwappedRearranged(v, left, right, lo, hi);
    RearrangedTwice(was, v, Swapped(v, left, right), lo, hi);
  }

  /** A permutation for every comparison, and in order for every strict one. */
  method QuickSort<T(!new)>(a: array<T>, lo: nat, hi: nat, less: Less<T>)
    requires lo <= hi <= a.Length
    modifies a
    ensures StrictOrder(less) ==> Sorted(a[lo..hi], less)
    ensures Rearranged(old(a[..]), a[..], lo, hi)
    decreases hi - lo
  {
    hide Rearranged, Parted, Sorted, StrictOrder;
    NothingSorted(a[..], lo, less);
    if lo == hi {
      return;
    }
    var left := Partition(a, lo, hi, less);
    ghost var pivot := a[left];
    ghost var p := a[..];
    QuickSort(a, lo, left, less);
    ghost var q := a[..];
    LeftKept(p, q, lo, left, hi, pivot, less);
    QuickSort(a, left + 1, hi, less);
    ghost var r := a[..];
    RightKept(q, r, lo, left, hi, pivot, less);
    RearrangedWider(p, q, lo, lo, left, hi);
    RearrangedWider(q, r, lo, left + 1, hi, hi);
    RearrangedTwice(p, q, r, lo, hi);
    RearrangedTwice(old(a[..]), p, r, lo, hi);
    if StrictOrder(less) { JoinSorted(r, lo, left, hi, pivot, less); }
  }

  lemma NothingSorted<T>(s: seq<T>, lo: nat, less: Less<T>)
    requires lo <= |s|
    ensures Sorted(s[lo..lo], less) && Rearranged(s, s, lo, lo)
  {}

  lemma {:induction false} MemberOf<T>(s: seq<T>, t: seq<T>, lo: nat, hi: nat, k: nat)
    requires Rearranged(s, t, lo, hi) && lo <= k < hi
    ensures exists j :: lo <= j < hi && s[j] == t[k]
  {
    assert t[lo..hi][k - lo] == t[k];
    assert t[k] in multiset(s[lo..hi]);
    var j :| 0 <= j < hi - lo && s[lo..hi][j] == t[k];
    assert s[lo + j] == t[k];
  }

  lemma LeftKept<T>(p: seq<T>, q: seq<T>, lo: nat, left: nat, hi: nat, pivot: T, less: Less<T>)
    requires Parted(p, lo, left, left, hi, pivot, less) && p[left] == pivot && Rearranged(p, q, lo, left)
    ensures Parted(q, lo, left, left, hi, pivot, less) && q[left] == pivot
  {
    forall k | lo <= k < left ensures less(q[k], pivot) {
      MemberOf(p, q, lo, left, k);
    }
    forall k | left <= k < hi ensures q[k] == p[k] {
      assert p[left..][k - left] == q[left..][k - left];
    }
  }

  lemma RightKept<T>(q: seq<T>, r: seq<T>, lo: nat, left: nat, hi: nat, pivot: T, less: Less<T>)
    requires Parted(q, lo, left, left, hi, pivot, less) && q[left] == pivot && Rearranged(q, r, left + 1, hi)
    ensures Parted(r, lo, left, left, hi, pivot, less) && r[left] == pivot && r[lo..left] == q[lo..left]
  {
    forall k | left < k < hi ensures !less(r[k], pivot) {
      MemberOf(q, r, left + 1, hi, k);
    }
    forall k | lo <= k <= left ensures r[k] == q[k] {
      assert q[..left + 1][k] == r[..left + 1][k];
    }
  }

  lemma JoinSorted<T(!new)>(r: seq<T>, lo: nat, left: nat, hi: nat, pivot: T, less: Less<T>)
    requires StrictOrder(less) && Parted(r, lo, left, left, hi, pivot, less) && r[left] == pivot
    requires Sorted(r[lo..left], less) && Sorted(r[left + 1..hi], less)
    ensures Sorted(r[lo..hi], less)
  {
    forall i, j | lo <= i < j < hi ensures !less(r[j], r[i]) {
      if j < left {
        assert !less(r[lo..left][j - lo], r[lo..left][i - lo]);
      } else if i > left {
        assert !less(r[left + 1..hi][j - left - 1], r[left + 1..hi][i - left - 1]);
      }
    }
  }

  // ----- merge sort -----

  /** Two lists merged; of elements that are alike, those of the first come first. */
  function Merged<T>(l: seq<T>, r: seq<T>, less: Less<T>): (m: seq<T>)
    ensures |m| == |l| + |r|
    decreases |l| + |r|
  {
    if l == [] then r
    else if r == [] then l
    else if less(r[0], l[0]) then [r[0]] + Merged(l, r[1..], less)
    else [l[0]] + Merged(l[1..], r, less)
  }

  function MergeSorted<T>(s: seq<T>, less: Less<T>): (m: seq<T>)
    ensures |m| == |s|
    decreases |s|
  {
    if |s| <= 1 then s
    else Merged(MergeSorted(s[..|s| / 2], less), MergeSorted(s[|s| / 2..], less), less)
  }

  /** The elements that are alike `x`, in their order. */
  function Class<T>(s: seq<T>, x: T, less: Less<T>): seq<T> {
    if s == [] then []
    else (if Alike(less, s[0], x) then [s[0]] else []) + Class(s[1..], x, less)
  }

  lemma ClassStep<T>(s: seq<T>, x: T, less: Less<T>)
    ensures Class(s, x, less) ==
      if s == [] then [] else (if Alike(less, s[0], x) then [s[0]] else []) + Class(s[1..], x, less)
  {
    hide Alike;
  }

  lemma {:induction false} ClassConcat<T>(s: seq<T>, t: seq<T>, x: T, less: Less<T>)
    ensures Class(s + t, x, less) == Class(s, x, less) + Class(t, x, less)
    decreases |s|
  {
    hide Alike, Class;
    ClassStep(s, x, less);
    if s == [] {
      assert s + t == t;
    } else {
      var u := s + t;
      ClassStep(u, x, less);
      assert u[0] == s[0] && u[1..] == s[1..] + t;
      ClassConcat(s[1..], t, x, less);
    }
  }

  lemma ClassHead<T>(s: seq<T>, x: T, less: Less<T>)
    requires s != []
    ensures Class([s[0]], x, less) == if Alike(less, s[0], x) then [s[0]] else []
    ensures Class(s, x, less) == Class([s[0]], x, less) + Class(s[1..], x, less)
  {}

  lemma {:induction false} ClassNone<T>(s: seq<T>, x: T, less: Less<T>)
    requires forall i :: 0 <= i < |s| ==> !Alike(less, s[i], x)
    ensures Class(s, x, less) == []
  {
    if s != [] { ClassNone(s[1..], x, less); }
  }

  /** An element that goes before the head of a sorted list is alike none of the list. */
  lemma BeforeAll<T(!new)>(l: seq<T>, y: T, x: T, less: Less<T>)
    requires StrictWeakOrder(less) && Sorted(l, less) && l != [] && less(y, l[0]) && Alike(less, y, x)
    ensures Class(l, x, less) == []
  {
    forall i | 0 <= i < |l| ensures !Alike(less, l[i], x) {
      assert !less(l[i], l[0]);
      LessThrough(y, l[0], l[i], less);
      NotAlike(y, l[i], x, less);
    }
    ClassNone(l, x, less);
  }

  lemma NotAlike<T(!new)>(y: T, z: T, x: T, less: Less<T>)
    requires StrictWeakOrder(less) && less(y, z) && Alike(less, y, x)
    ensures !Alike(less, z, x)
  {
    assert Alike(less, x, y) && !Alike(less, z, y);
  }

  lemma LessThrough<T(!new)>(x: T, y: T, z: T, less: Less<T>)
    requires StrictWeakOrder(less) && less(x, y) && !less(z, y)
    ensures less(x, z)
  {
    if !less(y, z) {
      assert Alike(less, z, y);
      assert !Alike(less, x, z);
    }
  }

  lemma {:induction false} MergedClass<T(!new)>(l: seq<T>, r: seq<T>, x: T, less: Less<T>)
    requires StrictWeakOrder(less) && Sorted(l, less)
    ensures Class(Merged(l, r, less), x, less) == Class(l, x, less) + Class(r, x, less)
    decreases |l| + |r|
  {
    hide StrictWeakOrder, Merged, Class, Sorted;
    ClassNone([], x, less);
    if l == [] || r == [] {
      MergedEnd(l, r, less);
      ClassConcat(l, r, x, less);
    } else {
      MergedStep(l, r, less);
      ClassHead(l, x, less);
      ClassHead(r, x, less);
      if less(r[0], l[0]) {
        MergedClass(l, r[1..], x, less);
        ClassConcat([r[0]], Merged(l, r[1..], less), x, less);
        if Alike(less, r[0], x) { BeforeAll(l, r[0], x, less); }
      } else {
        SortedTail(l, less);
        MergedClass(l[1..], r, x, less);
        ClassConcat([l[0]], Merged(l[1..], r, less), x, less);
      }
    }
  }

  lemma {:induction false} MergedMultiset<T>(l: seq<T>, r: seq<T>, less: Less<T>)
    ensures multiset(Merged(l, r, less)) == multiset(l) + multiset(r)
    decreases |l| + |r|
  {
    if l == [] || r == [] {
    } else if less(r[0], l[0]) {
      assert r == [r[0]] + r[1..];
      MergedMultiset(l, r[1..], less);
    } else {
      assert l == [l[0]] + l[1..];
      MergedMultiset(l[1..], r, less);
    }
  }

  lemma SortedCons<T>(x: T, s: seq<T>, less: Less<T>)
    requires Sorted(s, less) && forall y :: y in multiset(s) ==> !less(y, x)
    ensures Sorted([x] + s, less)
  {
    forall i, j | 0 <= i < j < |s| + 1 ensures !less(([x] + s)[j], ([x] + s)[i]) {
      assert ([x] + s)[j] == s[j - 1];
      if i == 0 { assert s[j - 1] in multiset(s); }
    }
  }

  /** No element of a sorted list goes before what does not come after its head. */
  lemma NoneBefore<T(!new)>(s: seq<T>, x: T, less: Less<T>)
    requires StrictWeakOrder(less) && Sorted(s, less) && (s == [] || !less(s[0], x))
    ensures forall y :: y in multiset(s) ==> !less(y, x)
  {
    forall y | y in multiset(s) ensures !less(y, x) {
      var i :| 0 <= i < |s| && s[i] == y;
      assert !less(y, s[0]);
      if less(y, x) { LessThrough(y, x, s[0], less); }
    }
  }

  lemma {:induction false} MergedSorted<T(!new)>(l: seq<T>, r: seq<T>, less: Less<T>)
    requires StrictWeakOrder(less) && Sorted(l, less) && Sorted(r, less)
    ensures Sorted(Merged(l, r, less), less)
    decreases |l| + |r|
  {
    hide StrictWeakOrder;
    if l == [] || r == [] {
    } else {
      assert Sorted(l[1..], less) && Sorted(r[1..], less);
      var rest, x;
      if less(r[0], l[0]) {
        x, rest := r[0], Merged(l, r[1..], less);
        MergedSorted(l, r[1..], less);
        MergedMultiset(l, r[1..], less);
        NotBoth(r[0], l[0], less);
        NoneBefore(l, x, less);
        NoneBeforeTail(r, less);
      } else {
        x, rest := l[0], Merged(l[1..], r, less);
        MergedSorted(l[1..], r, less);
        MergedMultiset(l[1..], r, less);
        NoneBefore(r, x, less);
        NoneBeforeTail(l, less);
      }
      SortedCons(x, rest, less);
    }
  }

  lemma NotBoth<T(!new)>(x: T, y: T, less: Less<T>)
    requires StrictWeakOrder(less) && less(x, y)
    ensures !less(y, x)
  {
    assert !less(x, x);
  }

  lemma NoneBeforeTail<T>(s: seq<T>, less: Less<T>)
    requires Sorted(s, less) && s != []
    ensures forall y :: y in multiset(s[1..]) ==> !less(y, s[0])
  {
    forall y | y in multiset(s[1..]) ensures !less(y, s[0]) {
      var i :| 0 <= i < |s| - 1 && s[1..][i] == y;
      assert y == s[i + 1];
    }
  }

  lemma ShortSorted<T>(s: seq<T>, less: Less<T>)
    requires |s| <= 1
    ensures Sorted(s, less)
  {}

  /** Merge sort gives a permutation in order that keeps elements that are alike in their order. */
  lemma {:induction false} MergeSortStable<T(!new)>(s: seq<T>, less: Less<T>, x: T)
    requires StrictWeakOrder(less)
    ensures var m := MergeSorted(s, less);
            Sorted(m, less) && multiset(m) == multiset(s) && Class(m, x, less) == Class(s, x, less)
    decreases |s|
  {
    hide StrictWeakOrder, Merged, MergeSorted, Class, Sorted;
    MergeSteps(s, less);
    if |s| <= 1 {
      ShortSorted(s, less);
    } else {
      var (a, b) := (s[..|s| / 2], s[|s| / 2..]);
      MergeSortStable(a, less, x);
      MergeSortStable(b, less, x);
      MergedSorted(MergeSorted(a, less), MergeSorted(b, less), less);
      MergedMultiset(MergeSorted(a, less), MergeSorted(b, less), less);
      MergedClass(MergeSorted(a, less), MergeSorted(b, less), x, less);
      ClassConcat(a, b, x, less);
      assert s == a + b;
    }
  }

  /** There is only one such arrangement. */
  lemma {:induction false} StableUnique<T(!new)>(s: seq<T>, t: seq<T>, less: Less<T>)
    requires StrictWeakOrder(less) && Sorted(s, less) && Sorted(t, less)
    requires forall x :: Class(s, x, less) == Class(t, x, less)
    ensures s == t
    decreases |s|
  {
    hide StrictWeakOrder, Class, Sorted;
    if s != [] && t != [] {
      assert Class(s, s[0], less) == Class(t, s[0], less);
      assert Class(s, t[0], less) == Class(t, t[0], less);
      HeadsEqual(s, t, less);
      SortedTail(s, less);
      SortedTail(t, less);
      forall x ensures Class(s[1..], x, less) == Class(t[1..], x, less) {
        assert Class(s, x, less) == Class(t, x, less);
        ClassTail(s, x, less);
        ClassTail(t, x, less);
      }
      StableUnique(s[1..], t[1..], less);
      assert s == [s[0]] + s[1..] && t == [t[0]] + t[1..];
    } else if s != [] {
      assert Class(s, s[0], less) == Class(t, s[0], less);
      HeadInClass(s, less);
      ClassNone(t, s[0], less);
    } else if t != [] {
      assert Class(s, t[0], less) == Class(t, t[0], less);
      HeadInClass(t, less);
      ClassNone(s, t[0], less);
    }
  }

  lemma SortedTail<T>(s: seq<T>, less: Less<T>)
    requires Sorted(s, less) && s != []
    ensures Sorted(s[1..], less)
  {}

  lemma ClassTail<T>(s: seq<T>, x: T, less: Less<T>)
    requires s != []
    ensures Class(s[1..], x, less) == if Alike(less, s[0], x) then Class(s, x, less)[1..] else Class(s, x, less)
  {}

  lemma HeadInClass<T(!new)>(s: seq<T>, less: Less<T>)
    requires s != [] && StrictWeakOrder(less)
    ensures Class(s, s[0], less) != [] && Class(s, s[0], less)[0] == s[0]
  {}

  lemma {:induction false} ClassMember<T>(s: seq<T>, x: T, less: Less<T>)
    requires Class(s, x, less) != []
    ensures exists i :: 0 <= i < |s| && s[i] == Class(s, x, less)[0] && Alike(less, s[i], x)
  {
    if Alike(less, s[0], x) {
      assert s[0] == Class(s, x, less)[0];
    } else {
      ClassMember(s[1..], x, less);
      var i :| 0 <= i < |s| - 1 && s[1..][i] == Class(s[1..], x, less)[0] && Alike(less, s[1..][i], x);
      assert s[i + 1] == s[1..][i];
    }
  }

  lemma HeadsEqual<T(!new)>(s: seq<T>, t: seq<T>, less: Less<T>)
    requires StrictWeakOrder(less) && Sorted(s, less) && Sorted(t, less) && s != [] && t != []
    requires Class(s, s[0], less) == Class(t, s[0], less) && Class(s, t[0], less) == Class(t, t[0], less)
    ensures s[0] == t[0]
  {
    HeadInClass(s, less);
    HeadInClass(t, less);
    ClassMember(t, s[0], less);
    ClassMember(s, t[0], less);
    var i :| 0 <= i < |t| && t[i] == s[0];
    var j :| 0 <= j < |s| && s[j] == t[0];
    assert !less(s[0], t[0]) || i == 0;
    assert !less(t[0], s[0]) || j == 0;
    if i != 0 && j != 0 {
      assert Alike(less, t[0], s[0]);
    }
  }

  /** Both halves are sorted, merged into a buffer, and moved back. */
  method MergeSort<T>(a: array<T>, lo: nat, hi: nat, less: Less<T>)
    requires lo <= hi <= a.Length
    modifies a
    ensures a[lo..hi] == MergeSorted(old(a[lo..hi]), less)
    ensures a[..lo] == old(a[..lo]) && a[hi..] == old(a[hi..])
    decreases hi - lo
  {
    hide Merged, MergeSorted;
    ghost var s := a[..];
    MergeSteps(a[lo..hi], less);
    var len := hi - lo;
    if len <= 1 {
      return;
    }
    var mid := lo + len / 2;
    Halves(s, lo, mid, hi);
    MergeSort(a, lo, mid, less);
    ghost var t := a[..];
    SameOutside(s, t, lo, mid, hi);
    MergeSort(a, mid, hi, less);
    ghost var u := a[..];
    SameBefore(t, u, lo, mid, hi);
    var temp := MergeInto(a, lo, mid, hi, less);
    MoveBack(a, lo, hi, temp);
  }

  lemma MergeSteps<T>(s: seq<T>, less: Less<T>)
    ensures MergeSorted(s, less) ==
      if |s| <= 1 then s else Merged(MergeSorted(s[..|s| / 2], less), MergeSorted(s[|s| / 2..], less), less)
  {}

  lemma Halves<T>(s: seq<T>, lo: nat, mid: nat, hi: nat)
    requires lo <= mid <= hi <= |s|
    ensures s[lo..hi][..mid - lo] == s[lo..mid] && s[lo..hi][mid - lo..] == s[mid..hi]
  {}

  lemma SameOutside<T>(s: seq<T>, t: seq<T>, lo: nat, mid: nat, hi: nat)
    requires lo <= mid <= hi <= |s| == |t| && s[mid..] == t[mid..]
    ensures s[mid..hi] == t[mid..hi] && s[hi..] == t[hi..]
  {
    assert s[hi..] == s[mid..][hi - mid..] && t[hi..] == t[mid..][hi - mid..];
    assert s[mid..hi] == s[mid..][..hi - mid] && t[mid..hi] == t[mid..][..hi - mid];
  }

  lemma SameBefore<T>(s: seq<T>, t: seq<T>, lo: nat, mid: nat, hi: nat)
    requires lo <= mid <= hi <= |s| == |t| && s[..mid] == t[..mid]
    ensures s[lo..mid] == t[lo..mid] && s[..lo] == t[..lo]
  {
    assert s[..lo] == s[..mid][..lo] && t[..lo] == t[..mid][..lo];
    assert s[lo..mid] == s[..mid][lo..] && t[lo..mid] == t[..mid][lo..];
  }

  method MoveBack<T>(a: array<T>, lo: nat, hi: nat, temp: seq<T>)
    requires lo <= hi <= a.Length && |temp| == hi - lo
    modifies a
    ensures a[lo..hi] == temp && a[..lo] == old(a[..lo]) && a[hi..] == old(a[hi..])
  {
    var k := 0;
    while k < |temp|
      invariant k <= |temp|
      invariant forall i :: 0 <= i < a.Length ==> a[i] == if lo <= i < lo + k then temp[i - lo] else old(a[i])
    {
      a[lo + k] := temp[k];
      k := k + 1;
    }
  }

  /** The loop that takes the lesser head, and the loops that take what is left. */
  method MergeInto<T>(a: array<T>, lo: nat, mid: nat, hi: nat, less: Less<T>) returns (temp: seq<T>)
    requires lo <= mid <= hi <= a.Length
    ensures temp == Merged(a[lo..mid], a[mid..hi], less)
  {
    hide Merged;
    var left, right;
    temp, left, right := MergeHeads(a, lo, mid, hi, less);
    ghost var merged := temp;
    MergedEnd(a[left..mid], a[right..hi], less);
    temp := Drain(a, left, mid, temp);
    temp := Drain(a, right, hi, temp);
    Associate(merged, a[left..mid], a[right..hi]);
  }

  lemma Associate<T>(a: seq<T>, b: seq<T>, c: seq<T>)
    ensures a + b + c == a + (b + c)
  {}

  method MergeHeads<T>(a: array<T>, lo: nat, mid: nat, hi: nat, less: Less<T>) returns (temp: seq<T>, left: nat, right: nat)
    requires lo <= mid <= hi <= a.Length
    ensures lo <= left <= mid <= right <= hi && (left == mid || right == hi)
    ensures temp + Merged(a[left..mid], a[right..hi], less) == Merged(a[lo..mid], a[mid..hi], less)
  {
    hide Merged;
    temp := [];
    left, right := lo, mid;
    while left != mid && right != hi
      invariant lo <= left <= mid <= right <= hi
      invariant temp + Merged(a[left..mid], a[right..hi], less) == Merged(a[lo..mid], a[mid..hi], less)
      decreases mid - left + hi - right
    {
      MergedNext(a[..], left, mid, right, hi, temp, less);
      if less(a[right], a[left]) {
        temp := temp + [a[right]];
        right := right + 1;
      } else {
        temp := temp + [a[left]];
        left := left + 1;
      }
    }
  }

  method Drain<T>(a: array<T>, from: nat, end: nat, temp: seq<T>) returns (t: seq<T>)
    requires from <= end <= a.Length
    ensures t == temp + a[from..end]
  {
    t := temp;
    var k := from;
    assert a[from..from] == [] && temp + [] == temp;
    while k != end
      invariant from <= k <= end && t == temp + a[from..k]
      decreases end - k
    {
      assert a[from..k + 1] == a[from..k] + [a[k]];
      Associate(temp, a[from..k], [a[k]]);
      t := t + [a[k]];
      k := k + 1;
    }
  }

  lemma MergedNext<T>(a: seq<T>, i: nat, mid: nat, j: nat, hi: nat, temp: seq<T>, less: Less<T>)
    requires i < mid <= j < hi <= |a|
    ensures temp + Merged(a[i..mid], a[j..hi], less) ==
      if less(a[j], a[i]) then temp + [a[j]] + Merged(a[i..mid], a[j + 1..hi], less)
      else temp + [a[i]] + Merged(a[i + 1..mid], a[j..hi], less)
  {
    hide Merged;
    var (l, r) := (a[i..mid], a[j..hi]);
    MergedStep(l, r, less);
    assert l[1..] == a[i + 1..mid] && r[1..] == a[j + 1..hi];
    Associate(temp, [a[j]], Merged(l, r[1..], less));
    Associate(temp, [a[i]], Merged(l[1..], r, less));
  }

  lemma MergedStep<T>(l: seq<T>, r: seq<T>, less: Less<T>)
    requires l != [] && r != []
    ensures Merged(l, r, less) ==
      if less(r[0], l[0]) then [r[0]] + Merged(l, r[1..], less) else [l[0]] + Merged(l[1..], r, less)
  {}

  lemma MergedEnd<T>(l: seq<T>, r: seq<T>, less: Less<T>)
    requires l == [] || r == []
    ensures Merged(l, r, less) == l + r
  {}

  // ----- radix sort -----

  /** Bit k of a number in two's complement, as a shift and a mask give it. */
  function Bit(x: int, k: nat): int {
    x / Power2(k) % 2
  }

  /** The lowest k bits of a number, read without sign. */
  function Low(x: int, k: nat): (n: nat)
    ensures n < Power2(k)
  {
    x % Power2(k)
  }

  lemma LowBit(x: int, k: nat)
    ensures Low(x, k + 1) == Bit(x, k) * Power2(k) + Low(x, k)
  {
    var p := Power2(k);
    var (q, r) := (x / p, x % p);
    var (h, b) := (q / 2, q % 2);
    assert x == q * p + r && q == 2 * h + b;
    assert x == h * (2 * p) + (b * p + r) by { assert q * p == 2 * h * p + b * p; }
    assert 0 <= b * p + r < 2 * p by { if b == 0 { assert b * p == 0; } else { assert b * p == p; } }
    Divided(x, 2 * p, h, b * p + r);
  }

  /** The elements with bit k equal to b, in their order. */
  function WithBit(s: seq<int>, k: nat, b: int): seq<int> {
    if s == [] then []
    else (if Bit(s[0], k) == b then [s[0]] else []) + WithBit(s[1..], k, b)
  }

  /** One pass: the elements with the bit set, then the others. */
  function Pass(s: seq<int>, k: nat): seq<int> {
    WithBit(s, k, 1) + WithBit(s, k, 0)
  }

  function Passes(s: seq<int>, bits: nat): seq<int> {
    if bits == 0 then s else Pass(Passes(s, bits - 1), bits - 1)
  }

  /** In non-increasing order of the lowest k bits. */
  ghost predicate Descending(s: seq<int>, k: nat) {
    forall i, j :: 0 <= i < j < |s| ==> Low(s[i], k) >= Low(s[j], k)
  }

  lemma BitRange(x: int, k: nat)
    ensures Bit(x, k) == 0 || Bit(x, k) == 1
  {}

  lemma {:induction false} WithBitMultiset(s: seq<int>, k: nat)
    ensures multiset(Pass(s, k)) == multiset(s)
  {
    hide Bit;
    if s != [] {
      BitRange(s[0], k);
      WithBitMultiset(s[1..], k);
      assert s == [s[0]] + s[1..];
    }
  }

  lemma {:induction false} WithBitMembers(s: seq<int>, k: nat, b: int)
    ensures forall x :: x in WithBit(s, k, b) ==> x in s && Bit(x, k) == b
  {
    hide Bit;
    if s != [] {
      WithBitMembers(s[1..], k, b);
      assert forall x :: x in s[1..] ==> x in s;
    }
  }

  /** Selection keeps the order. */
  lemma {:induction false} WithBitDescending(s: seq<int>, k: nat, b: int)
    requires Descending(s, k)
    ensures Descending(WithBit(s, k, b), k)
  {
    hide Bit, Low;
    if s != [] {
      var rest := WithBit(s[1..], k, b);
      assert Descending(s[1..], k);
      WithBitDescending(s[1..], k, b);
      WithBitMembers(s[1..], k, b);
      forall x | x in rest ensures Low(s[0], k) >= Low(x, k) {
        var i :| 0 <= i < |s| - 1 && s[1..][i] == x;
        assert s[i + 1] == x;
      }
      DescendingCons(s[0], rest, k);
    }
  }

  lemma DescendingCons(x: int, s: seq<int>, k: nat)
    requires Descending(s, k) && forall y :: y in s ==> Low(x, k) >= Low(y, k)
    ensures Descending([x] + s, k) && [] + s == s
  {
    hide Low;
  }

  /** After the pass over bit k the order holds for one bit more. */
  lemma PassDescending(s: seq<int>, k: nat)
    requires Descending(s, k)
    ensures Descending(Pass(s, k), k + 1)
  {
    hide Bit, Low, WithBit;
    var (ones, zeros) := (WithBit(s, k, 1), WithBit(s, k, 0));
    var t := Pass(s, k);
    WithBitDescending(s, k, 1);
    WithBitDescending(s, k, 0);
    WithBitMembers(s, k, 1);
    WithBitMembers(s, k, 0);
    forall i, j | 0 <= i < j < |t| ensures Low(t[i], k + 1) >= Low(t[j], k + 1) {
      LowBit(t[i], k);
      LowBit(t[j], k);
      assert if i < |ones| then t[i] in ones else t[i] in zeros;
      assert if j < |ones| then t[j] in ones else t[j] in zeros;
      LowBound(t[j], k);
      if j < |ones| {
        assert Low(ones[i], k) >= Low(ones[j], k);
      } else if i >= |ones| {
        assert Low(zeros[i - |ones|], k) >= Low(zeros[j - |ones|], k);
      }
    }
  }

  lemma LowBound(x: int, k: nat)
    ensures 0 <= Low(x, k) < Power2(k)
  {}

  /** A permutation in non-increasing order of the bit patterns. */
  lemma {:induction false} PassesSort(s: seq<int>, bits: nat)
    ensures multiset(Passes(s, bits)) == multiset(s) && Descending(Passes(s, bits), bits)
  {
    hide Pass, Low;
    if bits == 0 {
      LowNothing(s);
    } else {
      PassesSort(s, bits - 1);
      WithBitMultiset(Passes(s, bits - 1), bits - 1);
      PassDescending(Passes(s, bits - 1), bits - 1);
    }
  }

  lemma LowNothing(s: seq<int>)
    ensures Descending(s, 0)
  {
    forall i | 0 <= i < |s| ensures Low(s[i], 0) == 0 {}
  }

  /** The values that a signed type of `bits` bits holds. */
  predicate Fits(x: int, bits: nat)
    requires bits > 0
  {
    -(Power2(bits - 1) as int) <= x < Power2(bits - 1)
  }

  lemma PatternOf(x: int, bits: nat)
    requires bits > 0 && Fits(x, bits)
    ensures Low(x, bits) == if x < 0 then x + Power2(bits) else x
  {
    Divided(x, Power2(bits), if x < 0 then -1 else 0, if x < 0 then x + Power2(bits) else x);
  }

  ghost predicate NonIncreasing(s: seq<int>) {
    forall i, j :: 0 <= i < j < |s| ==> s[i] >= s[j]
  }

  /** Numbers of a signed type come out in order exactly when they all have the same sign. */
  lemma SignedOrder(s: seq<int>, bits: nat)
    requires bits > 0 && forall i :: 0 <= i < |s| ==> Fits(s[i], bits)
    ensures NonIncreasing(Passes(s, bits)) <==> (forall i, j :: 0 <= i < |s| && 0 <= j < |s| ==> (s[i] < 0 <==> s[j] < 0))
  {
    hide Passes, Low;
    var t := Passes(s, bits);
    PassesSort(s, bits);
    forall i | 0 <= i < |t| ensures Fits(t[i], bits) && Low(t[i], bits) == (if t[i] < 0 then t[i] + Power2(bits) else t[i]) {
      SameElements(s, t, i);
      PatternOf(t[i], bits);
    }
    if i, j :| 0 <= i < |s| && 0 <= j < |s| && s[i] < 0 <= s[j] {
      SameElements(t, s, i);
      SameElements(t, s, j);
      var p :| 0 <= p < |t| && t[p] == s[i];
      var q :| 0 <= q < |t| && t[q] == s[j];
      assert Low(t[p], bits) > Low(t[q], bits);
      assert p < q;
    } else {
      forall i, j | 0 <= i < j < |t| ensures t[i] >= t[j] {
        SameElements(s, t, i);
        SameElements(s, t, j);
        assert Low(t[i], bits) >= Low(t[j], bits);
      }
    }
  }

  lemma SameElements(s: seq<int>, t: seq<int>, i: nat)
    requires multiset(s) == multiset(t) && i < |t|
    ensures exists j :: 0 <= j < |s| && s[j] == t[i]
  {
    assert t[i] in multiset(s);
  }

  /** The range is sorted; nothing outside of it changes. */
  method RadixSort(a: array<int>, lo: nat, hi: nat, bits: nat)
    requires lo <= hi <= a.Length
    modifies a
    ensures a[lo..hi] == Passes(old(a[lo..hi]), bits)
    ensures a[..lo] == old(a[..lo]) && a[hi..] == old(a[hi..])
  {
    hide Pass;
    var len := hi - lo;
    if len <= 1 {
      ShortPasses(a[lo..hi], bits);
      return;
    }
    var bit := 0;
    while bit < bits
      invariant bit <= bits && a[lo..hi] == Passes(old(a[lo..hi]), bit)
      invariant a[..lo] == old(a[..lo]) && a[hi..] == old(a[hi..])
    {
      OnePass(a, lo, hi, bit);
      bit := bit + 1;
    }
  }

  /** The elements are collected in two rounds and moved back. */
  method OnePass(a: array<int>, lo: nat, hi: nat, bit: nat)
    requires lo <= hi <= a.Length
    modifies a
    ensures a[lo..hi] == Pass(old(a[lo..hi]), bit)
    ensures a[..lo] == old(a[..lo]) && a[hi..] == old(a[hi..])
  {
    hide WithBit;
    ghost var s := a[lo..hi];
    var temp := Select(a, lo, hi, bit, 1, []);
    assert temp == WithBit(s, bit, 1);
    temp := Select(a, lo, hi, bit, 0, temp);
    assert temp == Pass(s, bit);
    WithBitMultiset(s, bit);
    SameLength(temp, s);
    MoveBack(a, lo, hi, temp);
  }

  lemma SameLength(s: seq<int>, t: seq<int>)
    requires multiset(s) == multiset(t)
    ensures |s| == |t|
  {
    assert |multiset(s)| == |s| && |multiset(t)| == |t|;
  }

  lemma PassShort(s: seq<int>, k: nat)
    requires |s| <= 1
    ensures Pass(s, k) == s
  {
    hide Bit;
    if s != [] {
      BitRange(s[0], k);
      assert s[1..] == [] && s == [s[0]];
      assert WithBit(s[1..], k, 0) == [] && WithBit(s[1..], k, 1) == [];
    }
  }

  lemma {:induction false} ShortPasses(s: seq<int>, bits: nat)
    requires |s| <= 1
    ensures Passes(s, bits) == s
  {
    hide Pass;
    if bits > 0 {
      ShortPasses(s, bits - 1);
      PassShort(s, bits - 1);
    }
  }

  /** The loop over the elements with one value of the bit. */
  method Select(a: array<int>, lo: nat, hi: nat, bit: nat, b: int, temp: seq<int>) returns (t: seq<int>)
    requires lo <= hi <= a.Length
    ensures t == temp + WithBit(a[lo..hi], bit, b)
  {
    hide Bit;
    t := temp;
    var i := lo;
    while i < hi
      invariant lo <= i <= hi && t + WithBit(a[i..hi], bit, b) == temp + WithBit(a[lo..hi], bit, b)
    {
      assert a[i..hi][0] == a[i] && a[i..hi][1..] == a[i + 1..hi];
      if Bit(a[i], bit) == b {
        Associate(t, [a[i]], WithBit(a[i + 1..hi], bit, b));
        t := t + [a[i]];
      }
      i := i + 1;
    }
    assert t + WithBit(a[i..hi], bit, b) == t;
  }
}
