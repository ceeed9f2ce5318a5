/** The C library's heap sort and binary search. */
module HeapSort {
  import opened Options

  type Compare<!T> = (T, T) -> int

  /** `strcmp`-type results that order the elements, some of them possibly equal. */
  ghost predicate TotalPreorder<T(!new)>(cmp: Compare<T>) {
    && (forall x, y :: cmp(x, y) > 0 <==> cmp(y, x) < 0)
    && (forall x, y, z :: cmp(x, y) <= 0 && cmp(y, z) <= 0 ==> cmp(x, z) <= 0)
  }

  ghost predicate Sorted<T>(s: seq<T>, cmp: Compare<T>) {
    forall i, j :: 0 <= i < j < |s| ==> cmp(s[i], s[j]) <= 0
  }

  // ----- Heaps -----

  /** Among the first `cnt` elements, 1-based, no child of an element from `lo` on is above it; `but` excepted. */
  ghost predicate HeapBut<T>(s: seq<T>, cmp: Compare<T>, lo: nat, cnt: nat, but: nat) {
    && 1 <= lo && cnt <= |s|
    && forall c :: 2 * lo <= c <= cnt && c / 2 != but ==> cmp(s[c - 1], s[c / 2 - 1]) <= 0
  }

  ghost predicate Heap<T>(s: seq<T>, cmp: Compare<T>, lo: nat, cnt: nat) {
    HeapBut(s, cmp, lo, cnt, 0)
  }

  /** The children of `i` are not above its parent either. */
  ghost predicate UnderParent<T>(s: seq<T>, cmp: Compare<T>, lo: nat, cnt: nat, i: nat) {
    && cnt <= |s|
    && (1 <= lo <= i / 2 ==> forall c :: 2 * i <= c <= cnt && c / 2 == i ==> cmp(s[c - 1], s[i / 2 - 1]) <= 0)
  }

  function Swapped<T>(s: seq<T>, i: nat, j: nat): seq<T>
    requires 1 <= i <= |s| && 1 <= j <= |s|
  {
    s[i - 1 := s[j - 1]][j - 1 := s[i - 1]]
  }

  /** `t` rearranges the first `n` elements of `s`. */
  ghost predicate Rearranged<T>(s: seq<T>, t: seq<T>, n: nat) {
    |s| == |t| && n <= |s| && multiset(s[..n]) == multiset(t[..n]) && s[n..] == t[n..]
  }

  lemma SwapRearranges<T>(s: seq<T>, i: nat, j: nat, n: nat)
    requires 1 <= i <= n <= |s| && 1 <= j <= n
    ensures Rearranged(s, Swapped(s, i, j), n)
  {
    var t := Swapped(s, i, j);
    var p := s[..n];
    assert t[..n] == p[i - 1 := p[j - 1]][j - 1 := p[i - 1]];
  }

  lemma RearrangedTwice<T>(s: seq<T>, t: seq<T>, u: seq<T>, n: nat)
    requires Rearranged(s, t, n) && Rearranged(t, u, n)
    ensures Rearranged(s, u, n)
  {
  }

  lemma RearrangedMore<T>(s: seq<T>, t: seq<T>, n: nat, m: nat)
    requires Rearranged(s, t, n) && n <= m <= |s|
    ensures Rearranged(s, t, m)
  {
    assert s[..m] == s[..n] + s[n..][..m - n];
    assert t[..m] == t[..n] + t[n..][..m - n];
    assert s[m..] == s[n..][m - n..];
    assert t[m..] == t[n..][m - n..];
  }

  lemma RearrangedMember<T>(s: seq<T>, t: seq<T>, n: nat, k: nat) returns (j: nat)
    requires Rearranged(s, t, n) && k < n
    ensures j < n && s[j] == t[k]
  {
    assert t[..n][k] in multiset(t[..n]);
    assert t[k] in s[..n];
    j :| 0 <= j < n && s[..n][j] == t[k];
  }

  /** The greatest of `i` and its children, as `heapify` picks it. */
  function Greatest<T>(s: seq<T>, cmp: Compare<T>, i: nat, cnt: nat): (m: nat)
    requires 1 <= i <= cnt <= |s|
    ensures i <= m <= cnt
  {
    var m := if 2 * i <= cnt && cmp(s[2 * i - 1], s[i - 1]) > 0 then 2 * i else i;
    if 2 * i + 1 <= cnt && cmp(s[2 * i], s[m - 1]) > 0 then 2 * i + 1 else m
  }

  lemma GreatestIs<T(!new)>(s: seq<T>, cmp: Compare<T>, i: nat, cnt: nat)
    requires TotalPreorder(cmp) && 1 <= i <= cnt <= |s|
    ensures var m := Greatest(s, cmp, i, cnt);
            && (m == i || (m / 2 == i && cmp(s[i - 1], s[m - 1]) <= 0))
            && forall c :: 2 * i <= c <= cnt && c / 2 == i ==> cmp(s[c - 1], s[m - 1]) <= 0
  {
  }

  /** Nothing to do: the heap is whole. */
  lemma Settled<T(!new)>(s: seq<T>, cmp: Compare<T>, lo: nat, cnt: nat, i: nat)
    requires TotalPreorder(cmp) && 1 <= lo <= i <= cnt && HeapBut(s, cmp, lo, cnt, i) && Greatest(s, cmp, i, cnt) == i
    ensures Heap(s, cmp, lo, cnt)
  {
    GreatestIs(s, cmp, i, cnt);
  }

  /** One step down: the gap moves from `i` to the child it was swapped with. */
  lemma Sink<T(!new)>(s: seq<T>, cmp: Compare<T>, lo: nat, cnt: nat, i: nat)
    requires TotalPreorder(cmp) && 1 <= lo <= i <= cnt
    requires HeapBut(s, cmp, lo, cnt, i) && UnderParent(s, cmp, lo, cnt, i) && Greatest(s, cmp, i, cnt) != i
    ensures var m := Greatest(s, cmp, i, cnt);
            var t := Swapped(s, i, m);
            && HeapBut(t, cmp, lo, cnt, m) && UnderParent(t, cmp, lo, cnt, m)
  {
    var m := Greatest(s, cmp, i, cnt);
    GreatestIs(s, cmp, i, cnt);
    hide Greatest, HeapBut, UnderParent, TotalPreorder, Swapped;
    SinkHeap(s, cmp, lo, cnt, i, m);
    SinkUnder(s, cmp, lo, cnt, i, m);
  }

  lemma SinkUnder<T>(s: seq<T>, cmp: Compare<T>, lo: nat, cnt: nat, i: nat, m: nat)
    requires 1 <= lo <= i < m <= cnt && m / 2 == i && HeapBut(s, cmp, lo, cnt, i)
    ensures UnderParent(Swapped(s, i, m), cmp, lo, cnt, m)
  {
  }

  lemma SinkHeap<T(!new)>(s: seq<T>, cmp: Compare<T>, lo: nat, cnt: nat, i: nat, m: nat)
    requires TotalPreorder(cmp) && 1 <= lo <= i < m <= cnt && m / 2 == i
    requires HeapBut(s, cmp, lo, cnt, i) && UnderParent(s, cmp, lo, cnt, i)
    requires cmp(s[i - 1], s[m - 1]) <= 0
    requires forall c :: 2 * i <= c <= cnt && c / 2 == i ==> cmp(s[c - 1], s[m - 1]) <= 0
    ensures HeapBut(Swapped(s, i, m), cmp, lo, cnt, m)
  {
    var t := Swapped(s, i, m);
    forall c | 2 * lo <= c <= cnt && c / 2 != m ensures cmp(t[c - 1], t[c / 2 - 1]) <= 0 {
      if c / 2 == i {
        assert t[c / 2 - 1] == s[m - 1];
      } else if c == i {
        assert t[c - 1] == s[m - 1];
      } else {
        assert t[c - 1] == s[c - 1] && t[c / 2 - 1] == s[c / 2 - 1];
      }
    }
  }

  /** The root of a heap is its greatest element. */
  lemma {:induction false} RootIsGreatest<T(!new)>(s: seq<T>, cmp: Compare<T>, cnt: nat, c: nat)
    requires TotalPreorder(cmp) && Heap(s, cmp, 1, cnt) && 1 <= c <= cnt
    ensures cmp(s[c - 1], s[0]) <= 0
  {
    if c == 1 {
      assert cmp(s[0], s[0]) > 0 <==> cmp(s[0], s[0]) < 0;
    } else {
      RootIsGreatest(s, cmp, cnt, c / 2);
    }
  }

  // ----- The sort -----

  /** `do_swap`, with 1-based indices. */
  method DoSwap<T>(a: array<T>, i: nat, j: nat)
    requires 1 <= i <= a.Length && 1 <= j <= a.Length
    modifies a
    ensures a[..] == Swapped(old(a[..]), i, j)
  {
    a[i - 1], a[j - 1] := a[j - 1], a[i - 1];
  }

  /** `heapify` */
  method Heapify<T(!new)>(a: array<T>, start: nat, cnt: nat, cmp: Compare<T>)
    requires TotalPreorder(cmp) && 1 <= start <= cnt <= a.Length && Heap(a[..], cmp, start + 1, cnt)
    modifies a
    ensures Heap(a[..], cmp, start, cnt) && Rearranged(old(a[..]), a[..], cnt)
  {
    var i := start;
    assert HeapBut(a[..], cmp, start, cnt, i) && UnderParent(a[..], cmp, start, cnt, i);
    assert Rearranged(a[..], a[..], cnt);
    hide Greatest, HeapBut, UnderParent, Rearranged, TotalPreorder, Swapped, Heap;
    while true
      invariant start <= i <= cnt
      invariant HeapBut(a[..], cmp, start, cnt, i) && UnderParent(a[..], cmp, start, cnt, i)
      invariant Rearranged(old(a[..]), a[..], cnt)
      decreases cnt - i
    {
      ghost var s := a[..];
      var max := Choose(a, i, cnt, cmp);
      if max == i {
        Settled(s, cmp, start, cnt, i);
        break;
      }
      Sink(s, cmp, start, cnt, i);
      SwapRearranges(s, i, max, cnt);
      RearrangedTwice(old(a[..]), s, Swapped(s, i, max), cnt);
      DoSwap(a, i, max);
      i := max;
    }
  }

  /** The comparisons of `heapify`. */
  method Choose<T>(a: array<T>, i: nat, cnt: nat, cmp: Compare<T>) returns (max: nat)
    requires 1 <= i <= cnt <= a.Length
    ensures max == Greatest(a[..], cmp, i, cnt)
  {
    var left, right := 2 * i, 2 * i + 1;
    max := i;
    if left <= cnt && cmp(a[left - 1], a[max - 1]) > 0 {
      max := left;
    }
    if right <= cnt && cmp(a[right - 1], a[max - 1]) > 0 {
      max := right;
    }
  }

  /** What the second loop of `sort` has done when `n` elements are left in the heap. */
  ghost predicate TailDone<T>(s: seq<T>, cmp: Compare<T>, n: nat) {
    && n <= |s| && Heap(s, cmp, 1, n)
    && forall i, j :: 0 <= i < j < |s| && n <= j ==> cmp(s[i], s[j]) <= 0
  }

  /** The root goes behind the heap, and the heap is restored without it. */
  lemma Extract<T(!new)>(s: seq<T>, u: seq<T>, cmp: Compare<T>, n: nat)
    requires TotalPreorder(cmp) && 1 < n && TailDone(s, cmp, n)
    requires Heap(u, cmp, 1, n - 1) && Rearranged(Swapped(s, 1, n), u, n - 1)
    ensures TailDone(u, cmp, n - 1)
  {
    hide Heap, TotalPreorder;
    forall i, j | 0 <= i < j < |u| && n - 1 <= j ensures cmp(u[i], u[j]) <= 0 {
      var k := Source(s, u, n, i);
      Tail(s, u, n, j);
      if j == n - 1 {
        RootIsGreatest(s, cmp, n, k + 1);
      }
    }
  }

  /** Where the elements come from when the root is swapped behind the heap and the rest rearranged. */
  lemma Source<T>(s: seq<T>, u: seq<T>, n: nat, i: nat) returns (k: nat)
    requires 1 < n <= |s| && Rearranged(Swapped(s, 1, n), u, n - 1) && i < |u|
    ensures k < |s| && u[i] == s[k] && (if i < n then k < n else k == i)
  {
    var t := Swapped(s, 1, n);
    if i < n - 1 {
      k := RearrangedMember(t, u, n - 1, i);
      k := if k == 0 then n - 1 else k;
    } else {
      Tail(s, u, n, i);
      k := if i == n - 1 then 0 else i;
    }
  }

  lemma Tail<T>(s: seq<T>, u: seq<T>, n: nat, j: nat)
    requires 1 < n <= |s| && Rearranged(Swapped(s, 1, n), u, n - 1) && n - 1 <= j < |u|
    ensures u[j] == if j == n - 1 then s[0] else s[j]
  {
    var t := Swapped(s, 1, n);
    assert u[n - 1..][j - (n - 1)] == u[j] && t[n - 1..][j - (n - 1)] == t[j];
  }

  /** Swapping the ends of a heap spoils it at the root only. */
  lemma SwapEnds<T>(s: seq<T>, cmp: Compare<T>, n: nat)
    requires 1 < n && Heap(s, cmp, 1, n)
    ensures Heap(Swapped(s, 1, n), cmp, 2, n - 1)
  {
  }

  /** `sort` */
  method Sort<T(!new)>(a: array<T>, cmp: Compare<T>)
    requires TotalPreorder(cmp)
    modifies a
    ensures Sorted(a[..], cmp) && multiset(a[..]) == multiset(old(a[..]))
  {
    ghost var s0, n := a[..], a.Length;
    BuildHeap(a, cmp);
    var i: nat := a.Length;
    assert TailDone(a[..], cmp, i);
    hide TotalPreorder, Heap, Sorted, Rearranged, Swapped;
    while i > 1
      invariant i <= n && TailDone(a[..], cmp, i) && Rearranged(s0, a[..], n)
    {
      ghost var s := a[..];
      SwapEnds(s, cmp, i);
      DoSwap(a, 1, i);
      ghost var t := a[..];
      SwapRearranges(s, 1, i, n);
      Heapify(a, 1, i - 1, cmp);
      RearrangedMore(t, a[..], i - 1, n);
      RearrangedTwice(s0, s, t, n);
      RearrangedTwice(s0, t, a[..], n);
      Extract(s, a[..], cmp, i);
      i := i - 1;
    }
    Finished(s0, a[..], cmp, i);
  }

  lemma Finished<T>(s0: seq<T>, s: seq<T>, cmp: Compare<T>, n: nat)
    requires n <= 1 && TailDone(s, cmp, n) && Rearranged(s0, s, |s|)
    ensures Sorted(s, cmp) && multiset(s) == multiset(s0)
  {
    assert s[..|s|] == s && s0[..|s|] == s0;
  }

  /** The first loop of `sort`. */
  method BuildHeap<T(!new)>(a: array<T>, cmp: Compare<T>)
    requires TotalPreorder(cmp)
    modifies a
    ensures Heap(a[..], cmp, 1, a.Length) && Rearranged(old(a[..]), a[..], a.Length)
  {
    var i: nat := a.Length / 2;
    while i > 0
      invariant i <= a.Length / 2
      invariant Heap(a[..], cmp, i + 1, a.Length) && Rearranged(old(a[..]), a[..], a.Length)
    {
      ghost var s := a[..];
      Heapify(a, i, a.Length, cmp);
      RearrangedTwice(old(a[..]), s, a[..], a.Length);
      i := i - 1;
    }
  }

  // ----- Searching -----

  /** `binary_search` */
  method BinarySearch<T(!new)>(key: T, a: array<T>, cmp: Compare<T>) returns (r: Option<nat>)
    requires TotalPreorder(cmp) && Sorted(a[..], cmp)
    ensures r.Some? ==> r.value < a.Length && cmp(key, a[r.value]) == 0
    ensures r.Some? <==> exists k :: 0 <= k < a.Length && cmp(key, a[k]) == 0
  {
    var first, last := 0, a.Length;
    ghost var s := a[..];
    while first < last
      invariant 0 <= first <= last <= a.Length
      invariant forall k :: 0 <= k < first ==> cmp(key, s[k]) > 0
      invariant forall k :: last <= k < a.Length ==> cmp(key, s[k]) < 0
    {
      var middle := first + (last - first) / 2;
      var c := cmp(key, a[middle]);
      if c < 0 {
        forall k | middle <= k < last ensures cmp(key, s[k]) < 0 {
          After(key, s[middle], s[k], cmp);
        }
        last := middle;
      } else if c > 0 {
        forall k | first <= k <= middle ensures cmp(key, s[k]) > 0 {
          Before(s[k], s[middle], key, cmp);
        }
        first := middle + 1;
      } else {
        return Some(middle);
      }
    }
    return None;
  }

  lemma After<T(!new)>(key: T, x: T, y: T, cmp: Compare<T>)
    requires TotalPreorder(cmp) && cmp(key, x) < 0 && (x == y || cmp(x, y) <= 0)
    ensures cmp(key, y) < 0
  {
    assert cmp(x, y) <= 0 && cmp(y, key) <= 0 ==> cmp(x, key) <= 0;
  }

  lemma Before<T(!new)>(x: T, y: T, key: T, cmp: Compare<T>)
    requires TotalPreorder(cmp) && cmp(key, y) > 0 && (x == y || cmp(x, y) <= 0)
    ensures cmp(key, x) > 0
  {
    assert cmp(key, x) <= 0 && cmp(x, y) <= 0 ==> cmp(key, y) <= 0;
  }
}
