/** Natural merge sort on sequences: what `list_sort` computes and why it is a stable sort. */
module SortSpec {

  type Less<!E> = (E, E) -> bool

  /** Strict weak order on the elements of `s`. */
  ghost predicate WeakOrder<E>(s: seq<E>, less: Less<E>) {
    && (forall a, b :: a in s && b in s && less(a, b) ==> !less(b, a))
    && (forall a, b, c :: a in s && b in s && c in s && !less(b, a) && !less(c, b) ==> !less(c, a))
  }

  /** Nondecreasing order. */
  ghost predicate Sorted<E>(s: seq<E>, less: Less<E>) {
    forall i, j :: 0 <= i < j < |s| ==> !less(s[j], s[i])
  }

  predicate Equiv<E>(a: E, b: E, less: Less<E>) {
    !less(a, b) && !less(b, a)
  }

  /** The elements of `s` equivalent to `e`, in order. */
  ghost function Filter<E>(s: seq<E>, e: E, less: Less<E>): seq<E> {
    if s == [] then [] else (if Equiv(s[0], e, less) then [s[0]] else []) + Filter(s[1..], e, less)
  }

  /** `t` is a permutation of `s` that keeps equivalent elements in order. */
  ghost predicate StablePermutation<E>(s: seq<E>, t: seq<E>, less: Less<E>) {
    && multiset(s) == multiset(t)
    && forall e :: e in s ==> Filter(t, e, less) == Filter(s, e, less)
  }

  // ----- The algorithm -----

  /** The length of the first nondecreasing run, as `find_end_of_run` finds it. */
  function RunLen<E>(s: seq<E>, less: Less<E>): (n: nat)
    requires s != []
    ensures 1 <= n <= |s|
    ensures forall i :: 0 < i < n ==> !less(s[i], s[i - 1])
    ensures n < |s| ==> less(s[n], s[n - 1])
  {
    if |s| == 1 || less(s[1], s[0]) then 1 else 1 + RunLen(s[1..], less)
  }

  /** `inplace_merge` */
  function Merge<E>(a: seq<E>, b: seq<E>, less: Less<E>): (r: seq<E>)
    ensures |r| == |a| + |b|
    decreases |a| + |b|
  {
    if a == [] then b
    else if b == [] then a
    else if !less(b[0], a[0]) then [a[0]] + Merge(a[1..], b, less)
    else [b[0]] + Merge(a, b[1..], less)
  }

  /** The first run, and what follows it. */
  function First<E>(s: seq<E>, less: Less<E>): (r: seq<E>)
    requires s != []
    ensures 1 <= |r| <= |s|
  {
    s[..RunLen(s, less)]
  }

  function Rest<E>(s: seq<E>, less: Less<E>): (r: seq<E>)
    requires s != []
    ensures |r| < |s| && First(s, less) + r == s
  {
    s[RunLen(s, less)..]
  }

  /** One pass over the list: adjacent runs merged in pairs. */
  function Pass<E>(s: seq<E>, less: Less<E>): (r: seq<E>)
    ensures |r| == |s|
    decreases |s|
  {
    if s == [] || Rest(s, less) == [] then s
    else
      var t := Rest(s, less);
      Merge(First(s, less), First(t, less), less) + Pass(Rest(t, less), less)
  }

  /** `output_run_cnt` after a pass. */
  function OutputRuns<E>(s: seq<E>, less: Less<E>): nat
    decreases |s|
  {
    if s == [] then 0
    else if Rest(s, less) == [] then 1
    else 1 + OutputRuns(Rest(Rest(s, less), less), less)
  }

  /** The number of maximal nondecreasing runs. */
  function Runs<E>(s: seq<E>, less: Less<E>): nat
    decreases |s|
  {
    if s == [] then 0 else 1 + Runs(Rest(s, less), less)
  }

  // ----- Runs -----

  lemma {:induction false} OutputRunsHalve<E>(s: seq<E>, less: Less<E>)
    ensures OutputRuns(s, less) == (Runs(s, less) + 1) / 2
    decreases |s|
  {
    hide First, Rest;
    if s != [] && Rest(s, less) != [] {
      OutputRunsHalve(Rest(Rest(s, less), less), less);
    }
  }

  lemma {:induction false} RunLenConcat<E>(x: seq<E>, y: seq<E>, less: Less<E>)
    requires x != [] && y != []
    ensures RunLen(x, less) < |x| ==> RunLen(x + y, less) == RunLen(x, less)
    ensures RunLen(x, less) == |x| ==>
              RunLen(x + y, less) == |x| + if less(y[0], x[|x| - 1]) then 0 else RunLen(y, less)
    decreases |x|
  {
    if |x| == 1 {
      assert (x + y)[1..] == y;
    } else {
      assert (x + y)[1..] == x[1..] + y;
      RunLenConcat(x[1..], y, less);
    }
  }

  lemma DropConcat<E>(x: seq<E>, y: seq<E>, n: nat)
    requires n <= |x + y|
    ensures (x + y)[n..] == if n < |x| then x[n..] + y else y[n - |x|..]
  {
  }

  lemma RestConcat<E>(x: seq<E>, y: seq<E>, less: Less<E>)
    requires x != [] && y != []
    ensures Rest(x, less) != [] ==> Rest(x + y, less) == Rest(x, less) + y
    ensures Rest(x, less) == [] ==> Rest(x + y, less) == y || Rest(x + y, less) == Rest(y, less)
  {
    RunLenConcat(x, y, less);
    DropConcat(x, y, RunLen(x + y, less));
    hide RunLen;
  }

  /** Joining sequences joins at most their boundary runs. */
  lemma {:induction false} RunsConcat<E>(x: seq<E>, y: seq<E>, less: Less<E>)
    ensures Runs(x + y, less) <= Runs(x, less) + Runs(y, less)
    decreases |x|
  {
    hide First, Rest;
    if x == [] {
      assert x + y == y;
    } else if y == [] {
      assert x + y == x;
    } else {
      RestConcat(x, y, less);
      if Rest(x, less) != [] {
        RunsConcat(Rest(x, less), y, less);
      }
    }
  }

  lemma {:induction false} SortedIsOneRun<E>(s: seq<E>, less: Less<E>)
    requires Sorted(s, less)
    ensures Runs(s, less) <= 1
  {
    if s != [] {
      assert Rest(s, less) == [];
    }
  }

  lemma {:induction false} OneRunIsSorted<E>(s: seq<E>, less: Less<E>)
    requires WeakOrder(s, less) && s != [] && RunLen(s, less) == |s|
    ensures Sorted(s, less)
  {
    forall i, j | 0 <= i < j < |s| ensures !less(s[j], s[i]) {
      RunOrdered(s, less, i, j);
    }
  }

  lemma {:induction false} RunOrdered<E>(s: seq<E>, less: Less<E>, i: nat, j: nat)
    requires WeakOrder(s, less) && i < j < |s| && RunLen(s, less) > j
    ensures !less(s[j], s[i])
    decreases j
  {
    if i + 1 < j {
      RunOrdered(s, less, i, j - 1);
      assert !less(s[j], s[j - 1]);
    }
  }

  // ----- Merging -----

  lemma MultisetOfCons<E>(s: seq<E>)
    requires s != []
    ensures multiset(s) == multiset{s[0]} + multiset(s[1..])
  {
    assert s == [s[0]] + s[1..];
  }

  lemma {:induction false} MergeElements<E>(a: seq<E>, b: seq<E>, less: Less<E>)
    ensures multiset(Merge(a, b, less)) == multiset(a) + multiset(b)
    decreases |a| + |b|
  {
    if a != [] && b != [] {
      if !less(b[0], a[0]) {
        MergeElements(a[1..], b, less);
        MultisetOfCons(a);
      } else {
        MergeElements(a, b[1..], less);
        MultisetOfCons(b);
      }
    }
  }

  lemma InMerge<E>(a: seq<E>, b: seq<E>, less: Less<E>, x: E)
    ensures x in Merge(a, b, less) <==> x in a || x in b
  {
    MergeElements(a, b, less);
    assert x in Merge(a, b, less) <==> x in multiset(Merge(a, b, less));
    assert x in a <==> x in multiset(a);
    assert x in b <==> x in multiset(b);
  }

  lemma {:induction false} MergeSorted<E>(a: seq<E>, b: seq<E>, less: Less<E>)
    requires WeakOrder(a + b, less) && Sorted(a, less) && Sorted(b, less)
    ensures Sorted(Merge(a, b, less), less)
    decreases |a| + |b|
  {
    if a != [] && b != [] {
      var takeA := !less(b[0], a[0]);
      var h := if takeA then a[0] else b[0];
      var a', b' := if takeA then a[1..] else a, if takeA then b else b[1..];
      SubOrder(a + b, a' + b', less);
      MergeSorted(a', b', less);
      var rest := Merge(a', b', less);
      forall j | 0 <= j < |rest| ensures !less(rest[j], h) {
        InMerge(a', b', less, rest[j]);
        FirstIsLeast(a, b, less, rest[j]);
      }
      assert Merge(a, b, less) == [h] + rest;
    }
  }

  lemma SubOrder<E>(s: seq<E>, t: seq<E>, less: Less<E>)
    requires WeakOrder(s, less) && forall x :: x in t ==> x in s
    ensures WeakOrder(t, less)
  {
  }

  /** The smaller of the two heads is not above any element. */
  lemma FirstIsLeast<E>(a: seq<E>, b: seq<E>, less: Less<E>, x: E)
    requires WeakOrder(a + b, less) && Sorted(a, less) && Sorted(b, less) && a != [] && b != []
    requires x in a || x in b
    ensures !less(x, if !less(b[0], a[0]) then a[0] else b[0])
  {
    assert forall y :: y in a || y in b ==> y in a + b;
    assert x in a ==> !less(x, a[0]);
    assert x in b ==> !less(x, b[0]);
  }

  lemma {:induction false} FilterConcat<E>(s: seq<E>, t: seq<E>, e: E, less: Less<E>)
    ensures Filter(s + t, e, less) == Filter(s, e, less) + Filter(t, e, less)
  {
    if s == [] {
      assert s + t == t;
    } else {
      var r := s + t;
      assert r[0] == s[0] && r[1..] == s[1..] + t;
      FilterConcat(s[1..], t, e, less);
      var f := if Equiv(s[0], e, less) then [s[0]] else [];
      var u, w := Filter(s[1..], e, less), Filter(t, e, less);
      assert Filter(r, e, less) == f + (u + w);
      assert f + (u + w) == (f + u) + w;
    }
  }

  lemma {:induction false} FilterNone<E>(s: seq<E>, e: E, less: Less<E>)
    requires forall x :: x in s ==> !Equiv(x, e, less)
    ensures Filter(s, e, less) == []
  {
    if s != [] {
      FilterNone(s[1..], e, less);
    }
  }

  /** Merging keeps equivalent elements in order: an element of `b` only overtakes larger ones. */
  lemma {:induction false} MergeStable<E>(dom: seq<E>, a: seq<E>, b: seq<E>, less: Less<E>, e: E)
    requires WeakOrder(dom, less) && e in dom && forall x :: x in a || x in b ==> x in dom
    requires Sorted(a, less)
    ensures Filter(Merge(a, b, less), e, less) == Filter(a, e, less) + Filter(b, e, less)
    decreases |a| + |b|
  {
    if a != [] && b != [] {
      if !less(b[0], a[0]) {
        MergeStable(dom, a[1..], b, less, e);
      } else {
        MergeStable(dom, a, b[1..], less, e);
        if Equiv(b[0], e, less) {
          forall x | x in a ensures !Equiv(x, e, less) {
            assert !less(x, a[0]);
          }
          FilterNone(a, e, less);
        }
      }
    }
  }

  // ----- Passes -----

  lemma {:induction false} PassElements<E>(s: seq<E>, less: Less<E>)
    ensures multiset(Pass(s, less)) == multiset(s)
    decreases |s|
  {
    hide First, Rest, Merge;
    if s != [] && Rest(s, less) != [] {
      var t := Rest(s, less);
      var a, b, rest := First(s, less), First(t, less), Rest(t, less);
      MergeElements(a, b, less);
      PassElements(rest, less);
      assert s == a + b + rest;
      MultisetOfThree(a, b, rest);
    }
  }

  lemma MultisetOfThree<E>(a: seq<E>, b: seq<E>, c: seq<E>)
    ensures multiset(a + b + c) == multiset(a) + multiset(b) + multiset(c)
  {
  }

  lemma RunIsSorted<E>(dom: seq<E>, s: seq<E>, less: Less<E>)
    requires WeakOrder(dom, less) && s != [] && forall x :: x in s ==> x in dom
    ensures Sorted(First(s, less), less)
    ensures forall x :: x in First(s, less) || x in Rest(s, less) ==> x in dom
  {
    SubOrder(dom, s, less);
    var r := First(s, less);
    forall i, j | 0 <= i < j < |r| ensures !less(r[j], r[i]) {
      RunOrdered(s, less, i, j);
    }
  }

  lemma {:induction false} PassStable<E>(dom: seq<E>, s: seq<E>, less: Less<E>, e: E)
    requires WeakOrder(dom, less) && e in dom && forall x :: x in s ==> x in dom
    ensures Filter(Pass(s, less), e, less) == Filter(s, e, less)
    decreases |s|
  {
    hide First, Rest, Merge, Filter, Sorted, WeakOrder;
    if s != [] && Rest(s, less) != [] {
      var t := Rest(s, less);
      var a, b, rest := First(s, less), First(t, less), Rest(t, less);
      RunIsSorted(dom, s, less);
      RunIsSorted(dom, t, less);
      MergeStable(dom, a, b, less, e);
      PassStable(dom, rest, less, e);
      FilterConcat(Merge(a, b, less), Pass(rest, less), e, less);
      FilterConcat(a, t, e, less);
      FilterConcat(b, rest, e, less);
    }
  }

  /** A pass leaves at most as many runs as it counts, which is half as many, rounded up. */
  lemma {:induction false} PassRuns<E>(dom: seq<E>, s: seq<E>, less: Less<E>)
    requires WeakOrder(dom, less) && forall x :: x in s ==> x in dom
    ensures Runs(Pass(s, less), less) <= OutputRuns(s, less)
    decreases |s|
  {
    hide First, Rest, Merge, Sorted, WeakOrder;
    if s != [] && Rest(s, less) != [] {
      var t := Rest(s, less);
      var a, b, rest := First(s, less), First(t, less), Rest(t, less);
      RunIsSorted(dom, s, less);
      RunIsSorted(dom, t, less);
      SubOrder(dom, a + b, less);
      MergeSorted(a, b, less);
      SortedIsOneRun(Merge(a, b, less), less);
      PassRuns(dom, rest, less);
      RunsConcat(Merge(a, b, less), Pass(rest, less), less);
    }
  }

  // ----- The sort -----

  /** Passes until one of them outputs a single run. */
  ghost function Sort<E>(s: seq<E>, less: Less<E>): seq<E>
    requires WeakOrder(s, less)
    decreases Runs(s, less)
  {
    var p := Pass(s, less);
    if OutputRuns(s, less) <= 1 then p
    else
      PassKeepsOrder(s, less);
      assert Runs(p, less) < Runs(s, less) by { PassShrinks(s, less); }
      Sort(p, less)
  }

  lemma PassKeepsOrder<E>(s: seq<E>, less: Less<E>)
    requires WeakOrder(s, less)
    ensures WeakOrder(Pass(s, less), less)
  {
    PassElements(s, less);
    forall x | x in Pass(s, less) ensures x in s {
      assert x in multiset(Pass(s, less));
    }
    SubOrder(s, Pass(s, less), less);
  }

  /** Why the outer loop ends. */
  lemma PassShrinks<E>(s: seq<E>, less: Less<E>)
    requires WeakOrder(s, less) && OutputRuns(s, less) > 1
    ensures Runs(Pass(s, less), less) <= (Runs(s, less) + 1) / 2 < Runs(s, less)
  {
    PassRuns(s, s, less);
    OutputRunsHalve(s, less);
  }

  lemma PassIsStable<E>(s: seq<E>, less: Less<E>)
    requires WeakOrder(s, less)
    ensures StablePermutation(s, Pass(s, less), less)
  {
    PassElements(s, less);
    forall e | e in s ensures Filter(Pass(s, less), e, less) == Filter(s, e, less) {
      PassStable(s, s, less, e);
    }
  }

  lemma StableTrans<E>(s: seq<E>, t: seq<E>, r: seq<E>, less: Less<E>)
    requires StablePermutation(s, t, less) && StablePermutation(t, r, less)
    ensures StablePermutation(s, r, less)
  {
    forall e | e in s ensures Filter(r, e, less) == Filter(s, e, less) {
      assert e in multiset(s);
      assert e in t;
    }
  }

  lemma LastPassSorts<E>(s: seq<E>, less: Less<E>)
    requires WeakOrder(s, less) && OutputRuns(s, less) <= 1
    ensures Sorted(Pass(s, less), less)
  {
    PassRuns(s, s, less);
    PassKeepsOrder(s, less);
    var p := Pass(s, less);
    if p != [] {
      assert Rest(p, less) == [];
      OneRunIsSorted(p, less);
    }
  }

  /** The result is sorted, and a stable permutation of the input. */
  lemma {:induction false} SortIsStableSort<E>(s: seq<E>, less: Less<E>)
    requires WeakOrder(s, less)
    ensures Sorted(Sort(s, less), less)
    ensures StablePermutation(s, Sort(s, less), less)
    decreases Runs(s, less)
  {
    PassIsStable(s, less);
    if OutputRuns(s, less) <= 1 {
      LastPassSorts(s, less);
    } else {
      PassKeepsOrder(s, less);
      PassShrinks(s, less);
      SortIsStableSort(Pass(s, less), less);
      StableTrans(s, Pass(s, less), Sort(s, less), less);
    }
  }
}
