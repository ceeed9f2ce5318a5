/** Intrusive doubly linked lists with a header element at either end. */
module Lists {
  import opened Sequences
  import opened SortSpec

  class Elem {
    var prev: Elem?
    var next: Elem?

    constructor ()
      ensures prev == next == null
    {
      prev, next := null, null;
    }
  }

  /** A stretch of linked elements: no element twice, neighbours linked both ways. */
  ghost predicate Chain(ns: seq<Elem>)
    reads ns
  {
    && Distinct(ns)
    && (forall i {:trigger ns[i].next} :: 0 <= i < |ns| - 1 ==> ns[i].next == ns[i + 1])
    && (forall i {:trigger ns[i].prev} :: 0 < i < |ns| ==> ns[i].prev == ns[i - 1])
  }

  /** A chain with open ends. */
  ghost predicate Linked(ns: seq<Elem>)
    reads ns
  {
    Chain(ns) && (ns != [] ==> ns[0].prev == null && ns[|ns| - 1].next == null)
  }

  class List {
    const head: Elem
    const tail: Elem
    /** All elements from `head` to `tail`. */
    ghost var nodes: seq<Elem>

    ghost predicate Valid()
      reads this, nodes
    {
      && |nodes| >= 2 && nodes[0] == head && nodes[|nodes| - 1] == tail
      && Linked(nodes)
    }

    /** The interior elements: what the list contains. */
    ghost function Elems(): seq<Elem>
      reads this
    {
      if |nodes| >= 2 then nodes[1..|nodes| - 1] else []
    }

    /** Everything the list's operations may relink. */
    ghost function Nodes(): set<Elem>
      reads this
    {
      set x | x in nodes
    }

    /** `list_init` */
    constructor ()
      ensures Valid() && Elems() == [] && nodes == [head, tail] && fresh(head) && fresh(tail)
    {
      var h := new Elem();
      var t := new Elem();
      h.next := t;
      t.prev := h;
      head, tail, nodes := h, t, [h, t];
    }

    /** `list_insert`: `elem` goes in front of node `p`. */
    method Insert(before: Elem, elem: Elem, ghost p: nat)
      requires Valid() && 0 < p < |nodes| && nodes[p] == before && elem !in nodes
      modifies this, nodes, elem
      ensures Valid() && nodes == old(nodes)[..p] + [elem] + old(nodes)[p..]
    {
      elem.prev := before.prev;
      elem.next := before;
      before.prev.next := elem;
      before.prev := elem;
      nodes := nodes[..p] + [elem] + nodes[p..];
    }

    /** `list_remove` */
    method Remove(elem: Elem, ghost p: nat) returns (next: Elem)
      requires Valid() && 0 < p < |nodes| - 1 && nodes[p] == elem
      modifies this, nodes
      ensures Valid() && nodes == old(nodes)[..p] + old(nodes)[p + 1..] && next == nodes[p]
    {
      elem.prev.next := elem.next;
      elem.next.prev := elem.prev;
      next := elem.next;
      nodes := nodes[..p] + nodes[p + 1..];
    }

    /** `list_splice` within one list: nodes `i` to `j`, exclusive, move in front of node `p` outside them. */
    method Splice(before: Elem, first: Elem, last: Elem, ghost p: nat, ghost i: nat, ghost j: nat)
      requires Valid() && 0 < p < |nodes| && 0 < i <= j < |nodes| && (p < i || j <= p)
      requires nodes[p] == before && nodes[i] == first && nodes[j] == last
      modifies this, nodes
      ensures Valid() && nodes == Spliced(old(nodes), p, i, j)
    {
      hide Valid, Chain, Linked, Apart, Spliced;
      SamePlace(i, j);
      if first == last {
        SplicedNone(nodes, p, i);
        return;
      }
      PrevIs(j);
      SplicedIs(nodes, p, i, j);
      var l := last.prev;
      ghost var seg := nodes[i..j];
      Unhook(first, l, i, j);
      Hook(before, first, l, seg, if p < i then p else p - (j - i));
    }

    /** `list_splice` from another list. */
    method SpliceFrom(from: List, before: Elem, first: Elem, last: Elem, ghost p: nat, ghost i: nat, ghost j: nat)
      requires Valid() && from.Valid() && from != this && Apart(from.nodes, nodes)
      requires 0 < p < |nodes| && 0 < i <= j < |from.nodes|
      requires nodes[p] == before && from.nodes[i] == first && from.nodes[j] == last
      modifies this, nodes, from, from.nodes
      ensures Valid() && from.Valid() && Apart(from.nodes, nodes)
      ensures nodes == old(nodes)[..p] + old(from.nodes)[i..j] + old(nodes)[p..]
      ensures from.nodes == old(from.nodes)[..i] + old(from.nodes)[j..]
    {
      hide Valid, Chain, Linked, Distinct;
      from.SamePlace(i, j);
      if first == last {
        assert from.nodes == from.nodes[..i] + from.nodes[j..] && nodes == nodes[..p] + [] + nodes[p..];
        return;
      }
      from.PrevIs(j);
      from.Once();
      ApartSplice(from.nodes, nodes, p, i, j);
      var l := last.prev;
      ghost var seg := from.nodes[i..j];
      from.Unhook(first, l, i, j);
      Hook(before, first, l, seg, p);
    }

    lemma Once()
      requires Valid()
      ensures Distinct(nodes)
    {
    }

    /** `list_reverse`: the cursor follows the link that it has just swapped. */
    method Reverse()
      requires Valid()
      modifies this, Nodes()
      ensures Valid() && nodes == Mirrored(old(nodes)) && Nodes() == old(Nodes())
    {
      StartSwapping();
      if head.next == tail {
        assert Mirrored(nodes) == nodes;
        return;
      }
      ghost var n := nodes;
      MirroredNodes(n);
      hide Valid, Chain, Linked, Swapped, Mirrored, Distinct, Nodes;
      NodesSet();
      SwapAll(head.next, tail, n);
      SwapEnds(head, tail, n);
      nodes := Mirrored(n);
      NodesSet();
      Whole();
    }

    lemma NodesSet()
      ensures Nodes() == set x | x in nodes
    {
    }

    lemma StartSwapping()
      requires Valid()
      ensures Swapped(nodes, 1) && |nodes| >= 2 && head == nodes[0] && tail == nodes[|nodes| - 1]
      ensures head.next == nodes[1] && (head.next == tail <==> |nodes| == 2)
    {
    }

    lemma Whole()
      requires |nodes| >= 2 && nodes[0] == head && nodes[|nodes| - 1] == tail && Linked(nodes)
      ensures Valid()
    {
    }

    /** `list_next` */
    method Next(e: Elem, ghost i: nat) returns (r: Elem)
      requires Valid() && i < |nodes| - 1 && nodes[i] == e
      ensures r == nodes[i + 1]
    {
      r := e.next;
    }

    /** `list_prev` */
    method Prev(e: Elem, ghost i: nat) returns (r: Elem)
      requires Valid() && 0 < i < |nodes| && nodes[i] == e
      ensures r == nodes[i - 1]
    {
      r := e.prev;
    }

    lemma PrevIs(i: nat)
      requires Valid() && 0 < i < |nodes|
      ensures nodes[i].prev == nodes[i - 1]
    {
    }

    lemma Ends()
      requires Valid()
      ensures |nodes| >= 2 && nodes[0] == head && nodes[|nodes| - 1] == tail
    {
    }

    /** An element stands at one place only. */
    lemma SamePlace(i: nat, j: nat)
      requires Valid() && i < |nodes| && j < |nodes|
      ensures nodes[i] == nodes[j] <==> i == j
    {
    }

    /** `find_end_of_run`, from node `ia` up to node `ib`. */
    method FindEndOfRun(a: Elem, b: Elem, less: Less<Elem>, ghost ia: nat, ghost ib: nat)
      returns (r: Elem, ghost ir: nat)
      requires Valid() && ia < ib < |nodes| && nodes[ia] == a && nodes[ib] == b
      ensures EndsRun(nodes, less, ia, ir, ib) && ia < ir <= ib && r == nodes[ir]
    {
      hide Chain, EndsRun;
      r := Next(a, ia);
      ir := ia + 1;
      while r != b
        invariant ia < ir <= ib && r == nodes[ir]
        invariant forall k :: ia < k < ir ==> !less(nodes[k], nodes[k - 1])
        decreases ib - ir
      {
        var p := Prev(r, ir);
        if less(r, p) {
          break;
        }
        r := Next(r, ir);
        ir := ir + 1;
      }
      SamePlace(ir, ib);
      EndOfRun(nodes, less, ia, ir, ib);
    }

    /** One element of `list_splice`: node `j` moves in front of node `i`. */
    method MoveBefore(before: Elem, first: Elem, last: Elem, ghost i: nat, ghost j: nat)
      requires Valid() && 0 < i < j < |nodes| - 1
      requires nodes[i] == before && nodes[j] == first && nodes[j + 1] == last
      modifies this, Nodes()
      ensures Valid() && nodes == Moved(old(nodes), i, j) && Nodes() == old(Nodes())
    {
      MovedNodes(nodes, i, j);
      Splice(before, first, last, i, j, j + 1);
    }

    /** `inplace_merge`: nodes `ia` to `im` and `im` to `ib` are merged in place. */
    method InplaceMerge(a: Elem, m: Elem, b: Elem, less: Less<Elem>, ghost ia: nat, ghost im: nat, ghost ib: nat)
      requires Valid() && 0 < ia <= im <= ib < |nodes|
      requires nodes[ia] == a && nodes[im] == m && nodes[ib] == b
      modifies this, Nodes()
      ensures Valid()
      ensures nodes == Merged(old(nodes), less, ia, im, ib)
      ensures Nodes() == old(Nodes())
    {
      hide Chain, Merge, Merged, Moved, Linked, Merging, Nodes;
      ghost var ns := nodes;
      var a0, a1b0 := a, m;
      // nodes `ia` to `i` are merged; `i` to `j` and `j` to `ib` are still to be merged
      ghost var i, j := ia, im;
      StartMerge(ns, less, ia, im, ib);
      while a0 != a1b0 && a1b0 != b
        invariant Valid() && Nodes() == old(Nodes()) && ia <= i <= j <= ib < |nodes|
        invariant nodes[i] == a0 && nodes[j] == a1b0 && nodes[ib] == b
        invariant Merging(ns, nodes, less, ia, im, i, j, ib)
        decreases ib - i
      {
        if !less(a1b0, a0) {
          TakeLeft(ns, nodes, less, ia, im, i, j, ib);
          a0 := Next(a0, i);
          i := i + 1;
        } else {
          TakeRight(ns, nodes, less, ia, im, i, j, ib);
          MovedAt(nodes, i, j);
          a1b0 := Next(a1b0, j);
          var p := Prev(a1b0, j + 1);
          MoveBefore(a0, p, a1b0, i, j);
          i, j := i + 1, j + 1;
        }
      }
      SamePlace(i, j);
      SamePlace(j, ib);
      EndMerge(ns, nodes, less, ia, im, i, j, ib);
    }

    /** One pass of `list_sort`: adjacent runs are merged in pairs. */
    method SortPass(less: Less<Elem>) returns (outputRunCnt: nat)
      requires Valid()
      modifies this, Nodes()
      ensures Valid() && Nodes() == old(Nodes())
      ensures Elems() == Pass(old(Elems()), less)
      ensures outputRunCnt == OutputRuns(old(Elems()), less)
    {
      ghost var ns := nodes;
      outputRunCnt := MergePairs(less);
      hide Chain, Linked, Passing, Pass, OutputRuns, Nodes;
      EndPass(ns, nodes, less, outputRunCnt);
    }

    /** The inner loop of `list_sort`. */
    method MergePairs(less: Less<Elem>) returns (outputRunCnt: nat)
      requires Valid()
      modifies this, Nodes()
      ensures Valid() && Nodes() == old(Nodes()) && |nodes| == |old(nodes)| >= 2
      ensures Passing(old(nodes), nodes, less, |nodes| - 1, outputRunCnt)
    {
      hide *;
      Ends();
      ghost var ns, n := nodes, |nodes| - 1;
      outputRunCnt := 0;
      var a0 := Next(head, 0);
      ghost var i := 1;
      StartPass(ns, less);
      while a0 != tail
        invariant Valid() && Nodes() == old(Nodes()) && 1 <= i <= n == |nodes| - 1 && a0 == nodes[i]
        invariant Passing(ns, nodes, less, i, outputRunCnt)
        decreases n - i
      {
        Ends();
        SamePlace(i, n);
        outputRunCnt := outputRunCnt + 1;
        var a1b0, im := FindEndOfRun(a0, tail, less, i, n);
        if a1b0 == tail {
          SamePlace(im, n);
          LastRun(ns, nodes, less, i, outputRunCnt - 1);
          i := n;
          break;
        }
        var b1, ib := FindEndOfRun(a1b0, tail, less, im, n);
        MergeRuns(ns, nodes, less, i, im, ib, outputRunCnt - 1);
        InplaceMerge(a0, a1b0, b1, less, i, im, ib);
        a0, i := b1, ib;
      }
      Ends();
      SamePlace(i, n);
    }

    /** `list_sort` */
    method Sort(less: Less<Elem>)
      requires Valid() && WeakOrder(Elems(), less)
      modifies this, Nodes()
      ensures Valid() && Sorted(Elems(), less) && StablePermutation(old(Elems()), Elems(), less)
    {
      hide Chain, Linked, WeakOrder, Pass, OutputRuns, Runs, StablePermutation, Sorted, Nodes;
      ghost var s0, s := Elems(), Elems();
      var outputRunCnt := SortPass(less);
      PassIsStable(s, less);
      while outputRunCnt > 1
        invariant Valid() && Nodes() == old(Nodes())
        invariant WeakOrder(s, less) && Elems() == Pass(s, less) && outputRunCnt == OutputRuns(s, less)
        invariant StablePermutation(s0, Elems(), less)
        decreases Runs(s, less)
      {
        PassKeepsOrder(s, less);
        PassShrinks(s, less);
        s := Elems();
        outputRunCnt := SortPass(less);
        PassIsStable(s, less);
        StableTrans(s0, s, Elems(), less);
      }
      LastPassSorts(s, less);
    }

    /** The first half of `list_splice`: take nodes `i` to `j`, `first` to `l`, out of the list. */
    method Unhook(first: Elem, l: Elem, ghost i: nat, ghost j: nat)
      requires Valid() && 0 < i < j < |nodes| && nodes[i] == first && nodes[j - 1] == l
      modifies this, nodes
      ensures Valid() && nodes == old(nodes)[..i] + old(nodes)[j..]
      ensures Chain(old(nodes)[i..j]) && Apart(old(nodes)[i..j], nodes)
    {
      ghost var x, y, z := nodes[..i], nodes[i..j], nodes[j..];
      CutChain(nodes, i, j);
      Link(first.prev, l.next, x, z);
      nodes := x + z;
    }

    /** The second half of `list_splice`: put the chain `seg`, `first` to `l`, in front of node `p`. */
    method Hook(before: Elem, first: Elem, l: Elem, ghost seg: seq<Elem>, ghost p: nat)
      requires Valid() && 0 < p < |nodes| && nodes[p] == before
      requires Chain(seg) && seg != [] && seg[0] == first && seg[|seg| - 1] == l
      requires Apart(seg, nodes)
      modifies this, nodes, seg
      ensures Valid() && nodes == old(nodes)[..p] + seg + old(nodes)[p..]
    {
      ghost var x, z := nodes[..p], nodes[p..];
      CutChain(nodes, p, p);
      assert nodes == x + z;
      ApartJoin(x, seg, z);
      Link(before.prev, first, x, seg);
      Link(l, before, x + seg, z);
      nodes := x + seg + z;
    }
  }

  /** The list from `head` to `tail` with its interior reversed. */
  ghost function Mirrored(n: seq<Elem>): (m: seq<Elem>)
    requires |n| >= 2
    ensures |m| == |n| && m[0] == n[0] && m[|n| - 1] == n[|n| - 1]
    ensures forall i :: 0 < i < |n| - 1 ==> m[i] == n[|n| - 1 - i]
  {
    seq(|n|, i requires 0 <= i < |n| => if 0 < i < |n| - 1 then n[|n| - 1 - i] else n[i])
  }

  /** The links of the nodes before `i` have been swapped. */
  ghost predicate Swapped(n: seq<Elem>, i: nat)
    reads n
  {
    && Distinct(n) && 1 <= i < |n|
    && n[0].prev == null && n[|n| - 1].next == null && n[0].next == n[1] && n[|n| - 1].prev == n[|n| - 2]
    && (forall k {:trigger n[k].next} :: 0 < k < |n| - 1 ==> n[k].next == n[if k < i then k - 1 else k + 1])
    && (forall k {:trigger n[k].prev} :: 0 < k < |n| - 1 ==> n[k].prev == n[if k < i then k + 1 else k - 1])
  }

  lemma SwappedEnd(n: seq<Elem>, i: nat)
    requires Swapped(n, i)
    ensures i < |n| && (n[i] == n[|n| - 1] <==> i == |n| - 1)
  {
  }

  /** One turn of the loop of `list_reverse`. */
  method SwapLinks(e: Elem, ghost n: seq<Elem>, ghost i: nat) returns (next: Elem)
    requires Swapped(n, i) && i < |n| - 1 && n[i] == e
    modifies e
    ensures Swapped(n, i + 1) && next == n[i + 1]
  {
    e.prev, e.next := e.next, e.prev;
    next := e.prev;
  }

  method SwapAll(first: Elem, tail: Elem, ghost n: seq<Elem>)
    requires Swapped(n, 1) && first == n[1] && tail == n[|n| - 1]
    modifies set x | x in n
    ensures Swapped(n, |n| - 1)
  {
    hide Swapped, Distinct;
    SwappedEnd(n, 1);
    var e := first;
    ghost var i := 1;
    while e != tail
      invariant 1 <= i < |n| && e == n[i] && Swapped(n, i)
      decreases |n| - i
    {
      SwappedEnd(n, i);
      e := SwapLinks(e, n, i);
      i := i + 1;
    }
    SwappedEnd(n, i);
  }

  /** The two swaps at its end. */
  method SwapEnds(head: Elem, tail: Elem, ghost n: seq<Elem>)
    requires |n| >= 3 && Swapped(n, |n| - 1) && head == n[0] && tail == n[|n| - 1]
    modifies set x | x in n
    ensures Linked(Mirrored(n))
  {
    ghost var last := |n| - 2;
    assert n[1].next == n[0] && n[last].prev == n[last + 1];
    assert n[0] != n[1] && n[0] != n[last] && n[last + 1] != n[1] && n[last + 1] != n[last] && n[0] != n[last + 1];
    head.next, tail.prev := tail.prev, head.next;
    head.next.prev, tail.prev.next := tail.prev.next, head.next.prev;
    assert n[1].next == n[last + 1] && n[last].prev == n[0];
    forall k | 0 < k < |n| - 1
      ensures n[k].next == if k == 1 then n[|n| - 1] else n[k - 1]
      ensures n[k].prev == if k == |n| - 2 then n[0] else n[k + 1]
    {
      assert old(n[k].next) == n[k - 1] && old(n[k].prev) == n[k + 1];
      assert k != 1 ==> n[k] != n[1];
      assert k != last ==> n[k] != n[last];
      assert n[k] != n[0] && n[k] != n[last + 1];
    }
    MirrorLinked(n);
  }

  lemma MirrorLinked(n: seq<Elem>)
    requires |n| >= 3 && Distinct(n) && n[0].prev == null && n[|n| - 1].next == null
    requires n[0].next == n[|n| - 2] && n[|n| - 1].prev == n[1]
    requires forall k {:trigger n[k].next} :: 0 < k < |n| - 1 ==> n[k].next == if k == 1 then n[|n| - 1] else n[k - 1]
    requires forall k {:trigger n[k].prev} :: 0 < k < |n| - 1 ==> n[k].prev == if k == |n| - 2 then n[0] else n[k + 1]
    ensures Linked(Mirrored(n))
  {
    var m := Mirrored(n);
    forall i | 0 <= i < |m| - 1 ensures m[i].next == m[i + 1] {
    }
    forall i | 0 < i < |m| ensures m[i].prev == m[i - 1] {
    }
  }

  /** Reversing twice changes nothing. */
  lemma MirroredTwice(n: seq<Elem>)
    requires |n| >= 2
    ensures Mirrored(Mirrored(n)) == n
  {
    var m := Mirrored(Mirrored(n));
    forall i | 0 <= i < |n| ensures m[i] == n[i] {
      assert 0 < i < |n| - 1 ==> m[i] == Mirrored(n)[|n| - 1 - i];
    }
  }

  lemma MirroredNodes(n: seq<Elem>)
    requires |n| >= 2
    ensures (set x | x in Mirrored(n)) == set x | x in n
  {
    var m := Mirrored(n);
    forall x | x in n ensures x in m {
      var i :| 0 <= i < |n| && n[i] == x;
      assert x == m[if 0 < i < |n| - 1 then |n| - 1 - i else i];
    }
  }

  /** Nodes `i` to `j` in front of node `p`. */
  ghost function Spliced(n: seq<Elem>, p: nat, i: nat, j: nat): seq<Elem>
    requires p < |n| && i <= j < |n| && (p < i || j <= p)
  {
    if p < i then n[..p] + n[i..j] + n[p..i] + n[j..] else n[..i] + n[j..p] + n[i..j] + n[p..]
  }

  lemma ApartSplice(f: seq<Elem>, n: seq<Elem>, p: nat, i: nat, j: nat)
    requires Distinct(f) && Apart(f, n) && p < |n| && i < j < |f|
    ensures Apart(f[i..j], n) && Apart(f[..i] + f[j..], n[..p] + f[i..j] + n[p..])
  {
    var g, m := f[..i] + f[j..], n[..p] + f[i..j] + n[p..];
    forall a, b | 0 <= a < |g| && 0 <= b < |m| ensures g[a] != m[b] {
      assert g[a] == f[if a < i then a else a + j - i];
      assert m[b] == if b < p then n[b] else if b < p + j - i then f[b - p + i] else n[b - (j - i)];
    }
  }

  lemma SplicedNone(n: seq<Elem>, p: nat, i: nat)
    requires p < |n| && i < |n|
    ensures Spliced(n, p, i, i) == n
  {
  }

  lemma SplicedIs(n: seq<Elem>, p: nat, i: nat, j: nat)
    requires 0 < p < |n| && 0 < i < j < |n| && (p < i || j <= p)
    ensures var m := n[..i] + n[j..]; var q := if p < i then p else p - (j - i);
            0 < q < |m| && m[q] == n[p] && m[..q] + n[i..j] + m[q..] == Spliced(n, p, i, j)
  {
  }

  /** Makes `a` and `b` neighbours: the chains `x`, up to `a`, and `y`, from `b` on, become one. */
  method Link(a: Elem, b: Elem, ghost x: seq<Elem>, ghost y: seq<Elem>)
    requires x != [] && y != [] && Chain(x) && Chain(y) && Apart(x, y)
    requires x[|x| - 1] == a && y[0] == b
    modifies a`next, b`prev
    ensures Chain(x + y)
  {
    a.next := b;
    b.prev := a;
    JoinChain(x, y);
  }

  // ----- Chains -----

  lemma ApartJoin<T>(x: seq<T>, y: seq<T>, z: seq<T>)
    requires Apart(y, x + z) && Apart(x, z)
    ensures Apart(x, y) && Apart(x + y, z)
  {
    assert forall k :: 0 <= k < |x| ==> (x + z)[k] == x[k];
    assert forall k :: 0 <= k < |z| ==> (x + z)[|x| + k] == z[k];
  }

  lemma CutChain(ns: seq<Elem>, i: nat, j: nat)
    requires Chain(ns) && i <= j <= |ns|
    ensures Chain(ns[..i]) && Chain(ns[i..j]) && Chain(ns[j..])
    ensures Apart(ns[..i], ns[j..]) && Apart(ns[..i], ns[i..j]) && Apart(ns[i..j], ns[j..])
  {
  }

  lemma JoinChain(x: seq<Elem>, y: seq<Elem>)
    requires x != [] && y != [] && Chain(x) && Chain(y) && Apart(x, y)
    requires x[|x| - 1].next == y[0] && y[0].prev == x[|x| - 1]
    ensures Chain(x + y)
  {
    var s := x + y;
    forall i, j | 0 <= i < j < |s| ensures s[i] != s[j] {
      assert i < |x| <= j ==> s[i] == x[i] && s[j] == y[j - |x|];
    }
    hide Distinct, Apart;
    assert forall i {:trigger s[i].next} :: 0 <= i < |x| ==> s[i] == x[i];
    assert forall i {:trigger s[i].next} :: |x| <= i < |s| ==> s[i] == y[i - |x|];
  }

  /** The run that starts at `a` ends at `r`, looking no further than `b`. */
  ghost predicate EndsRun<E>(ns: seq<E>, less: Less<E>, a: nat, r: nat, b: nat) {
    a < b <= |ns| && r == a + RunLen(ns[a..b], less)
  }

  lemma EndOfRun<E>(ns: seq<E>, less: Less<E>, a: nat, r: nat, b: nat)
    requires a < r <= b <= |ns|
    requires forall k :: a < k < r ==> !less(ns[k], ns[k - 1])
    requires r < b ==> less(ns[r], ns[r - 1])
    ensures EndsRun(ns, less, a, r, b)
  {
    var s := ns[a..b];
    var k := RunLen(s, less);
    assert k < |s| ==> s[k] == ns[a + k] && s[k - 1] == ns[a + k - 1];
    assert r < b ==> s[r - a] == ns[r] && s[r - a - 1] == ns[r - 1];
  }

  // ----- The state of a merge -----

  /**
   * In `ns`, nodes `a` to `m` and `m` to `b` are being merged, and `s` is the list so far: `a` to
   * `i` is done, and merging `i` to `j` with `j` to `b` completes it.
   */
  ghost predicate Merging<E>(ns: seq<E>, s: seq<E>, less: Less<E>, a: nat, m: nat, i: nat, j: nat, b: nat) {
    && a <= m <= b <= |ns| == |s| && a <= i <= j <= b
    && s[..a] == ns[..a] && s[b..] == ns[b..]
    && s[a..i] + Merge(s[i..j], s[j..b], less) == Merge(ns[a..m], ns[m..b], less)
  }

  /** `s` with `a` to `m` and `m` to `b` merged. */
  ghost function Merged<E>(s: seq<E>, less: Less<E>, a: nat, m: nat, b: nat): (t: seq<E>)
    requires a <= m <= b <= |s|
    ensures |t| == |s|
  {
    s[..a] + Merge(s[a..m], s[m..b], less) + s[b..]
  }

  lemma StartMerge<E>(s: seq<E>, less: Less<E>, a: nat, m: nat, b: nat)
    requires a <= m <= b <= |s|
    ensures Merging(s, s, less, a, m, a, m, b)
  {
    var r := Merge(s[a..m], s[m..b], less);
    assert s[a..a] + r == r;
  }

  lemma TakeLeft<E>(ns: seq<E>, s: seq<E>, less: Less<E>, a: nat, m: nat, i: nat, j: nat, b: nat)
    requires Merging(ns, s, less, a, m, i, j, b) && i < j < b && !less(s[j], s[i])
    ensures Merging(ns, s, less, a, m, i + 1, j, b)
  {
    assert s[i..j][1..] == s[i + 1..j];
    var r := Merge(s[i + 1..j], s[j..b], less);
    assert s[a..i] + ([s[i]] + r) == s[a..i + 1] + r;
  }

  lemma TakeRight<E>(ns: seq<E>, s: seq<E>, less: Less<E>, a: nat, m: nat, i: nat, j: nat, b: nat)
    requires Merging(ns, s, less, a, m, i, j, b) && i < j < b && less(s[j], s[i])
    ensures Merging(ns, Moved(s, i, j), less, a, m, i + 1, j + 1, b)
  {
    var t := Moved(s, i, j);
    MovedSlices(s, a, i, j, b);
    hide Moved;
    assert s[j..b][1..] == s[j + 1..b];
    var r := Merge(s[i..j], s[j + 1..b], less);
    assert s[a..i] + ([s[j]] + r) == t[a..i + 1] + r;
  }

  lemma MovedSlices<E>(s: seq<E>, a: nat, i: nat, j: nat, b: nat)
    requires a <= i < j < b <= |s|
    ensures var t := Moved(s, i, j);
            && t[..a] == s[..a] && t[b..] == s[b..]
            && t[a..i + 1] == s[a..i] + [s[j]] && t[i + 1..j + 1] == s[i..j] && t[j + 1..b] == s[j + 1..b]
  {
  }

  lemma MovedAt<E>(s: seq<E>, i: nat, j: nat)
    requires i < j < |s|
    ensures Moved(s, i, j)[i + 1] == s[i] && forall k :: j < k < |s| ==> Moved(s, i, j)[k] == s[k]
  {
  }

  lemma MovedNodes<E>(s: seq<E>, i: nat, j: nat)
    requires i < j < |s|
    ensures (set x | x in Moved(s, i, j)) == set x | x in s
  {
    assert s == s[..i] + s[i..j] + s[j..j + 1] + s[j + 1..];
  }

  lemma EndMerge<E>(ns: seq<E>, s: seq<E>, less: Less<E>, a: nat, m: nat, i: nat, j: nat, b: nat)
    requires Merging(ns, s, less, a, m, i, j, b) && (i == j || j == b)
    ensures s == Merged(ns, less, a, m, b)
  {
    assert Merge(s[i..j], s[j..b], less) == s[i..b];
    assert s[a..i] + s[i..b] == s[a..b];
    assert s == s[..a] + s[a..b] + s[b..];
  }

  // ----- The state of a pass -----

  /**
   * A pass over the nodes between the two ends of `ns`, with `s` the list so far: the nodes before
   * `i` are merged into `cnt` runs, and a pass over the rest completes it.
   */
  ghost predicate Passing<E>(ns: seq<E>, s: seq<E>, less: Less<E>, i: nat, cnt: nat) {
    && |ns| == |s| && 1 <= i < |s|
    && s[1..i] + Pass(s[i..|s| - 1], less) == Pass(ns[1..|ns| - 1], less)
    && cnt + OutputRuns(s[i..|s| - 1], less) == OutputRuns(ns[1..|ns| - 1], less)
  }

  lemma StartPass<E>(s: seq<E>, less: Less<E>)
    requires |s| >= 2
    ensures Passing(s, s, less, 1, 0)
  {
    var r := Pass(s[1..|s| - 1], less);
    assert s[1..1] + r == r;
  }

  /** The last, unpaired run stays as it is. */
  lemma LastRun<E>(ns: seq<E>, s: seq<E>, less: Less<E>, i: nat, cnt: nat)
    requires Passing(ns, s, less, i, cnt) && i < |s| - 1
    requires EndsRun(s, less, i, |s| - 1, |s| - 1)
    ensures Passing(ns, s, less, |s| - 1, cnt + 1)
  {
    hide RunLen, Pass, OutputRuns;
    var r, n := s[i..|s| - 1], |s| - 1;
    OneRun(r, less);
    assert s[n..n] == [];
    NoRun(s[n..n], less);
    assert s[1..i] + r == s[1..n] + [];
  }

  lemma OneRun<E>(r: seq<E>, less: Less<E>)
    requires r != [] && RunLen(r, less) == |r|
    ensures Pass(r, less) == r && OutputRuns(r, less) == 1
  {
    assert Rest(r, less) == [];
  }

  lemma NoRun<E>(r: seq<E>, less: Less<E>)
    requires r == []
    ensures Pass(r, less) == [] && OutputRuns(r, less) == 0
  {
  }

  lemma MergeRuns<E>(ns: seq<E>, s: seq<E>, less: Less<E>, i: nat, m: nat, b: nat, cnt: nat)
    requires Passing(ns, s, less, i, cnt) && i < m < b < |s|
    requires EndsRun(s, less, i, m, |s| - 1) && EndsRun(s, less, m, b, |s| - 1)
    ensures Passing(ns, Merged(s, less, i, m, b), less, b, cnt + 1)
    ensures Merged(s, less, i, m, b)[b] == s[b]
  {
    hide RunLen, Merge, Pass, OutputRuns;
    var n := |s| - 1;
    var t, g, p := Merged(s, less, i, m, b), Merge(s[i..m], s[m..b], less), Pass(s[b..n], less);
    PassTwoRuns(s, less, i, m, b, n);
    assert t[b..n] == s[b..n] && t[1..b] == s[1..i] + g;
    hide EndsRun, Merged;
    assert s[1..i] + (g + p) == t[1..b] + p;
  }

  lemma RunIsFirst<E>(s: seq<E>, less: Less<E>, i: nat, m: nat, n: nat)
    requires EndsRun(s, less, i, m, n) && m <= n
    ensures First(s[i..n], less) == s[i..m] && Rest(s[i..n], less) == s[m..n]
  {
    hide RunLen;
  }

  lemma PassTwoRuns<E>(s: seq<E>, less: Less<E>, i: nat, m: nat, b: nat, n: nat)
    requires i < m < b <= n <= |s| && EndsRun(s, less, i, m, n) && EndsRun(s, less, m, b, n)
    ensures Pass(s[i..n], less) == Merge(s[i..m], s[m..b], less) + Pass(s[b..n], less)
    ensures OutputRuns(s[i..n], less) == 1 + OutputRuns(s[b..n], less)
  {
    RunIsFirst(s, less, i, m, n);
    RunIsFirst(s, less, m, b, n);
    hide First, Rest, EndsRun, Merge;
    assert s[i..n] != [] && s[m..n] != [];
  }

  lemma EndPass<E>(ns: seq<E>, s: seq<E>, less: Less<E>, cnt: nat)
    requires |s| >= 2 && Passing(ns, s, less, |s| - 1, cnt)
    ensures s[1..|s| - 1] == Pass(ns[1..|ns| - 1], less) && cnt == OutputRuns(ns[1..|ns| - 1], less)
  {
    assert s[|s| - 1..|s| - 1] == [];
  }

  /** The elements of `s` with element `j` moved to index `i`. */
  ghost function Moved<E>(s: seq<E>, i: nat, j: nat): (t: seq<E>)
    requires i < j < |s|
    ensures |t| == |s|
  {
    s[..i] + s[j..j + 1] + s[i..j] + s[j + 1..]
  }

}
