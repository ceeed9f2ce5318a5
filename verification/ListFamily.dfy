/** Lists that live side by side, and elements that move between them. */
module ListFamilies {
  import opened Lists

  type Rows = map<List, seq<Elem>>

  ghost function All(s: Rows): set<Elem> {
    set l, i | l in s && 0 <= i < |s[l]| :: s[l][i]
  }

  /** No element is on two lists. */
  ghost predicate AllApart(s: Rows) {
    forall l: List, m: List, x :: l in s && m in s && x in s[l] && x in s[m] ==> l == m
  }

  ghost function NodesIn(f: set<List>): Rows
    reads f
  {
    map l | l in f :: l.nodes
  }

  /** Everything the lists link, header elements included. */
  ghost function NodesOf(f: set<List>): set<Elem>
    reads f
  {
    set l, i | l in f && 0 <= i < |l.nodes| :: l.nodes[i]
  }

  ghost function Headers(f: set<List>): set<Elem> {
    (set l | l in f :: l.head) + (set l | l in f :: l.tail)
  }

  /** What the lists contain. */
  ghost function Contained(f: set<List>): set<Elem>
    reads f
  {
    NodesOf(f) - Headers(f)
  }

  /** Well-formed lists that have no element in common. */
  ghost predicate Family(f: set<List>)
    reads f, NodesOf(f)
  {
    (forall l :: l in f ==> l.Valid()) && AllApart(NodesIn(f))
  }

  lemma NodesAll(f: set<List>)
    ensures NodesOf(f) == All(NodesIn(f))
  {
    forall x | x in All(NodesIn(f)) ensures x in NodesOf(f) {
      var l: List, i :| l in f && 0 <= i < |NodesIn(f)[l]| && NodesIn(f)[l][i] == x;
      assert l.nodes[i] == x;
    }
    forall x | x in NodesOf(f) ensures x in All(NodesIn(f)) {
      var l: List, i :| l in f && 0 <= i < |l.nodes| && l.nodes[i] == x;
      assert NodesIn(f)[l][i] == x;
    }
  }

  /** One list's elements change to `ns`: `add` comes from no list, `drop` goes. */
  lemma RowChange(s: Rows, l: List, ns: seq<Elem>, add: set<Elem>, drop: set<Elem>)
    requires l in s && AllApart(s) && add !! All(s) && (forall x :: x in drop ==> x in s[l])
    requires forall x :: x in ns <==> (x in s[l] && x !in drop) || x in add
    ensures AllApart(s[l := ns]) && All(s[l := ns]) == All(s) - drop + add
  {
    var t := s[l := ns];
    forall m: List, x | m in s && x in s[m] ensures x in All(s) {
    }
    forall x | x in All(t) ensures x in All(s) - drop + add {
      var m: List, i :| m in t && 0 <= i < |t[m]| && t[m][i] == x;
      assert x in t[m];
    }
    forall x | x in All(s) - drop + add ensures x in All(t) {
      if x in add {
        assert x in t[l];
      } else {
        var m: List, i :| m in s && 0 <= i < |s[m]| && s[m][i] == x;
        assert x in s[m];
        assert x in t[m];
      }
    }
  }

  /** A list none of whose elements changes stays as it is. */
  twostate lemma Stays(m: List)
    requires old(m.Valid()) && unchanged(m)
    requires forall i :: 0 <= i < |old(m.nodes)| ==> unchanged(old(m.nodes)[i])
    ensures m.Valid()
  {
  }

  lemma OnlyHere(f: set<List>, l: List, m: List, i: nat)
    requires Family(f) && l in f && m in f && l != m && i < |m.nodes|
    ensures m.nodes[i] !in l.nodes && m.nodes[i] in NodesOf(f)
  {
    assert m.nodes[i] in NodesIn(f)[m];
    assert NodesIn(f)[l] == l.nodes;
  }

  lemma NodesWithin(f: set<List>, l: List)
    requires l in f
    ensures l.Nodes() <= NodesOf(f)
  {
  }

  lemma NotOn(f: set<List>, l: List, e: Elem)
    requires l in f
    ensures e in l.nodes ==> e in NodesOf(f)
  {
  }

  /** A list consists of its header elements and what it contains. */
  lemma NodesAre(l: List, x: Elem)
    requires l.Valid()
    ensures x in l.nodes <==> x == l.head || x == l.tail || x in l.Elems()
    ensures x in l.Elems() ==> x != l.head && x != l.tail
  {
    var n := l.nodes;
    assert n == [n[0]] + n[1..|n| - 1] + [n[|n| - 1]];
  }

  /** The family contains what its lists contain. */
  lemma ContainedIs(f: set<List>, x: Elem)
    requires Family(f)
    ensures x in Contained(f) <==> exists l :: l in f && x in l.Elems()
  {
    hide AllApart, List.Valid, List.Elems;
    forall l | l in f ensures x in l.nodes <==> x == l.head || x == l.tail || x in l.Elems() {
      NodesAre(l, x);
    }
    if x in NodesOf(f) && x !in Headers(f) {
      var l: List, i :| l in f && 0 <= i < |l.nodes| && l.nodes[i] == x;
      assert x in l.nodes;
    }
    if l :| l in f && x in l.Elems() {
      NotOn(f, l, x);
      InteriorNotHeader(f, l, x);
    }
  }

  lemma InteriorNotHeader(f: set<List>, l: List, x: Elem)
    requires Family(f) && l in f && x in l.Elems()
    ensures x !in Headers(f)
  {
    NodesAre(l, x);
    forall m | m in f ensures x != m.head && x != m.tail {
      NodesAre(m, x);
      assert x in NodesIn(f)[l];
      if x in m.nodes {
        assert x in NodesIn(f)[m];
      }
    }
  }

  /** Families without a common element form one family, and a part of a family is a family. */
  lemma Join(f: set<List>, g: set<List>)
    requires Family(f) && Family(g) && NodesOf(f) !! NodesOf(g)
    ensures Family(f + g) && NodesOf(f + g) == NodesOf(f) + NodesOf(g) && Headers(f + g) == Headers(f) + Headers(g)
  {
    hide List.Valid;
    var s := NodesIn(f + g);
    forall l: List, m: List, x | l in s && m in s && x in s[l] && x in s[m] ensures l == m {
      InOne(f, l, x);
      InOne(f, m, x);
      InOne(g, l, x);
      InOne(g, m, x);
    }
  }

  lemma InOne(f: set<List>, l: List, x: Elem)
    requires Family(f) && x in l.nodes
    ensures l in f ==> x in NodesIn(f)[l] && x in NodesOf(f)
  {
  }

  lemma Part(f: set<List>, g: set<List>)
    requires Family(f) && g <= f
    ensures Family(g) && NodesOf(g) <= NodesOf(f) && Headers(g) <= Headers(f)
  {
    forall l: List, m: List, x | l in g && m in g && x in NodesIn(g)[l] && x in NodesIn(g)[m] ensures l == m {
      assert x in NodesIn(f)[l] && x in NodesIn(f)[m];
    }
  }

  lemma Nothing()
    ensures Family({}) && NodesOf({}) == {}
  {
  }

  /** A new list alone. */
  lemma Single(l: List)
    requires l.Valid() && l.nodes == [l.head, l.tail]
    ensures Family({l}) && NodesOf({l}) == Headers({l}) == {l.head, l.tail} && Contained({l}) == {}
  {
  }

  lemma ContainedUnion(f: set<List>, g: set<List>)
    requires Family(f + g)
    ensures Contained(f + g) == Contained(f) + Contained(g)
  {
    hide Family, List.Elems;
    Part(f + g, f);
    Part(f + g, g);
    forall x ensures x in Contained(f + g) <==> x in Contained(f) + Contained(g) {
      ContainedIs(f, x);
      ContainedIs(g, x);
      ContainedIs(f + g, x);
    }
  }

  lemma ContainedPart(f: set<List>, g: set<List>)
    requires Family(f) && g <= f
    ensures Contained(g) <= Contained(f)
  {
    assert f == g + f;
    ContainedUnion(g, f);
  }

  lemma SameContained(f: set<List>)
    ensures Contained(f) == NodesOf(f) - Headers(f)
  {
  }

  lemma HeadersWithin(f: set<List>)
    requires Family(f)
    ensures Headers(f) <= NodesOf(f)
  {
    forall l | l in f ensures l.head in l.nodes && l.tail in l.nodes {
    }
  }

  /** Lists that contain nothing consist of headers. */
  lemma EmptyLists(f: set<List>)
    requires Family(f) && forall l :: l in f ==> l.Elems() == []
    ensures Contained(f) == {}
  {
    forall x ensures x !in Contained(f) {
      ContainedIs(f, x);
    }
  }

  /** `list_insert`: the other lists stay as they are. */
  method Insert(ghost f: set<List>, l: List, before: Elem, e: Elem, ghost p: nat)
    requires Family(f) && l in f && e !in NodesOf(f) && 0 < p < |l.nodes| && l.nodes[p] == before
    modifies l, l.Nodes(), e
    ensures Family(f) && l.nodes == old(l.nodes)[..p] + [e] + old(l.nodes)[p..]
    ensures NodesOf(f) == old(NodesOf(f)) + {e}
  {
    hide List.Valid, AllApart, All, NodesOf;
    ghost var s := NodesIn(f);
    NodesAll(f);
    forall m, i | m in f && m != l && 0 <= i < |m.nodes| ensures m.nodes[i] !in l.nodes && m.nodes[i] != e {
      OnlyHere(f, l, m, i);
    }
    assert forall x :: x in l.nodes[..p] + [e] + l.nodes[p..] <==> x in l.nodes || x == e;
    RowChange(s, l, l.nodes[..p] + [e] + l.nodes[p..], {e}, {});
    NotOn(f, l, e);
    l.Insert(before, e, p);
    forall m | m in f && m != l ensures m.Valid() {
      assert old(m.Valid());
      Stays(m);
    }
    assert NodesIn(f) == s[l := l.nodes];
    NodesAll(f);
  }

  /** `list_push_front` */
  method PushFront(ghost f: set<List>, l: List, e: Elem)
    requires Family(f) && l in f && e !in NodesOf(f)
    modifies l, l.Nodes(), e
    ensures Family(f) && l.Elems() == [e] + old(l.Elems())
    ensures NodesOf(f) == old(NodesOf(f)) + {e}
  {
    FirstOf(f, l);
    hide Family, NodesOf;
    Insert(f, l, l.head.next, e, 1);
  }

  /** `list_push_back` */
  method PushBack(ghost f: set<List>, l: List, e: Elem)
    requires Family(f) && l in f && e !in NodesOf(f)
    modifies l, l.Nodes(), e
    ensures Family(f) && l.Elems() == old(l.Elems()) + [e]
    ensures NodesOf(f) == old(NodesOf(f)) + {e}
  {
    FirstOf(f, l);
    hide Family, NodesOf;
    Insert(f, l, l.tail, e, |l.nodes| - 1);
  }

  /** `list_remove` of the element at `k`. */
  method Remove(ghost f: set<List>, l: List, e: Elem, ghost k: nat)
    requires Family(f) && l in f && k < |l.Elems()| && l.Elems()[k] == e
    modifies l, l.Nodes()
    ensures Family(f) && l.Elems() == old(l.Elems())[..k] + old(l.Elems())[k + 1..]
    ensures |l.nodes| >= k + 2 && |old(l.nodes)| >= k + 3 && l.nodes[k + 1] == old(l.nodes)[k + 2]
    ensures e in old(NodesOf(f)) && NodesOf(f) == old(NodesOf(f)) - {e}
  {
    hide List.Valid, AllApart, All, NodesOf;
    ghost var s := NodesIn(f);
    NodesAll(f);
    FirstOf(f, l);
    forall m, i | m in f && m != l && 0 <= i < |m.nodes| ensures m.nodes[i] !in l.nodes {
      OnlyHere(f, l, m, i);
    }
    NotOn(f, l, e);
    ghost var ns := l.nodes[..k + 1] + l.nodes[k + 2..];
    WithoutOne(l, k + 1);
    InnerWithout(l.nodes, k);
    RowChange(s, l, ns, {}, {e});
    var _ := l.Remove(e, k + 1);
    forall m | m in f && m != l ensures m.Valid() {
      assert old(m.Valid());
      Stays(m);
    }
    assert NodesIn(f) == s[l := l.nodes];
    NodesAll(f);
  }

  /** The first element of `from` moves to the front of `to`; `next` is read before it is unlinked. */
  method MoveFirst(ghost f: set<List>, from: List, to: List, e: Elem) returns (next: Elem)
    requires Family(f) && from in f && to in f && from != to && from.Elems() != [] && from.Elems()[0] == e
    modifies from, to, NodesOf(f)
    ensures Family(f) && NodesOf(f) == old(NodesOf(f))
    ensures from.Elems() == old(from.Elems())[1..] && to.Elems() == [e] + old(to.Elems())
    ensures |from.nodes| >= 2 && next == from.nodes[1]
  {
    hide Family, NodesOf, List.Elems;
    SecondOf(f, from);
    NodesWithin(f, from);
    ghost var es := from.Elems();
    assert es[..0] + es[1..] == es[1..];
    next := e.next;
    Remove(f, from, e, 0);
    NodesWithin(f, to);
    PushFront(f, to, e);
  }

  lemma WithoutOne(l: List, p: nat)
    requires l.Valid() && p < |l.nodes|
    ensures forall x :: x in l.nodes[..p] + l.nodes[p + 1..] <==> x in l.nodes && x != l.nodes[p]
  {
    var n := l.nodes;
    assert n == n[..p] + [n[p]] + n[p + 1..];
  }

  lemma InnerWithout(n: seq<Elem>, k: nat)
    requires k + 2 < |n|
    ensures var m := n[..k + 1] + n[k + 2..];
            m[1..|m| - 1] == n[1..|n| - 1][..k] + n[1..|n| - 1][k + 1..]
  {
  }

  lemma FirstOf(f: set<List>, l: List)
    requires Family(f) && l in f
    ensures l.Valid() && |l.nodes| >= 2 && l.head.next == l.nodes[1] && l.tail == l.nodes[|l.nodes| - 1]
  {
  }

  /** `list_begin` is the first element, or the tail of an empty list. */
  lemma BeginOf(f: set<List>, l: List, e: Elem)
    requires Family(f) && l in f && |l.nodes| >= 2 && e == l.nodes[1]
    ensures e == l.tail <==> l.Elems() == []
    ensures l.Elems() != [] ==> l.Elems()[0] == e
  {
  }

  lemma SecondOf(f: set<List>, l: List)
    requires Family(f) && l in f && l.Elems() != []
    ensures |l.nodes| >= 3 && l.nodes[1] == l.Elems()[0] && l.Elems()[0].next == l.nodes[2]
  {
  }
}
