/** The ready list and the semaphores' wait lists, which share the one list element of each thread. */
module ThreadQueues {
  import opened Lists
  import ListFamilies
  import opened SchedSpec
  import opened SynchSpec

  class Queues {
    /** Where the `elem` of each thread is, and `list_entry` back to the thread. */
    const elemOf: map<Tid, Elem>
    const threadOf: map<Elem, Tid>
    const readyList: List
    var waiters: map<SemaId, List>
    /** Everything the operations may change. */
    ghost var repr: set<object>

    ghost function Lists(): set<List>
      reads this
    {
      {readyList} + waiters.Values
    }

    ghost function Nodes(): set<Elem>
      reads this, Lists()
    {
      ListFamilies.NodesOf(Lists())
    }

    ghost predicate Valid()
      reads this, repr
    {
      && this in repr && Lists() <= repr && Nodes() <= repr && elemOf.Values <= repr
      && ListFamilies.Family(Lists())
      && readyList !in waiters.Values
      && (forall s, r :: s in waiters && r in waiters && waiters[s] == waiters[r] ==> s == r)
      && (forall t :: t in elemOf ==> elemOf[t] in threadOf && threadOf[elemOf[t]] == t)
      && ListFamilies.Headers(Lists()) !! elemOf.Values
      && ListFamilies.Contained(Lists()) <= elemOf.Values
    }

    /** `thread_init`: an empty ready list. */
    constructor (elemOf: map<Tid, Elem>, threadOf: map<Elem, Tid>)
      requires forall t :: t in elemOf ==> elemOf[t] in threadOf && threadOf[elemOf[t]] == t
      ensures Valid() && Ready() == [] && Waiting() == map[] && this.elemOf == elemOf
      ensures fresh(repr - elemOf.Values)
    {
      hide Valid, Ready, Waiting;
      var l := new List();
      this.elemOf, this.threadOf, readyList, waiters := elemOf, threadOf, l, map[];
      repr := {this, l, l.head, l.tail} + elemOf.Values;
      new;
      StartEmpty();
    }

    lemma StartEmpty()
      requires waiters == map[] && readyList.Valid() && readyList.nodes == [readyList.head, readyList.tail]
      requires forall t :: t in elemOf ==> elemOf[t] in threadOf && threadOf[elemOf[t]] == t
      requires readyList.head !in elemOf.Values && readyList.tail !in elemOf.Values
      requires repr == {this, readyList, readyList.head, readyList.tail} + elemOf.Values
      ensures Valid() && Ready() == [] && Waiting() == map[]
    {
      assert Lists() == {readyList};
      ListFamilies.Single(readyList);
    }

    function TidOf(x: Elem): Tid {
      if x in threadOf then threadOf[x] else 0
    }

    ghost function Tids(es: seq<Elem>): (r: seq<Tid>)
      ensures |r| == |es| && forall i :: 0 <= i < |es| ==> r[i] == TidOf(es[i])
    {
      seq(|es|, i requires 0 <= i < |es| => TidOf(es[i]))
    }

    /** The threads on the ready list. */
    ghost function Ready(): seq<Tid>
      requires Valid()
      reads this, repr
    {
      Tids(readyList.Elems())
    }

    /** The threads on the wait lists. */
    ghost function Waiting(): map<SemaId, seq<Tid>>
      requires Valid()
      reads this, repr
    {
      map s | s in waiters :: Tids(waiters[s].Elems())
    }

    ghost predicate Queued(t: Tid)
      requires Valid()
      reads this, repr
    {
      t in Ready() || exists s :: s in Waiting() && t in Waiting()[s]
    }

    /** `list_empty` */
    predicate Empty(l: List)
      reads l.head
    {
      l.head.next == l.tail
    }

    lemma EmptyIs()
      requires Valid()
      ensures Empty(readyList) <==> Ready() == []
      ensures forall s :: s in Waiting() ==> s in waiters && (Empty(waiters[s]) <==> Waiting()[s] == [])
    {
      hide ListFamilies.Family, List.Elems, ListFamilies.NodesOf, ListFamilies.Headers;
      forall l | l in Lists() ensures Empty(l) <==> l.Elems() == [] {
        ListFamilies.FirstOf(Lists(), l);
        ListFamilies.BeginOf(Lists(), l, l.nodes[1]);
      }
    }

    /** An element that is linked belongs to a thread on a list. */
    lemma LinkedIsQueued(t: Tid)
      requires Valid() && t in elemOf && elemOf[t] in Nodes()
      ensures Queued(t)
    {
      hide ListFamilies.Family, ListFamilies.Contained, List.Elems;
      var e := elemOf[t];
      ListFamilies.SameContained(Lists());
      ListFamilies.ContainedIs(Lists(), e);
      var l :| l in Lists() && e in l.Elems();
      var i :| 0 <= i < |l.Elems()| && l.Elems()[i] == e;
      assert Tids(l.Elems())[i] == t;
      if l != readyList {
        var s :| s in waiters && waiters[s] == l;
        assert t in Waiting()[s];
      }
    }

    /** `list_push_back (l, &t->elem)` */
    method PushOn(l: List, t: Tid)
      requires Valid() && l in Lists() && t in elemOf && !Queued(t)
      modifies repr
      ensures Valid() && waiters == old(waiters) && l.Elems() == old(l.Elems()) + [elemOf[t]] && TidOf(elemOf[t]) == t
      ensures forall m :: m in Lists() && m != l ==> m.Elems() == old(m.Elems())
      ensures repr == old(repr)
    {
      hide ListFamilies.Family, ListFamilies.NodesOf, ListFamilies.Headers, List.Elems, Queued;
      if elemOf[t] in Nodes() {
        LinkedIsQueued(t);
        assert false;
      }
      ListFamilies.NodesWithin(Lists(), l);
      ListFamilies.PushBack(Lists(), l, elemOf[t]);
    }

    /** `list_pop_front (l)`, as a thread. */
    method PopFrom(l: List) returns (t: Tid)
      requires Valid() && l in Lists() && l.Elems() != []
      modifies repr
      ensures Valid() && waiters == old(waiters) && l.Elems() == old(l.Elems())[1..] && t == TidOf(old(l.Elems())[0])
      ensures forall m :: m in Lists() && m != l ==> m.Elems() == old(m.Elems())
      ensures repr == old(repr)
    {
      hide ListFamilies.Family, ListFamilies.NodesOf, ListFamilies.Headers, List.Elems, List.Valid;
      ghost var es, f := l.Elems(), Lists();
      ListFamilies.FirstOf(f, l);
      ListFamilies.BeginOf(f, l, l.nodes[1]);
      ListFamilies.InteriorNotHeader(f, l, es[0]);
      ListFamilies.NodesWithin(f, l);
      ListFamilies.NotOn(f, l, es[0]);
      assert es[..0] + es[1..] == es[1..];
      var e := l.head.next;
      ListFamilies.Remove(f, l, e, 0);
      t := TidOf(e);
    }

    /** `list_push_back (&ready_list, &t->elem)` */
    method PushReady(t: Tid)
      requires Valid() && t in elemOf && !Queued(t)
      modifies repr
      ensures Valid() && Ready() == old(Ready()) + [t] && Waiting() == old(Waiting())
      ensures repr == old(repr)
    {
      hide Valid, List.Elems, Queued;
      Separate();
      PushOn(readyList, t);
    }

    /** `list_pop_front (&ready_list)` */
    method PopReady() returns (t: Tid)
      requires Valid() && Ready() != []
      modifies repr
      ensures Valid() && t == old(Ready())[0] && Ready() == old(Ready())[1..] && Waiting() == old(Waiting())
      ensures repr == old(repr)
    {
      hide Valid, List.Elems;
      Separate();
      t := PopFrom(readyList);
    }

    /** `list_push_back (&sema->waiters, &t->elem)` */
    method PushWaiter(s: SemaId, t: Tid)
      requires Valid() && t in elemOf && !Queued(t) && s in Waiting()
      modifies repr
      ensures Valid() && Ready() == old(Ready()) && Waiting() == old(Waiting()[s := Waiting()[s] + [t]])
      ensures repr == old(repr)
    {
      hide Valid, List.Elems, Queued;
      Separate();
      ghost var w := Waiting();
      PushOn(waiters[s], t);
      assert Waiting()[s] == w[s] + [t];
      assert forall r :: r in waiters && r != s ==> Waiting()[r] == w[r];
      assert Waiting() == w[s := w[s] + [t]];
    }

    /** `list_pop_front (&sema->waiters)` */
    method PopWaiter(s: SemaId) returns (t: Tid)
      requires Valid() && s in Waiting() && Waiting()[s] != []
      modifies repr
      ensures Valid() && Ready() == old(Ready()) && t == old(Waiting()[s][0])
      ensures Waiting() == old(Waiting()[s := Waiting()[s][1..]])
      ensures repr == old(repr)
    {
      hide Valid, List.Elems;
      Separate();
      ghost var w := Waiting();
      t := PopFrom(waiters[s]);
      assert Waiting()[s] == w[s][1..];
      assert forall r :: r in waiters && r != s ==> Waiting()[r] == w[r];
      assert Waiting() == w[s := w[s][1..]];
    }

    /** `sema_init`: a new, empty wait list; an old one must be empty. */
    method InitWaiters(s: SemaId)
      requires Valid() && (s in Waiting() ==> Waiting()[s] == [])
      modifies repr
      ensures Valid() && Ready() == old(Ready()) && Waiting() == old(Waiting())[s := []]
      ensures fresh(repr - old(repr))
    {
      hide Valid, Ready, Waiting, List.Valid;
      InRepr();
      ghost var nodes := Nodes();
      var l := new List();
      Install(s, l);
    }

    lemma InRepr()
      requires Valid()
      ensures this in repr && Nodes() <= repr && Lists() <= repr && elemOf.Values <= repr
    {
    }

    method Install(s: SemaId, l: List)
      requires Valid() && (s in Waiting() ==> Waiting()[s] == [])
      requires l.Valid() && l.nodes == [l.head, l.tail] && l !in Lists()
      requires {l.head, l.tail} !! Nodes() && {l.head, l.tail} !! elemOf.Values
      modifies this
      ensures Valid() && Ready() == old(Ready()) && Waiting() == old(Waiting())[s := []]
      ensures repr == old(repr) + {l, l.head, l.tail}
    {
      hide ListFamilies.Family, ListFamilies.NodesOf, ListFamilies.Contained, ListFamilies.Headers, List.Valid;
      hide List.Elems, Tids;
      ghost var f := Lists();
      ListFamilies.Single(l);
      ListFamilies.Join(f, {l});
      ListFamilies.ContainedUnion(f, {l});
      ghost var g := {readyList} + waiters[s := l].Values;
      ListFamilies.Part(f + {l}, g);
      ListFamilies.ContainedPart(f + {l}, g);
      EmptyList(l);
      waiters, repr := waiters[s := l], repr + {l, l.head, l.tail};
      assert Lists() == g;
    }

    lemma EmptyList(l: List)
      requires l.nodes == [l.head, l.tail]
      ensures Tids(l.Elems()) == []
    {
    }

    /** Different lists are different objects. */
    lemma Separate()
      requires Valid()
      ensures readyList !in waiters.Values
      ensures forall s, r :: s in waiters && r in waiters && waiters[s] == waiters[r] ==> s == r
    {
    }
  }
}
