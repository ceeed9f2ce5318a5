/** The chained hash table that rehashes. */
module HashTables {
  import opened Options
  import opened Bits
  import opened Sequences
  import opened Lists
  import ListFamilies
  import opened HashSpec

  const BEST_ELEMS_PER_BUCKET := 2

  /** The keys of a bucket's elements. */
  ghost function Keys<K>(entry: Elem -> K, es: seq<Elem>): (r: seq<K>)
    ensures |r| == |es| && forall i :: 0 <= i < |es| ==> r[i] == entry(es[i])
  {
    seq(|es|, i requires 0 <= i < |es| => entry(es[i]))
  }

  lemma KeysOf<K>(entry: Elem -> K, e: Elem, es: seq<Elem>)
    ensures Keys(entry, [e] + es) == [entry(e)] + Keys(entry, es)
    ensures forall k :: 0 <= k < |es| ==>
              Keys(entry, es[..k] + es[k + 1..]) == Keys(entry, es)[..k] + Keys(entry, es)[k + 1..]
  {
  }

  ghost function KeyRows<K>(entry: Elem -> K, bs: seq<List>): (r: seq<seq<K>>)
    reads bs
    ensures |r| == |bs| && forall i :: 0 <= i < |bs| ==> r[i] == Keys(entry, bs[i].Elems())
  {
    seq(|bs|, i requires 0 <= i < |bs| reads bs => Keys(entry, bs[i].Elems()))
  }

  lemma RowChange<K>(entry: Elem -> K, bs: seq<List>, was: seq<seq<K>>, i: nat, row: seq<K>)
    requires i < |bs| == |was| && Keys(entry, bs[i].Elems()) == row
    requires forall j :: 0 <= j < |bs| && j != i ==> Keys(entry, bs[j].Elems()) == was[j]
    ensures KeyRows(entry, bs) == was[i := row]
  {
    hide Keys;
  }

  function KeyedOp<K>(entry: Elem -> K, op: Op<Elem>): Op<K> {
    match op
    case Insert(e) => Insert(entry(e))
    case Replace(e) => Replace(entry(e))
    case Delete(e) => Delete(entry(e))
    case Lookup(e) => Lookup(entry(e))
  }

  function KeyedOps<K>(entry: Elem -> K, ops: seq<Op<Elem>>): (r: seq<Op<K>>)
    ensures |r| == |ops| && forall i :: 0 <= i < |ops| ==> r[i] == KeyedOp(entry, ops[i])
  {
    seq(|ops|, i requires 0 <= i < |ops| => KeyedOp(entry, ops[i]))
  }

  class HashTable<K(!new)> {
    /** `hash_entry`: what the structure around an element holds. */
    const entry: Elem -> K
    const hash: Hash<K>
    const less: Less<K>
    var buckets: seq<List>
    var elemCnt: nat

    ghost function Lists(): set<List>
      reads this
    {
      set l | l in buckets
    }

    ghost function Rows(): (r: seq<seq<K>>)
      reads this, Lists()
      ensures |r| == |buckets|
    {
      KeyRows(entry, buckets)
    }

    ghost function Elems(): set<K>
      reads this, Lists()
    {
      Members(Rows())
    }

    /** The element structures that the buckets link. */
    ghost function Linked(): set<Elem>
      reads this, Lists()
    {
      ListFamilies.Contained(Lists())
    }

    ghost function Nodes(): set<Elem>
      reads this, Lists()
    {
      ListFamilies.NodesOf(Lists())
    }

    ghost function Headers(): set<Elem>
      reads this
    {
      ListFamilies.Headers(Lists())
    }

    ghost predicate Valid()
      reads this, Lists(), Nodes()
    {
      && Coherent(hash, less) && Distinct(buckets) && ListFamilies.Family(Lists()) && Placed(Rows(), hash, less)
      && IsPowerOf2(|buckets|) && |buckets| >= 4
      && elemCnt == |Elems()|
    }

    /** Not more elements per bucket than intended. */
    predicate Light()
      reads this
    {
      elemCnt < 4 * |buckets|
    }

    constructor (entry: Elem -> K, hash: Hash<K>, less: Less<K>, buckets: seq<List>)
      ensures this.entry == entry && this.hash == hash && this.less == less
      ensures this.buckets == buckets && elemCnt == 0
    {
      this.entry, this.hash, this.less, this.buckets, elemCnt := entry, hash, less, buckets, 0;
    }

    function KeyOf(r: Option<Elem>): Option<K> {
      if r.None? then None else Some(entry(r.value))
    }

    /** `find_elem`, and the element's place in its bucket. */
    method FindElem(l: List, k: K) returns (r: Option<Elem>, ghost p: nat)
      requires l.Valid()
      ensures r.Some? ==> p < |l.Elems()| && l.Elems()[p] == r.value && Equal(less, entry(r.value), k)
      ensures r.None? ==> forall j :: 0 <= j < |l.Elems()| ==> !Equal(less, entry(l.Elems()[j]), k)
    {
      var i := l.head.next;
      p := 0;
      while i != l.tail
        invariant p <= |l.Elems()| && i == l.nodes[p + 1]
        invariant forall j :: 0 <= j < p ==> !Equal(less, entry(l.Elems()[j]), k)
        decreases |l.nodes| - p
      {
        if Equal(less, entry(i), k) {
          return Some(i), p;
        }
        i, p := i.next, p + 1;
      }
      r := None;
    }

    lemma Bucket(i: nat)
      requires Valid() && i < |buckets|
      ensures buckets[i] in Lists() && buckets[i].Valid() && Rows()[i] == Keys(entry, buckets[i].Elems())
    {
    }

    lemma EmptyTable()
      requires Coherent(hash, less) && Distinct(buckets) && ListFamilies.Family(Lists()) && |buckets| == 4
      requires elemCnt == 0 && forall i :: 0 <= i < 4 ==> buckets[i].Elems() == []
      ensures Valid() && Elems() == {}
    {
      hide Coherent, ListFamilies.Family;
    }

    /** Elements are linked exactly when they are in a bucket, and then their keys are in the table. */
    lemma LinkedIs(x: Elem)
      requires Valid()
      ensures x in Linked() <==> exists i :: 0 <= i < |buckets| && x in buckets[i].Elems()
      ensures x in Linked() ==> entry(x) in Elems()
    {
      hide Placed, Coherent, ListFamilies.Family, IsPowerOf2, List.Elems, ListFamilies.Contained;
      ListFamilies.ContainedIs(Lists(), x);
      if x in Linked() {
        var l :| l in Lists() && x in l.Elems();
        var i :| 0 <= i < |buckets| && buckets[i] == l;
        var j :| 0 <= j < |l.Elems()| && l.Elems()[j] == x;
        assert Rows()[i][j] == entry(x);
        assert entry(x) in Rows()[i];
      }
    }

    /** Node `p` of bucket `i`, its successor and its key. */
    lemma Place(i: nat, p: nat)
      requires Valid() && i < |buckets|
      ensures var n := buckets[i].nodes;
              && |n| == |Rows()[i]| + 2 && n[0] == buckets[i].head
              && (p < |n| ==> (n[p] == buckets[i].tail <==> p == |n| - 1))
              && (p < |n| - 1 ==> n[p].next == n[p + 1])
              && (0 < p < |n| - 1 ==> Rows()[i][p - 1] == entry(n[p]))
    {
      hide Placed, Coherent;
      Bucket(i);
    }

    /** Looking for `k` in its bucket is looking in the whole table. */
    lemma BucketOf(k: K)
      requires Valid()
      ensures |buckets| > 0
      ensures var b := buckets[Index(hash, k, |buckets|)];
              && b.Valid()
              && (forall j :: 0 <= j < |b.Elems()| ==> b.Elems()[j] in Linked() && entry(b.Elems()[j]) in Elems())
              && (Absent(Elems(), less, k) <==>
                  forall j :: 0 <= j < |b.Elems()| ==> !Equal(less, entry(b.Elems()[j]), k))
    {
      hide Placed, Coherent, ListFamilies.Family, IsPowerOf2, List.Valid, List.Elems, Members, Absent, Equal;
      var i := Index(hash, k, |buckets|);
      var b := buckets[i];
      Bucket(i);
      AbsentIs(Rows(), hash, less, k);
      forall j | 0 <= j < |b.Elems()| ensures b.Elems()[j] in Linked() && entry(b.Elems()[j]) in Elems() {
        LinkedIs(b.Elems()[j]);
        assert b.Elems()[j] in b.Elems();
      }
      assert forall j :: 0 <= j < |Rows()[i]| ==> Rows()[i][j] == entry(b.Elems()[j]);
    }

    /** `hash_find` */
    method Find(e: Elem) returns (r: Option<Elem>)
      requires Valid()
      ensures Valid() && Finds(Elems(), less, entry(e), KeyOf(r)) && (r.Some? ==> r.value in Linked())
    {
      hide Valid, Elems, Linked, Index, Equal, Absent, List.Valid, List.Elems;
      BucketOf(entry(e));
      ghost var p, nodes := 0, Nodes();
      r, p := FindElem(buckets[Index(hash, entry(e), |buckets|)], entry(e));
      BucketOf(entry(e));
    }

    /** A header or an element without an equal in the table is all that can be in the way. */
    lemma NotLinked(e: Elem)
      requires Valid() && Absent(Elems(), less, entry(e)) && e !in Headers()
      ensures e !in Nodes()
    {
      LinkedIs(e);
      assert Equal(less, entry(e), entry(e));
    }

    /** `insert_elem` */
    method Push(i: nat, e: Elem)
      requires Valid() && Absent(Elems(), less, entry(e)) && e !in Headers()
      requires i == Index(hash, entry(e), |buckets|)
      modifies this, Lists(), Nodes(), e
      ensures Valid() && buckets == old(buckets)
      ensures Elems() == old(Elems()) + {entry(e)} && Nodes() == old(Nodes()) + {e}
      ensures Linked() == old(Linked()) + {e} && Lists() == old(Lists()) && Headers() == old(Headers())
    {
      hide Coherent, Placed, Members, ListFamilies.Family, ListFamilies.NodesOf, ListFamilies.Headers, KeyRows, Index;
      hide IsPowerOf2, Equal, Absent, Distinct, Valid, HashSpec.PushFront;
      Parts();
      ghost var bs, f := Rows(), Lists();
      NotLinked(e);
      ListFamilies.NodesWithin(f, buckets[i]);
      elemCnt := elemCnt + 1;
      PushRow(f, buckets, i, e);
      Pushed(bs, entry(e));
    }

    lemma Pushed(bs: seq<seq<K>>, k: K)
      requires Coherent(hash, less) && Distinct(buckets) && ListFamilies.Family(Lists())
      requires Placed(bs, hash, less) && Absent(Members(bs), less, k)
      requires Rows() == PushFront(bs, Index(hash, k, |bs|), k) && elemCnt == |Members(bs)| + 1
      requires IsPowerOf2(|buckets|) && |buckets| >= 4
      ensures Valid() && Elems() == Members(bs) + {k}
    {
      hide Coherent, Placed, Members, ListFamilies.Family, Index, IsPowerOf2, Absent, Distinct, HashSpec.PushFront;
      PushKeeps(bs, hash, less, k);
    }

    method PushRow(ghost f: set<List>, bs: seq<List>, i: nat, e: Elem)
      requires ListFamilies.Family(f) && Distinct(bs) && i < |bs| && e !in ListFamilies.NodesOf(f)
      requires forall j :: 0 <= j < |bs| ==> bs[j] in f
      modifies bs[i], bs[i].Nodes(), e
      ensures ListFamilies.Family(f) && ListFamilies.NodesOf(f) == old(ListFamilies.NodesOf(f)) + {e}
      ensures KeyRows(entry, bs) == PushFront(old(KeyRows(entry, bs)), i, entry(e))
    {
      hide ListFamilies.Family, ListFamilies.NodesOf, List.Valid, List.Elems, Keys;
      ghost var ks := KeyRows(entry, bs);
      KeysOf(entry, e, bs[i].Elems());
      ListFamilies.PushFront(f, bs[i], e);
      assert forall j :: 0 <= j < |bs| && j != i ==> bs[j].Elems() == old(bs[j].Elems());
      RowChange(entry, bs, ks, i, [entry(e)] + ks[i]);
    }

    /** `remove_elem` of the element at place `p` of bucket `i`. */
    method RemoveAt(i: nat, x: Elem, ghost p: nat)
      requires Valid() && i < |buckets| && p < |buckets[i].Elems()| && buckets[i].Elems()[p] == x
      modifies this, Lists(), Nodes()
      ensures Valid() && buckets == old(buckets)
      ensures Elems() == old(Elems()) - {entry(x)} && Nodes() == old(Nodes()) - {x}
      ensures Linked() == old(Linked()) - {x} && Lists() == old(Lists()) && Headers() == old(Headers())
    {
      hide Coherent, Placed, Members, ListFamilies.Family, ListFamilies.NodesOf, ListFamilies.Headers, KeyRows;
      hide List.Elems, IsPowerOf2, Equal, Distinct, Valid, DropAt;
      Parts();
      KeyAt(i, p);
      DropKeeps(Rows(), hash, less, i, p);
      ListFamilies.NodesWithin(Lists(), buckets[i]);
      ListFamilies.InteriorNotHeader(Lists(), buckets[i], x);
      elemCnt := elemCnt - 1;
      DropRow(Lists(), buckets, i, x, p);
      Whole();
    }

    lemma KeyAt(i: nat, p: nat)
      requires i < |buckets| && p < |buckets[i].Elems()|
      ensures p < |Rows()[i]| && Rows()[i][p] == entry(buckets[i].Elems()[p])
    {
    }

    method DropRow(ghost f: set<List>, bs: seq<List>, i: nat, x: Elem, ghost p: nat)
      requires ListFamilies.Family(f) && Distinct(bs) && i < |bs| && p < |bs[i].Elems()| && bs[i].Elems()[p] == x
      requires forall j :: 0 <= j < |bs| ==> bs[j] in f
      modifies bs[i], bs[i].Nodes()
      ensures ListFamilies.Family(f) && ListFamilies.NodesOf(f) == old(ListFamilies.NodesOf(f)) - {x}
      ensures p < |old(KeyRows(entry, bs)[i])| && KeyRows(entry, bs) == DropAt(old(KeyRows(entry, bs)), i, p)
    {
      hide ListFamilies.Family, ListFamilies.NodesOf, List.Valid, List.Elems, Keys;
      ghost var ks := KeyRows(entry, bs);
      KeysOf(entry, x, bs[i].Elems());
      ListFamilies.Remove(f, bs[i], x, p);
      assert forall j :: 0 <= j < |bs| && j != i ==> bs[j].Elems() == old(bs[j].Elems());
      RowChange(entry, bs, ks, i, ks[i][..p] + ks[i][p + 1..]);
    }

    /** Find the element equal to `e`, and remove it. */
    method RemoveEqual(e: Elem) returns (found: Option<Elem>)
      requires Valid()
      modifies this, Lists(), Nodes()
      ensures Valid() && buckets == old(buckets)
      ensures Finds(old(Elems()), less, entry(e), KeyOf(found)) && (found.Some? ==> found.value in old(Linked()))
      ensures Elems() == SetDelete(old(Elems()), less, entry(e))
      ensures Nodes() == old(Nodes()) - if found.Some? then {found.value} else {}
      ensures Linked() == old(Linked()) - if found.Some? then {found.value} else {}
      ensures Lists() == old(Lists()) && Headers() == old(Headers())
      ensures found.None? ==> elemCnt == old(elemCnt)
    {
      hide Valid, Elems, Linked, Index, Equal, Absent, List.Valid, List.Elems, SetDelete;
      BucketOf(entry(e));
      var i := Index(hash, entry(e), |buckets|);
      ghost var p, nodes := 0, Nodes();
      found, p := FindElem(buckets[i], entry(e));
      BucketOf(entry(e));
      DeletesFound(entry(e), KeyOf(found));
      if found.Some? {
        RemoveAt(i, found.value, p);
      }
    }

    /** Deleting what equals `k` deletes what was found. */
    lemma DeletesFound(k: K, r: Option<K>)
      requires Valid() && Finds(Elems(), less, k, r)
      ensures SetDelete(Elems(), less, k) == Elems() - if r.Some? then {r.value} else {}
    {
      hide Placed, Coherent, Members;
      if r.Some? {
        DeletesOne(Rows(), hash, less, k, r.value);
      }
    }

    /** One turn of the last loop of `rehash`: the first element of `b` moves to the front of bucket `k`. */
    method Relink(ghost f: set<List>, b: List, to: seq<List>, k: nat, elem: Elem) returns (next: Elem)
      requires ListFamilies.Family(f) && b in f && Distinct(to) && k < |to|
      requires (forall j :: 0 <= j < |to| ==> to[j] in f && to[j] != b) && b.Elems() != [] && b.Elems()[0] == elem
      modifies b, to[k], ListFamilies.NodesOf(f)
      ensures ListFamilies.Family(f) && ListFamilies.NodesOf(f) == old(ListFamilies.NodesOf(f))
      ensures b.Elems() == old(b.Elems())[1..] && |b.nodes| >= 2 && next == b.nodes[1]
      ensures KeyRows(entry, to) == PushFront(old(KeyRows(entry, to)), k, entry(elem))
    {
      hide ListFamilies.Family, ListFamilies.NodesOf, List.Valid, List.Elems, Keys;
      ghost var bs := KeyRows(entry, to);
      KeysOf(entry, elem, to[k].Elems());
      next := ListFamilies.MoveFirst(f, b, to[k], elem);
      assert forall j :: 0 <= j < |to| && j != k ==> to[j].Elems() == old(to[j].Elems());
      RowChange(entry, to, bs, k, [entry(elem)] + bs[k]);
    }

    /** The elements of the old bucket `b`, which was bucket `i` of `bs`, move to their new buckets. */
    method MoveBucket(ghost f: set<List>, ghost g: set<List>, b: List, to: seq<List>, ghost bs: seq<seq<K>>,
                      ghost i: nat)
      requires ListFamilies.Family(f) && b in f && b !in g && Distinct(to) && to != []
      requires forall j :: 0 <= j < |to| ==> to[j] in f && to[j] in g
      requires Coherent(hash, less) && Placed(bs, hash, less) && i < |bs| && Keys(entry, b.Elems()) == bs[i]
      requires Placed(KeyRows(entry, to), hash, less) && Members(KeyRows(entry, to)) == Members(bs[..i])
      modifies b, g, ListFamilies.NodesOf(f)
      ensures ListFamilies.Family(f) && ListFamilies.NodesOf(f) == old(ListFamilies.NodesOf(f)) && b.Elems() == []
      ensures Placed(KeyRows(entry, to), hash, less) && Members(KeyRows(entry, to)) == Members(bs[..i + 1])
    {
      hide ListFamilies.Family, ListFamilies.NodesOf, Coherent, Placed, Members, Keys, Rehashed, Equal;
      hide List.Valid, List.Elems, Index, Distinct, KeyRows, HashSpec.PushFront;
      ghost var es, j := b.Elems(), 0;
      ListFamilies.FirstOf(f, b);
      RehashedSoFar(bs, i, 0);
      var elem := b.head.next;
      while elem != b.tail
        invariant ListFamilies.Family(f) && ListFamilies.NodesOf(f) == old(ListFamilies.NodesOf(f))
        invariant j <= |es| && b.Elems() == es[j..] && |b.nodes| >= 2 && elem == b.nodes[1]
        invariant Placed(KeyRows(entry, to), hash, less) && Members(KeyRows(entry, to)) == Rehashed(bs, i, j)
        decreases |es| - j
      {
        ListFamilies.BeginOf(f, b, elem);
        assert es[j..][1..] == es[j + 1..];
        RehashedAbsent(bs, hash, less, i, j);
        RehashedSoFar(bs, i, j);
        PushKeeps(KeyRows(entry, to), hash, less, entry(elem));
        var k := Index(hash, entry(elem), |to|);
        elem := Relink(f, b, to, k, elem);
        j := j + 1;
      }
      ListFamilies.BeginOf(f, b, elem);
      RehashedSoFar(bs, i, j);
    }

    /** The last loop of `rehash`. */
    method MoveAll(ghost f: set<List>, ghost g: set<List>, from: seq<List>, to: seq<List>)
      requires ListFamilies.Family(f) && Distinct(from) && Distinct(to) && to != []
      requires g <= f && forall j :: 0 <= j < |from| ==> from[j] in f && from[j] !in g
      requires forall j :: 0 <= j < |to| ==> to[j] in g && to[j].Elems() == []
      requires Coherent(hash, less) && Placed(KeyRows(entry, from), hash, less)
      modifies f, ListFamilies.NodesOf(f)
      ensures ListFamilies.Family(f) && ListFamilies.NodesOf(f) == old(ListFamilies.NodesOf(f))
      ensures forall j :: 0 <= j < |from| ==> from[j].Elems() == []
      ensures Placed(KeyRows(entry, to), hash, less)
      ensures Members(KeyRows(entry, to)) == old(Members(KeyRows(entry, from)))
    {
      hide ListFamilies.Family, ListFamilies.NodesOf, Coherent, Placed, Members, Keys, List.Elems;
      ghost var bs := KeyRows(entry, from);
      NothingMoved(bs, entry, hash, less, to);
      var i := 0;
      while i < |from|
        invariant i <= |from| && ListFamilies.Family(f) && ListFamilies.NodesOf(f) == old(ListFamilies.NodesOf(f))
        invariant forall j :: 0 <= j < i ==> from[j].Elems() == []
        invariant forall j :: i <= j < |from| ==> Keys(entry, from[j].Elems()) == bs[j]
        invariant Placed(KeyRows(entry, to), hash, less) && Members(KeyRows(entry, to)) == Members(bs[..i])
      {
        MoveBucket(f, g, from[i], to, bs, i);
        i := i + 1;
      }
      assert bs[..i] == bs;
    }

    lemma HasBuckets()
      requires Valid()
      ensures |buckets| > 0
    {
    }

    lemma Parts()
      requires Valid()
      ensures Coherent(hash, less) && Distinct(buckets) && ListFamilies.Family(Lists())
      ensures Placed(Rows(), hash, less) && elemCnt == |Elems()| && IsPowerOf2(|buckets|) && |buckets| >= 4
    {
    }

    lemma Whole()
      requires Coherent(hash, less) && Distinct(buckets) && ListFamilies.Family(Lists())
      requires Placed(Rows(), hash, less) && elemCnt == |Elems()| && IsPowerOf2(|buckets|) && |buckets| >= 4
      ensures Valid()
    {
    }

    /** The table takes over the empty buckets `bs`, of lists `g`, with its elements. */
    method Resize(bs: seq<List>, ghost g: set<List>)
      requires Valid() && IsPowerOf2(|bs|) && |bs| >= 4 && Distinct(bs) && g == (set l | l in bs)
      requires (forall i :: 0 <= i < |bs| ==> bs[i].Elems() == []) && ListFamilies.Family(g)
      requires Lists() !! g && Nodes() !! ListFamilies.NodesOf(g)
      modifies this, Lists(), Nodes(), g, ListFamilies.NodesOf(g)
      ensures Valid() && Elems() == old(Elems()) && Linked() == old(Linked()) && elemCnt == old(elemCnt)
      ensures buckets == bs && Nodes() <= old(Nodes()) + old(ListFamilies.NodesOf(g))
    {
      hide ListFamilies.Family, ListFamilies.NodesOf, ListFamilies.Contained, ListFamilies.Headers, List.Elems;
      hide Coherent, Placed, Members, KeyRows, IsPowerOf2, Distinct, Valid;
      ghost var f := Lists();
      Parts();
      ListFamilies.Join(f, g);
      ListFamilies.ContainedUnion(f, g);
      ListFamilies.EmptyLists(g);
      ListFamilies.SameContained(f + g);
      MoveAll(f + g, g, buckets, bs);
      ListFamilies.SameContained(f + g);
      ListFamilies.ContainedUnion(f, g);
      ListFamilies.Part(f + g, f);
      ListFamilies.EmptyLists(f);
      ListFamilies.Part(f + g, g);
      buckets := bs;
      Whole();
    }

    /** `rehash`: the same elements, perhaps in another number of buckets. */
    method Rehash(mem: bool)
      requires Valid()
      modifies this, Lists(), Nodes()
      ensures Valid() && Elems() == old(Elems()) && Linked() == old(Linked()) && elemCnt == old(elemCnt)
      ensures mem ==> Light()
      ensures !mem ==> buckets == old(buckets)
      ensures fresh(Lists() - old(Lists())) && fresh(Nodes() - old(Nodes())) && fresh(Headers() - old(Headers()))
    {
      hide ListFamilies.Family, List.Elems, Elems, Rows, IsPowerOf2, Distinct, Valid;
      var n := IdealCount(elemCnt);
      if n == |buckets| || !mem {
        return;
      }
      var bs := NewBuckets(n);
      ghost var g := set l | l in bs;
      ListFamilies.HeadersWithin(g);
      Resize(bs, g);
    }

    /** An element without an equal in the table goes in. */
    method InsertNew(e: Elem, mem: bool)
      requires Valid() && Absent(Elems(), less, entry(e)) && e !in Headers()
      modifies this, Lists(), Nodes(), e
      ensures Valid() && Elems() == old(Elems()) + {entry(e)} && Linked() == old(Linked()) + {e}
      ensures mem ==> Light()
      ensures fresh(Lists() - old(Lists())) && fresh(Nodes() - old(Nodes()) - {e}) && fresh(Headers() - old(Headers()))
    {
      hide Valid, Elems, Linked, Nodes, Headers, Index, Absent;
      HasBuckets();
      Push(Index(hash, entry(e), |buckets|), e);
      Rehash(mem);
    }

    /** `hash_insert`; `mem` tells whether `rehash` gets memory. */
    method Insert(e: Elem, mem: bool) returns (was: Option<Elem>)
      requires Valid() && e !in Headers()
      modifies this, Lists(), Nodes(), e
      ensures Valid() && Finds(old(Elems()), less, entry(e), KeyOf(was))
      ensures Elems() == SetInsert(old(Elems()), less, entry(e))
      ensures Linked() == if was.None? then old(Linked()) + {e} else old(Linked())
      ensures was.Some? ==> was.value in old(Linked())
      ensures mem ==> Light()
      ensures fresh(Lists() - old(Lists())) && fresh(Nodes() - old(Nodes()) - {e}) && fresh(Headers() - old(Headers()))
    {
      hide Valid, Elems, Linked, Headers, Equal, Nodes;
      ghost var nodes, headers := Nodes(), Headers();
      was := Find(e);
      assert Headers() == headers && Nodes() == nodes;
      if was.None? {
        InsertNew(e, mem);
        assert fresh(Nodes() - nodes - {e}) && fresh(Headers() - headers);
      } else {
        Rehash(mem);
        assert fresh(Nodes() - nodes) && fresh(Headers() - headers);
      }
    }

    /** `hash_replace` */
    method Replace(e: Elem, mem: bool) returns (was: Option<Elem>)
      requires Valid() && e !in Headers()
      modifies this, Lists(), Nodes(), e
      ensures Valid() && Finds(old(Elems()), less, entry(e), KeyOf(was))
      ensures Elems() == SetReplace(old(Elems()), less, entry(e))
      ensures Linked() == old(Linked()) - (if was.Some? then {was.value} else {}) + {e}
      ensures was.Some? ==> was.value in old(Linked())
      ensures mem ==> Light()
      ensures fresh(Lists() - old(Lists())) && fresh(Nodes() - old(Nodes()) - {e}) && fresh(Headers() - old(Headers()))
    {
      hide Valid, Elems, Linked, Nodes, Headers, Equal, Absent, SetDelete;
      ghost var nodes, headers, linked := Nodes(), Headers(), Linked();
      was := RemoveEqual(e);
      assert Headers() == headers && Nodes() <= nodes;
      Deleted(old(Elems()), entry(e));
      InsertNew(e, mem);
      assert fresh(Nodes() - nodes - {e}) && fresh(Headers() - headers);
    }

    /** `hash_delete` */
    method Delete(e: Elem, mem: bool) returns (found: Option<Elem>)
      requires Valid()
      modifies this, Lists(), Nodes()
      ensures Valid() && Finds(old(Elems()), less, entry(e), KeyOf(found))
      ensures Elems() == SetDelete(old(Elems()), less, entry(e))
      ensures Linked() == old(Linked()) - if found.Some? then {found.value} else {}
      ensures found.Some? ==> found.value in old(Linked())
      ensures mem && (found.Some? || old(Light())) ==> Light()
      ensures fresh(Lists() - old(Lists())) && fresh(Nodes() - old(Nodes())) && fresh(Headers() - old(Headers()))
    {
      hide Valid, Elems, Linked, Nodes, Headers, Equal, Absent, SetDelete;
      found := RemoveEqual(e);
      if found.Some? {
        Rehash(mem);
      }
    }

    /** One call. */
    method Apply(op: Op<Elem>, mem: bool) returns (r: Option<Elem>)
      requires Valid() && op.e !in Headers()
      modifies this, Lists(), Nodes(), op.e
      ensures Valid() && Finds(old(Elems()), less, entry(op.e), KeyOf(r))
      ensures Elems() == SetStep(old(Elems()), less, KeyedOp(entry, op))
      ensures mem && old(Light()) ==> Light()
      ensures fresh(Lists() - old(Lists())) && fresh(Headers() - old(Headers()))
      ensures fresh(Nodes() - old(Nodes()) - {op.e})
    {
      hide Valid, Elems, Linked, Nodes, Headers, Finds, SetInsert, SetReplace, SetDelete;
      match op
      case Insert(e) => r := Insert(e, mem);
      case Replace(e) => r := Replace(e, mem);
      case Delete(e) => r := Delete(e, mem);
      case Lookup(e) => r := Find(e);
    }

    /**
     * Any sequence of calls, with and without memory for `rehash`: the table stands for the map that the
     * calls build, and every call returns what the map held at that point.
     */
    method Execute(ops: seq<Op<Elem>>, mem: seq<bool>, ghost m: Dict<K>) returns (rs: seq<Option<Elem>>)
      requires Valid() && Agrees(Elems(), less, m) && |mem| == |ops|
      requires forall j :: 0 <= j < |ops| ==> ops[j].e !in Headers()
      modifies this, Lists(), Nodes(), set j | 0 <= j < |ops| :: ops[j].e
      ensures Valid() && Agrees(Elems(), less, DictRun(m, less, KeyedOps(entry, ops))) && |rs| == |ops|
      ensures forall j :: 0 <= j < |ops| ==>
                KeyOf(rs[j]) == DictRun(m, less, KeyedOps(entry, ops)[..j])(entry(ops[j].e))
      ensures old(Light()) && (forall j :: 0 <= j < |mem| ==> mem[j]) ==> Light()
    {
      hide Valid, Elems, Nodes, Headers, Finds, Agrees, SetStep, DictStep, DictRun, Coherent;
      ghost var ks := KeyedOps(entry, ops);
      ghost var es := set j | 0 <= j < |ops| :: ops[j].e;
      rs := [];
      DictRunNone(m, less);
      assert ks[..0] == [];
      while |rs| < |ops|
        invariant Valid() && |rs| <= |ops| && Agrees(Elems(), less, DictRun(m, less, ks[..|rs|]))
        invariant fresh(Lists() - old(Lists())) && fresh(Headers() - old(Headers()))
        invariant fresh(Nodes() - old(Nodes()) - es)
        invariant old(Light()) && (forall j :: 0 <= j < |rs| ==> mem[j]) ==> Light()
        invariant forall j :: 0 <= j < |rs| ==> KeyOf(rs[j]) == DictRun(m, less, ks[..j])(entry(ops[j].e))
      {
        var j := |rs|;
        ghost var s, d := Elems(), DictRun(m, less, ks[..j]);
        var r := Apply(ops[j], mem[j]);
        CallAgrees(s, d, ks[j], KeyOf(r));
        DictRunStep(m, less, ks, j);
        rs := rs + [r];
      }
      assert ks[..|rs|] == ks;
    }

    /** One call agrees with the map. */
    lemma CallAgrees(s: set<K>, m: Dict<K>, op: Op<K>, r: Option<K>)
      requires Valid() && Agrees(s, less, m) && Finds(s, less, op.e, r)
      ensures Agrees(SetStep(s, less, op), less, DictStep(m, less, op)) && r == m(op.e)
    {
      hide Agrees, Finds, Placed, SetStep, DictStep;
      StepAgrees(s, hash, less, m, op);
      AnswerIs(s, hash, less, m, op.e, r);
    }

    lemma Deleted(s: set<K>, k: K)
      requires Valid()
      ensures |buckets| > 0 && Absent(SetDelete(s, less, k), less, k)
    {
      DeletedAbsent(s, hash, less, k);
    }
  }

  lemma NothingMoved<K>(bs: seq<seq<K>>, entry: Elem -> K, hash: Hash<K>, less: Less<K>, to: seq<List>)
    requires to != [] && forall j :: 0 <= j < |to| ==> to[j].Elems() == []
    ensures Placed(KeyRows(entry, to), hash, less) && Members(KeyRows(entry, to)) == Members(bs[..0])
  {
  }

  /** `hash_init`; `mem` tells whether the buckets can be allocated. */
  method HashInit<K(!new)>(entry: Elem -> K, hash: Hash<K>, less: Less<K>, mem: bool) returns (r: Option<HashTable<K>>)
    requires Coherent(hash, less)
    ensures r.Some? <==> mem
    ensures r.Some? ==>
              && r.value.Valid() && r.value.Elems() == {} && |r.value.buckets| == 4 && r.value.Light()
              && r.value.entry == entry && r.value.hash == hash && r.value.less == less
              && fresh(r.value) && fresh(r.value.Lists()) && fresh(r.value.Nodes())
  {
    if !mem {
      return None;
    }
    hide ListFamilies.Family, ListFamilies.NodesOf, Coherent, Placed, Members, HashTable.Valid, HashTable.Rows;
    hide Distinct, List.Elems;
    var buckets := NewBuckets(4);
    ghost var nodes := ListFamilies.NodesOf(set l | l in buckets);
    var t := new HashTable(entry, hash, less, buckets);
    assert t.Lists() == (set l | l in buckets) && t.Nodes() == nodes;
    t.EmptyTable();
    r := Some(t);
  }

  /** A row of empty buckets. */
  method NewBuckets(n: nat) returns (bs: seq<List>)
    ensures |bs| == n && Distinct(bs) && forall i :: 0 <= i < n ==> bs[i].Elems() == []
    ensures var f := set l | l in bs; ListFamilies.Family(f) && fresh(f) && fresh(ListFamilies.NodesOf(f))
  {
    hide ListFamilies.Family, ListFamilies.Headers, ListFamilies.Contained, List.Valid, List.Elems, List.Nodes;
    bs := [];
    ghost var f: set<List> := {};
    ListFamilies.Nothing();
    while |bs| < n
      invariant |bs| <= n && Distinct(bs) && forall i :: 0 <= i < |bs| ==> bs[i].Elems() == []
      invariant f == (set l | l in bs) && ListFamilies.Family(f) && fresh(f) && fresh(ListFamilies.NodesOf(f))
    {
      ghost var nodes := ListFamilies.NodesOf(f);
      var l := new List();
      ListFamilies.Single(l);
      ListFamilies.Join(f, {l});
      bs, f := bs + [l], f + {l};
    }
  }

  /** The bucket count `rehash` aims at. */
  method IdealCount(elemCnt: nat) returns (n: nat)
    ensures IsPowerOf2(n) && n >= 4 && elemCnt < 4 * n
    ensures n == 4 || 2 * n <= elemCnt
  {
    n := elemCnt / BEST_ELEMS_PER_BUCKET;
    if n < 4 {
      n := 4;
    }
    ghost var top := n;
    ghost var k := HasLeadingOne(n);
    while !IsPowerOf2(n)
      invariant Pow2(k) <= n <= top < 2 * Pow2(k)
      decreases n
    {
      LeadingOne(n, k);
      n := TurnOff(n);
    }
    LeadingOne(n, k);
    FourIsPower(k);
  }

  lemma FourIsPower(k: nat)
    requires 4 < 2 * Pow2(k)
    ensures 4 <= Pow2(k)
  {
    assert Pow2(0) == 1 && Pow2(1) == 2 && Pow2(2) == 4;
    if k > 2 {
      Pow2Monotone(2, k);
    }
  }

  // ----- Moving elements -----

  /** The elements before element `j` of bucket `i`. */
  ghost function Rehashed<E>(bs: seq<seq<E>>, i: nat, j: nat): set<E>
    requires i < |bs| && j <= |bs[i]|
  {
    Members(bs[..i]) + set x | x in bs[i][..j]
  }

  lemma RehashedSoFar<E>(bs: seq<seq<E>>, i: nat, j: nat)
    requires i < |bs| && j <= |bs[i]|
    ensures j < |bs[i]| ==> Rehashed(bs, i, j + 1) == Rehashed(bs, i, j) + {bs[i][j]}
    ensures j == 0 ==> Rehashed(bs, i, j) == Members(bs[..i])
    ensures j == |bs[i]| ==> Rehashed(bs, i, j) == Members(bs[..i + 1])
  {
    if j < |bs[i]| {
      assert bs[i][..j + 1] == bs[i][..j] + [bs[i][j]];
    } else {
      assert bs[i][..j] == bs[i];
      var cs := bs[..i + 1];
      forall x ensures x in Members(cs) <==> x in Members(bs[..i]) || x in bs[i] {
        if x in bs[i] {
          assert x in cs[i];
        }
        if x in Members(bs[..i]) {
          var k :| 0 <= k < i && x in bs[..i][k];
          assert x in cs[k];
        }
      }
    }
  }

  lemma RehashedAbsent<E(!new)>(bs: seq<seq<E>>, hash: Hash<E>, less: Less<E>, i: nat, j: nat)
    requires Coherent(hash, less) && Placed(bs, hash, less) && i < |bs| && j < |bs[i]|
    ensures Absent(Rehashed(bs, i, j), less, bs[i][j])
  {
    var e := bs[i][j];
    forall x | x in Rehashed(bs, i, j) ensures !Equal(less, x, e) {
      if x in Members(bs[..i]) {
        var k :| 0 <= k < i && x in bs[..i][k];
        assert x in bs[k];
      } else {
        var m :| 0 <= m < j && bs[i][..j][m] == x;
        assert bs[i][m] == x;
      }
    }
  }

  lemma DeletedAbsent<E(!new)>(s: set<E>, hash: Hash<E>, less: Less<E>, e: E)
    requires Coherent(hash, less)
    ensures Absent(SetDelete(s, less, e), less, e)
  {
  }

  /** Deleting what is equal to `e` deletes the one element found. */
  lemma DeletesOne<E(!new)>(bs: seq<seq<E>>, hash: Hash<E>, less: Less<E>, e: E, x: E)
    requires Coherent(hash, less) && Placed(bs, hash, less) && x in Members(bs) && Equal(less, x, e)
    ensures SetDelete(Members(bs), less, e) == Members(bs) - {x}
  {
    forall y | y in Members(bs) && Equal(less, y, e) ensures y == x {
      assert Equal(less, e, x);
      assert Equal(less, y, x);
      OneEqual(bs, hash, less, y, x);
    }
  }

  // ----- Iteration -----

  /** The elements in the order of the buckets. */
  ghost function Flatten<E>(bs: seq<seq<E>>): seq<E> {
    if bs == [] then [] else Flatten(bs[..|bs| - 1]) + bs[|bs| - 1]
  }

  lemma FlattenNext<E>(bs: seq<seq<E>>, i: nat)
    requires i < |bs|
    ensures Flatten(bs[..i]) + bs[i] == Flatten(bs[..i + 1])
  {
    assert bs[..i + 1][..i] == bs[..i];
  }

  /** `struct hash_iterator`: at an element of a bucket or, before the first one, at the bucket's head. */
  class HashIterator<K(!new)> {
    const table: HashTable<K>
    var bucket: nat
    var elem: Elem
    /** The place of `elem` in its list. */
    ghost var pos: nat
    /** What `hash_next` has returned. */
    ghost var seen: seq<K>

    ghost predicate Valid()
      reads this, table, table.Lists()
    {
      && bucket < |table.buckets|
      && 0 <= pos < |table.buckets[bucket].nodes| - 1 && table.buckets[bucket].nodes[pos] == elem
      && pos <= |table.Rows()[bucket]|
      && seen == Flatten(table.Rows()[..bucket]) + table.Rows()[bucket][..pos]
    }

    /** `hash_first` */
    constructor (table: HashTable<K>)
      requires table.Valid()
      ensures table.Valid() && Valid() && this.table == table && seen == []
    {
      this.table, bucket, elem, pos, seen := table, 0, table.buckets[0].head, 0, [];
      table.Bucket(0);
    }

    /** `hash_next` */
    method Next() returns (r: Option<Elem>)
      requires table.Valid() && Valid()
      modifies this
      ensures table.Valid() && table.Rows() == old(table.Rows())
      ensures match r
              case Some(x) => Valid() && seen == old(seen) + [table.entry(x)]
              case None => seen == old(seen) == Flatten(table.Rows())
      ensures r.Some? ==> bucket > old(bucket) || (bucket == old(bucket) && pos > old(pos))
    {
      hide HashTable.Valid, HashTable.Rows, Flatten, List.Valid, List.Elems, List.Nodes;
      ghost var bs, nodes, p := table.Rows(), table.Nodes(), pos + 1;
      table.Place(bucket, pos);
      var b, e := bucket, elem.next;
      table.Place(b, p);
      while e == table.buckets[b].tail
        invariant b < |bs| && 0 < p < |table.buckets[b].nodes| && e == table.buckets[b].nodes[p] && p - 1 <= |bs[b]|
        invariant seen == Flatten(bs[..b]) + bs[b][..p - 1]
        invariant b > bucket || (b == bucket && p > pos)
        decreases |bs| - b
        modifies {}
      {
        table.Place(b, p);
        FlattenNext(bs, b);
        assert bs[b][..p - 1] == bs[b];
        b := b + 1;
        if b >= |table.buckets| {
          assert bs[..b] == bs;
          return None;
        }
        table.Place(b, 0);
        e, p := table.buckets[b].head.next, 1;
      }
      table.Place(b, p);
      assert bs[b][..p] == bs[b][..p - 1] + [bs[b][p - 1]];
      bucket, elem, pos, seen := b, e, p, seen + [table.entry(e)];
      r := Some(e);
    }
  }

  /** The whole iteration returns every element exactly once. */
  lemma {:induction false} FlattenIs<E(!new)>(bs: seq<seq<E>>, n: nat, hash: Hash<E>, less: Less<E>)
    requires Coherent(hash, less) && Placed(bs, hash, less) && n <= |bs|
    ensures forall x :: x in Flatten(bs[..n]) <==> x in Members(bs[..n])
    ensures forall i, j :: 0 <= i < j < |Flatten(bs[..n])| ==> Flatten(bs[..n])[i] != Flatten(bs[..n])[j]
  {
    if n > 0 {
      FlattenIs(bs, n - 1, hash, less);
      var f, b, g := Flatten(bs[..n - 1]), bs[n - 1], Flatten(bs[..n]);
      assert bs[..n][..n - 1] == bs[..n - 1];
      assert g == f + b;
      RehashedSoFar(bs, n - 1, |b|);
      assert b[..|b|] == b;
      hide Flatten;
      forall i, j | 0 <= i < j < |g| ensures g[i] != g[j] {
        if i < |f| <= j {
          assert f[i] in f;
          var k :| 0 <= k < n - 1 && f[i] in bs[..n - 1][k];
          assert Index(hash, b[j - |f|], |bs|) == n - 1;
        } else if |f| <= i {
          assert Equal(less, b[i - |f|], b[i - |f|]);
        }
      }
    }
  }

  lemma VisitedAll<K(!new)>(table: HashTable<K>)
    requires table.Valid()
    ensures forall k :: k in Flatten(table.Rows()) <==> k in table.Elems()
    ensures Distinct(Flatten(table.Rows()))
  {
    var bs := table.Rows();
    assert bs[..|bs|] == bs;
    FlattenIs(bs, |bs|, table.hash, table.less);
  }

  lemma KeysAppend<K>(entry: Elem -> K, es: seq<Elem>, e: Elem)
    ensures Keys(entry, es + [e]) == Keys(entry, es) + [entry(e)]
  {
  }

  /** The iteration idiom: every element is visited exactly once. */
  method Visit<K(!new)>(table: HashTable<K>) returns (visited: seq<Elem>)
    requires table.Valid()
    ensures forall k :: k in Keys(table.entry, visited) <==> k in table.Elems()
    ensures Distinct(Keys(table.entry, visited))
  {
    hide HashTable.Valid, HashTable.Rows, HashTable.Elems, Flatten, Keys, Placed, Members, Distinct;
    ghost var bs, nodes := table.Rows(), table.Nodes();
    assert Keys(table.entry, []) == [];
    var it := new HashIterator(table);
    visited := [];
    while true
      invariant table.Valid() && table.Rows() == bs && table.Nodes() == nodes
      invariant it.Valid() && it.table == table && Keys(table.entry, visited) == it.seen && fresh(it)
      decreases |bs| - it.bucket, |bs[it.bucket]| - it.pos
    {
      var r := it.Next();
      if r.None? {
        break;
      }
      KeysAppend(table.entry, visited, r.value);
      visited := visited + [r.value];
    }
    VisitedAll(table);
  }
}
