/** Hash tables as rows of buckets, and the maps over equivalence classes that they stand for. */
module HashSpec {
  import opened Options
  import opened Bits

  type Hash<!E> = E -> Word
  type Less<!E> = (E, E) -> bool

  predicate Equal<E>(less: Less<E>, a: E, b: E) {
    !less(a, b) && !less(b, a)
  }

  /** Equality is an equivalence, and equal elements hash alike. */
  ghost predicate Coherent<E(!new)>(hash: Hash<E>, less: Less<E>) {
    && (forall a :: Equal(less, a, a))
    && (forall a, b, c :: Equal(less, a, b) && Equal(less, b, c) ==> Equal(less, a, c))
    && (forall a, b :: Equal(less, a, b) ==> hash(a) == hash(b))
  }

  /** The bucket of `find_bucket`, among `n`. */
  function Index<E>(hash: Hash<E>, e: E, n: nat): (i: nat)
    requires n > 0
    ensures i < n
  {
    And(hash(e), n - 1)
  }

  ghost function Members<E>(bs: seq<seq<E>>): set<E> {
    set i, x | 0 <= i < |bs| && x in bs[i] :: x
  }

  /** Every element is in its bucket, and no two elements of a bucket are equal. */
  ghost predicate Placed<E>(bs: seq<seq<E>>, hash: Hash<E>, less: Less<E>) {
    && |bs| > 0
    && (forall i, k :: 0 <= i < |bs| && 0 <= k < |bs[i]| ==> Index(hash, bs[i][k], |bs|) == i)
    && (forall i, j, k :: 0 <= i < |bs| && 0 <= j < k < |bs[i]| ==> !Equal(less, bs[i][j], bs[i][k]))
  }

  /** The set a table holds, looked up by equality. */
  ghost predicate Absent<E>(s: set<E>, less: Less<E>, e: E) {
    forall x :: x in s ==> !Equal(less, x, e)
  }

  /** In a table an element is where its hash says. */
  lemma MemberIs<E>(bs: seq<seq<E>>, hash: Hash<E>, less: Less<E>, x: E)
    requires Placed(bs, hash, less)
    ensures x in Members(bs) <==> x in bs[Index(hash, x, |bs|)]
  {
  }

  /** So looking in one bucket is looking everywhere. */
  lemma AbsentIs<E(!new)>(bs: seq<seq<E>>, hash: Hash<E>, less: Less<E>, e: E)
    requires Coherent(hash, less) && Placed(bs, hash, less)
    ensures Absent(Members(bs), less, e) <==> forall x :: x in bs[Index(hash, e, |bs|)] ==> !Equal(less, x, e)
  {
    var b := bs[Index(hash, e, |bs|)];
    forall x | x in Members(bs) && Equal(less, x, e) ensures x in b {
      MemberIs(bs, hash, less, x);
    }
    forall x | x in b ensures x in Members(bs) {
    }
  }

  /** No two members are equal. */
  lemma OneEqual<E(!new)>(bs: seq<seq<E>>, hash: Hash<E>, less: Less<E>, x: E, y: E)
    requires Coherent(hash, less) && Placed(bs, hash, less) && x in Members(bs) && y in Members(bs) && Equal(less, x, y)
    ensures x == y
  {
    MemberIs(bs, hash, less, x);
    MemberIs(bs, hash, less, y);
    var b := bs[Index(hash, x, |bs|)];
    var j :| 0 <= j < |b| && b[j] == x;
    var k :| 0 <= k < |b| && b[k] == y;
  }

  function PushFront<E>(bs: seq<seq<E>>, i: nat, e: E): seq<seq<E>>
    requires i < |bs|
  {
    bs[i := [e] + bs[i]]
  }

  lemma PushKeeps<E(!new)>(bs: seq<seq<E>>, hash: Hash<E>, less: Less<E>, e: E)
    requires Coherent(hash, less) && Placed(bs, hash, less) && Absent(Members(bs), less, e)
    ensures var bs' := PushFront(bs, Index(hash, e, |bs|), e);
            Placed(bs', hash, less) && Members(bs') == Members(bs) + {e} && e !in Members(bs)
  {
    var i := Index(hash, e, |bs|);
    var bs' := PushFront(bs, i, e);
    assert e !in Members(bs);
    forall k | 0 <= k < |bs[i]| ensures !Equal(less, e, bs[i][k]) {
      assert bs[i][k] in bs[i];
      assert bs[i][k] in Members(bs);
    }
    assert bs'[i] == [e] + bs[i];
    forall x | x in Members(bs') ensures x in Members(bs) + {e} {
    }
    forall x | x in Members(bs) + {e} ensures x in Members(bs') {
      if x == e {
        assert x in bs'[i];
      } else {
        var j :| 0 <= j < |bs| && x in bs[j];
        assert x in bs'[j];
      }
    }
  }

  function DropAt<E>(bs: seq<seq<E>>, i: nat, k: nat): seq<seq<E>>
    requires i < |bs| && k < |bs[i]|
  {
    bs[i := bs[i][..k] + bs[i][k + 1..]]
  }

  lemma DropKeeps<E(!new)>(bs: seq<seq<E>>, hash: Hash<E>, less: Less<E>, i: nat, k: nat)
    requires Coherent(hash, less) && Placed(bs, hash, less) && i < |bs| && k < |bs[i]|
    ensures var bs' := DropAt(bs, i, k);
            Placed(bs', hash, less) && Members(bs') == Members(bs) - {bs[i][k]} && bs[i][k] in Members(bs)
  {
    DropPlaced(bs, hash, less, i, k);
    hide Placed, Index, DropAt;
    var e := bs[i][k];
    assert e in bs[i];
    assert Equal(less, e, e);
    forall x ensures x in Members(DropAt(bs, i, k)) <==> x in Members(bs) && x != e {
      DropMember(bs, hash, less, i, k, x);
    }
  }

  lemma DropPlaced<E>(bs: seq<seq<E>>, hash: Hash<E>, less: Less<E>, i: nat, k: nat)
    requires Placed(bs, hash, less) && i < |bs| && k < |bs[i]|
    ensures Placed(DropAt(bs, i, k), hash, less)
  {
    hide Equal, Index;
    var bs' := DropAt(bs, i, k);
    assert forall j :: 0 <= j < |bs'[i]| ==> bs'[i][j] == bs[i][if j < k then j else j + 1];
  }

  lemma DropMember<E>(bs: seq<seq<E>>, hash: Hash<E>, less: Less<E>, i: nat, k: nat, x: E)
    requires Placed(bs, hash, less) && i < |bs| && k < |bs[i]| && Equal(less, bs[i][k], bs[i][k])
    ensures x in Members(DropAt(bs, i, k)) <==> x in Members(bs) && x != bs[i][k]
  {
    DropPlaced(bs, hash, less, i, k);
    MemberIs(bs, hash, less, x);
    MemberIs(DropAt(bs, i, k), hash, less, x);
    DropOne(bs[i], less, k, x);
    assert Index(hash, bs[i][k], |bs|) == i;
  }

  lemma DropOne<E>(b: seq<E>, less: Less<E>, k: nat, x: E)
    requires k < |b| && Equal(less, b[k], b[k])
    requires forall j, l :: 0 <= j < l < |b| ==> !Equal(less, b[j], b[l])
    ensures x in b[..k] + b[k + 1..] <==> x in b && x != b[k]
  {
    assert b == b[..k] + [b[k]] + b[k + 1..];
  }

  // ----- Growing and shrinking -----

  /** `turn_off_least_1bit` */
  function TurnOff(x: nat): (r: nat)
    requires x > 0
    ensures r < x
  {
    And(x, x - 1)
  }

  /** `is_power_of_2` */
  predicate IsPowerOf2(x: nat) {
    x != 0 && TurnOff(x) == 0
  }

  lemma {:induction false} AndSame(x: nat)
    ensures And(x, x) == x
  {
    if x > 0 {
      AndSame(x / 2);
    }
  }

  lemma TurnOffIs(x: nat)
    requires x > 0
    ensures TurnOff(x) == if x % 2 == 1 then x - 1 else 2 * TurnOff(x / 2)
  {
    if x % 2 == 1 {
      AndSame(x / 2);
    }
  }

  /** The leading one is turned off last, and alone. */
  lemma {:induction false} LeadingOne(x: nat, k: nat)
    requires Pow2(k) <= x < 2 * Pow2(k)
    ensures IsPowerOf2(x) <==> x == Pow2(k)
    ensures x != Pow2(k) ==> Pow2(k) <= TurnOff(x)
  {
    TurnOffIs(x);
    hide TurnOff;
    if k > 0 && x % 2 == 0 {
      LeadingOne(x / 2, k - 1);
    }
  }

  lemma {:induction false} HasLeadingOne(x: nat) returns (k: nat)
    requires x > 0
    ensures Pow2(k) <= x < 2 * Pow2(k)
  {
    if x == 1 {
      k := 0;
    } else {
      k := HasLeadingOne(x / 2);
      k := k + 1;
    }
  }

  ghost predicate IsRemainder(x: nat, n: nat, q: nat, r: nat) {
    x == q * n + r && r < n
  }

  lemma ByOne(x: nat)
    ensures IsRemainder(x, 1, x, 0)
  {
  }

  /** Masking with one less than a power of two takes the remainder. */
  lemma {:induction false} MaskTakesRemainder(x: nat, k: nat) returns (q: nat)
    ensures IsRemainder(x, Pow2(k), q, And(x, Pow2(k) - 1))
    decreases k
  {
    hide And, Pow2, IsRemainder;
    PowerStep(x, k);
    if k == 0 {
      q := x;
      ByOne(x);
    } else {
      q := MaskTakesRemainder(x / 2, k - 1);
      MaskStep(x, q, Pow2(k - 1));
    }
  }

  lemma MaskStep(x: nat, q: nat, p: nat)
    requires p > 0 && IsRemainder(x / 2, p, q, And(x / 2, p - 1))
    ensures IsRemainder(x, 2 * p, q, And(x, 2 * p - 1))
  {
    hide And, IsRemainder;
    OddHalf(p);
    AndHalves(x, 2 * p - 1);
    TwiceRemainder(x, q, p, And(x / 2, p - 1));
  }

  lemma TwiceRemainder(x: nat, q: nat, p: nat, r: nat)
    requires IsRemainder(x / 2, p, q, r)
    ensures IsRemainder(x, 2 * p, q, 2 * r + x % 2)
  {
    assert q * (2 * p) == 2 * (q * p);
  }

  lemma PowerStep(x: nat, k: nat)
    ensures Pow2(k) == if k == 0 then 1 else 2 * Pow2(k - 1)
    ensures And(x, 0) == 0
  {
  }

  lemma OddHalf(p: nat)
    requires p > 0
    ensures (2 * p - 1) / 2 == p - 1 && (2 * p - 1) % 2 == 1
  {
  }

  lemma AndHalves(x: nat, y: nat)
    requires y % 2 == 1
    ensures And(x, y) == 2 * And(x / 2, y / 2) + x % 2
  {
  }

  /** `find_bucket` spreads the elements over all buckets: the bucket is the hash value modulo their number. */
  lemma IndexIsRemainder<E>(hash: Hash<E>, e: E, n: nat)
    requires IsPowerOf2(n)
    ensures Index(hash, e, n) == hash(e) % n
  {
    var k := HasLeadingOne(n);
    LeadingOne(n, k);
    hide TurnOff, And, IsPowerOf2, IsRemainder;
    var q := MaskTakesRemainder(hash(e), k);
    RemainderIs(hash(e), n, q, Index(hash, e, n));
  }

  lemma RemainderIs(x: nat, n: nat, q: nat, r: nat)
    requires n > 0 && IsRemainder(x, n, q, r)
    ensures x % n == r
  {
    var d := q - x / n;
    assert x == x / n * n + x % n;
    assert d * n == x % n - r;
    assert d >= 1 ==> d * n >= n;
    assert d <= -1 ==> d * n <= 0 - n;
  }

  // ----- The map over equivalence classes -----

  function SetInsert<E(!new)>(s: set<E>, less: Less<E>, e: E): set<E> {
    if forall x :: x in s ==> !Equal(less, x, e) then s + {e} else s
  }

  function SetDelete<E>(s: set<E>, less: Less<E>, e: E): set<E> {
    set x | x in s && !Equal(less, x, e)
  }

  function SetReplace<E>(s: set<E>, less: Less<E>, e: E): set<E> {
    SetDelete(s, less, e) + {e}
  }

  /** `r` is the answer to looking `e` up in `s`. */
  ghost predicate Finds<E>(s: set<E>, less: Less<E>, e: E, r: Option<E>) {
    match r
    case None => Absent(s, less, e)
    case Some(x) => x in s && Equal(less, x, e)
  }

  ghost predicate NoTwoEqual<E>(s: set<E>, less: Less<E>) {
    forall x, y :: x in s && y in s && Equal(less, x, y) ==> x == y
  }

  datatype Op<E> = Insert(e: E) | Replace(e: E) | Delete(e: E) | Lookup(e: E)

  ghost function SetStep<E(!new)>(s: set<E>, less: Less<E>, op: Op<E>): set<E> {
    match op
    case Insert(e) => SetInsert(s, less, e)
    case Replace(e) => SetReplace(s, less, e)
    case Delete(e) => SetDelete(s, less, e)
    case Lookup(_) => s
  }

  /** A map from keys to elements that treats equal keys alike. */
  type Dict<!E> = E -> Option<E>

  ghost function DictStep<E>(m: Dict<E>, less: Less<E>, op: Op<E>): Dict<E> {
    match op
    case Insert(e) => if m(e).Some? then m else x => if Equal(less, x, e) then Some(e) else m(x)
    case Replace(e) => x => if Equal(less, x, e) then Some(e) else m(x)
    case Delete(e) => x => if Equal(less, x, e) then None else m(x)
    case Lookup(_) => m
  }

  ghost function DictRun<E>(m: Dict<E>, less: Less<E>, ops: seq<Op<E>>): Dict<E>
    decreases |ops|
  {
    if ops == [] then m else DictRun(DictStep(m, less, ops[0]), less, ops[1..])
  }

  /** The table `s` stands for the map `m`. */
  ghost predicate Agrees<E(!new)>(s: set<E>, less: Less<E>, m: Dict<E>) {
    NoTwoEqual(s, less) && forall x :: Finds(s, less, x, m(x))
  }

  lemma StepAgrees<E(!new)>(s: set<E>, hash: Hash<E>, less: Less<E>, m: Dict<E>, op: Op<E>)
    requires Coherent(hash, less) && Agrees(s, less, m)
    ensures Agrees(SetStep(s, less, op), less, DictStep(m, less, op))
  {
    var s', m' := SetStep(s, less, op), DictStep(m, less, op);
    assert Finds(s, less, op.e, m(op.e));
    forall x ensures Finds(s', less, x, m'(x)) {
      assert Finds(s, less, x, m(x));
      assert Equal(less, op.e, op.e);
    }
  }

  /** What is found is what the map holds. */
  lemma AnswerIs<E(!new)>(s: set<E>, hash: Hash<E>, less: Less<E>, m: Dict<E>, e: E, r: Option<E>)
    requires Coherent(hash, less) && Agrees(s, less, m) && Finds(s, less, e, r)
    ensures r == m(e)
  {
    assert Finds(s, less, e, m(e));
    if r.Some? && m(e).Some? {
      assert Equal(less, e, m(e).value);
      assert Equal(less, r.value, m(e).value);
    }
  }

  lemma DictRunNone<E>(m: Dict<E>, less: Less<E>)
    ensures DictRun(m, less, []) == m
  {
  }

  lemma {:induction false} DictRunStep<E>(m: Dict<E>, less: Less<E>, ops: seq<Op<E>>, j: nat)
    requires j < |ops|
    ensures DictRun(m, less, ops[..j + 1]) == DictStep(DictRun(m, less, ops[..j]), less, ops[j])
    decreases j
  {
    hide DictStep;
    if j > 0 {
      DictRunStep(DictStep(m, less, ops[0]), less, ops[1..], j - 1);
      assert ops[..j + 1][1..] == ops[1..][..j];
      assert ops[..j][1..] == ops[1..][..j - 1];
    } else {
      assert ops[..1] == [ops[0]];
      assert DictRun(DictStep(m, less, ops[0]), less, []) == DictStep(m, less, ops[0]);
    }
  }
}
