/** Bitmaps packed into 32-bit words, and first-fit search over them. */
module Bitmaps {
  import opened Options
  import opened Bits

  const ELEM_BITS: nat := 32

  /** Bit `k` of a word, tested as `bitmap_test` does. */
  predicate Test(w: Word, k: nat) {
    And(w, Pow2(k)) != 0
  }

  /** The words that `bitmap_mark` and `bitmap_reset` store. */
  function Mark(w: Word, k: nat): Word
    requires k < ELEM_BITS
  {
    Pow2Monotone(k, 32);
    Pow2Of32();
    OrFits(w, Pow2(k), 32);
    Or(w, Pow2(k))
  }

  function Reset(w: Word, k: nat): Word {
    AndNot(w, Pow2(k))
  }

  /** Setting or clearing a bit changes that bit and no other. */
  lemma ChangedBit(w: Word, k: nat, j: nat)
    requires k < ELEM_BITS
    ensures Test(Mark(w, k), j) == (j == k || Test(w, j))
    ensures Test(Reset(w, k), j) == (j != k && Test(w, j))
  {
    TestBit(w, j);
    TestBit(Mark(w, k), j);
    TestBit(Reset(w, k), j);
    OrBit(w, Pow2(k), j);
    AndNotBit(w, Pow2(k), j);
    Pow2Bit(k, j);
  }

  // ----- Bit sequences -----

  /** `cnt` bits from `start` on all equal `value`. */
  predicate AllAre(bits: seq<bool>, start: nat, cnt: nat, value: bool)
    requires start + cnt <= |bits|
  {
    forall i :: start <= i < start + cnt ==> bits[i] == value
  }

  /** `bits` with the `cnt` bits from `start` on set to `value`. */
  function SetRun(bits: seq<bool>, start: nat, cnt: nat, value: bool): (r: seq<bool>)
    requires start + cnt <= |bits|
    ensures |r| == |bits|
    ensures forall i :: 0 <= i < |bits| ==> r[i] == if start <= i < start + cnt then value else bits[i]
  {
    seq(|bits|, i requires 0 <= i < |bits| => if start <= i < start + cnt then value else bits[i])
  }

  /** `r` is the leftmost place, at or after `start`, of `cnt` bits equal to `value`. */
  ghost predicate IsFirstFit(bits: seq<bool>, start: nat, cnt: nat, value: bool, r: Option<nat>) {
    match r
    case Some(i) =>
      && start <= i && i + cnt <= |bits| && AllAre(bits, i, cnt, value)
      && forall j :: start <= j < i ==> !AllAre(bits, j, cnt, value)
    case None =>
      forall j :: start <= j && j + cnt <= |bits| ==> !AllAre(bits, j, cnt, value)
  }

  /** Freeing a run that was taken from free bits restores them. */
  lemma SetRunUndo(bits: seq<bool>, start: nat, cnt: nat, value: bool)
    requires start + cnt <= |bits| && AllAre(bits, start, cnt, value)
    ensures SetRun(SetRun(bits, start, cnt, !value), start, cnt, value) == bits
  {
  }

  function FreeCount(bits: seq<bool>): (n: nat)
    ensures n <= |bits|
    ensures n == 0 <==> AllAre(bits, 0, |bits|, true)
  {
    if bits == [] then 0
    else FreeCount(bits[..|bits| - 1]) + if bits[|bits| - 1] then 0 else 1
  }

  lemma {:induction false} FreeCountTake(bits: seq<bool>, i: nat)
    requires i < |bits| && !bits[i]
    ensures FreeCount(bits[i := true]) == FreeCount(bits) - 1
  {
    var n := |bits| - 1;
    if i < n {
      FreeCountTake(bits[..n], i);
      assert bits[i := true][..n] == bits[..n][i := true];
    } else {
      assert bits[i := true][..n] == bits[..n];
    }
  }

  // ----- The packed bitmap -----

  class Bitmap {
    const bitCnt: nat
    const words: array<Word>

    ghost predicate Valid() {
      words.Length == (bitCnt + ELEM_BITS - 1) / ELEM_BITS
    }

    /** The bits as a plain boolean sequence. */
    ghost function Bits(): (r: seq<bool>)
      reads words
      requires Valid()
      ensures |r| == bitCnt
      ensures forall i :: 0 <= i < bitCnt ==> r[i] == Test(words[i / ELEM_BITS], i % ELEM_BITS)
    {
      seq(bitCnt, i requires 0 <= i < bitCnt reads words => Test(words[i / ELEM_BITS], i % ELEM_BITS))
    }

    /** `bitmap_create`: the words start out with arbitrary contents and are then cleared. */
    constructor (bitCnt: nat)
      ensures Valid() && fresh(words) && this.bitCnt == bitCnt
      ensures Bits() == seq(bitCnt, i => false)
    {
      this.bitCnt := bitCnt;
      words := new Word[(bitCnt + ELEM_BITS - 1) / ELEM_BITS];
      new;
      SetMultiple(0, bitCnt, false);
    }

    /** `bitmap_set`, with `bitmap_mark` and `bitmap_reset` */
    method Set(idx: nat, value: bool)
      requires Valid() && idx < bitCnt
      modifies words
      ensures Bits() == old(Bits())[idx := value]
    {
      var e, k := idx / ELEM_BITS, idx % ELEM_BITS;
      forall j ensures Test(Mark(words[e], k), j) == (j == k || Test(words[e], j))
               ensures Test(Reset(words[e], k), j) == (j != k && Test(words[e], j))
      {
        ChangedBit(words[e], k, j);
      }
      words[e] := if value then Mark(words[e], k) else Reset(words[e], k);
      assert Bits() == old(Bits())[idx := value];
    }

    /** `bitmap_test` */
    method TestBit(idx: nat) returns (b: bool)
      requires Valid() && idx < bitCnt
      ensures b == Bits()[idx]
    {
      b := Test(words[idx / ELEM_BITS], idx % ELEM_BITS);
    }

    /** `bitmap_set_multiple` */
    method SetMultiple(start: nat, cnt: nat, value: bool)
      requires Valid() && start + cnt <= bitCnt
      modifies words
      ensures Bits() == SetRun(old(Bits()), start, cnt, value)
    {
      for i := 0 to cnt
        invariant Bits() == SetRun(old(Bits()), start, i, value)
      {
        Set(start + i, value);
      }
    }

    /** `bitmap_contains` */
    method Contains(start: nat, cnt: nat, value: bool) returns (b: bool)
      requires Valid() && start + cnt <= bitCnt
      ensures b <==> !AllAre(Bits(), start, cnt, !value)
    {
      for i := 0 to cnt
        invariant AllAre(Bits(), start, i, !value)
      {
        var t := TestBit(start + i);
        if t == value {
          return true;
        }
      }
      return false;
    }

    /** `bitmap_scan` */
    method Scan(start: nat, cnt: nat, value: bool) returns (r: Option<nat>)
      requires Valid() && start <= bitCnt
      ensures IsFirstFit(Bits(), start, cnt, value, r)
    {
      if cnt <= bitCnt {
        var last := bitCnt - cnt;
        var i := start;
        while i <= last
          invariant start <= i
          invariant forall j :: start <= j < i && j <= last ==> !AllAre(Bits(), j, cnt, value)
        {
          var c := Contains(i, cnt, !value);
          if !c {
            return Some(i);
          }
          i := i + 1;
        }
      }
      return None;
    }

    /** `bitmap_scan_and_flip` */
    method ScanAndFlip(start: nat, cnt: nat, value: bool) returns (r: Option<nat>)
      requires Valid() && start <= bitCnt
      modifies words
      ensures IsFirstFit(old(Bits()), start, cnt, value, r)
      ensures Bits() == match r case Some(i) => SetRun(old(Bits()), i, cnt, !value) case None => old(Bits())
    {
      r := Scan(start, cnt, value);
      if r.Some? {
        SetMultiple(r.value, cnt, !value);
      }
    }
  }
}
