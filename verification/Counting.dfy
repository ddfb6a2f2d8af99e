/** Counting the clear bits of a stretch of a bitmap, and splitting a bitmap into groups. */
module Counting {

  /** How many bits with index in [lo, hi) are clear. */
  function CountClear(bits: seq<bool>, lo: nat, hi: nat): nat
    requires hi <= |bits|
  {
    if hi <= lo then 0 else CountClear(bits, lo, hi - 1) + (if bits[hi - 1] then 0 else 1)
  }

  /** Changing one bit changes the count of exactly the stretches that hold it. */
  lemma {:induction false} CountClearUpdate(bits: seq<bool>, lo: nat, hi: nat, i: nat, v: bool)
    requires hi <= |bits| && i < |bits|
    ensures CountClear(bits[i := v], lo, hi) ==
            CountClear(bits, lo, hi)
            + (if lo <= i < hi && bits[i] && !v then 1 else 0)
            - (if lo <= i < hi && !bits[i] && v then 1 else 0)
  {
    if lo < hi {
      CountClearUpdate(bits, lo, hi - 1, i, v);
    }
  }

  predicate AllSet(bits: seq<bool>, lo: nat, hi: nat)
    requires hi <= |bits|
  {
    forall i :: lo <= i < hi ==> bits[i]
  }

  /** A stretch counts zero clear bits exactly when all its bits are set. */
  lemma {:induction false} CountClearZero(bits: seq<bool>, lo: nat, hi: nat)
    requires hi <= |bits|
    ensures CountClear(bits, lo, hi) == 0 <==> AllSet(bits, lo, hi)
  {
    if lo < hi {
      CountClearZero(bits, lo, hi - 1);
    }
  }

  /** Stretches add up. */
  lemma {:induction false} CountClearSplit(bits: seq<bool>, lo: nat, mid: nat, hi: nat)
    requires lo <= mid <= hi <= |bits|
    ensures CountClear(bits, lo, hi) == CountClear(bits, lo, mid) + CountClear(bits, mid, hi)
  {
    if mid < hi {
      CountClearSplit(bits, lo, mid, hi - 1);
    }
  }

  /** The one stretch of length `size` that holds index `i` is number `i / size`. */
  lemma GroupOf(i: nat, size: nat, k: nat)
    requires size > 0
    ensures k * size <= i < k * size + size <==> k == i / size
  {
    var q := i / size;
    assert i == q * size + i % size;
    if k < q {
      MulLe(k + 1, q, size);
    } else if q < k {
      MulLe(q + 1, k, size);
    }
  }

  lemma MulLe(a: nat, b: nat, c: nat)
    requires a <= b
    ensures a * c <= b * c
    ensures (a + 1) * c == a * c + c
  {
  }

  /** An index below `n` stretches is in one of the first `n`. */
  lemma GroupBelow(i: nat, size: nat, n: nat)
    requires size > 0 && i < n * size
    ensures i / size < n
  {
    GroupOf(i, size, i / size);
    if n <= i / size {
      MulLe(n, i / size, size);
    }
  }
}
