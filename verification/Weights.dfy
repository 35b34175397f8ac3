/** Unsigned 32-bit weights that stop at the ends of their range instead of wrapping around. */
module Weights {
  import opened Arithmetic

  const MAX := 0xFFFF_FFFF

  type Weight = w: nat | w <= MAX

  function Plus(a: Weight, b: Weight): Weight {
    if a < MAX - b then a + b else MAX
  }

  function Minus(a: Weight, b: Weight): Weight {
    if a > 0 + b then a - b else 0
  }

  /** By nought the program divides by nought. */
  function Times(a: Weight, b: Weight): Weight
    requires b != 0
    ensures a * b <= MAX ==> Times(a, b) == a * b
  {
    TimesFits(a, b);
    if a < MAX / b + (if MAX % b == 0 then 0 else 1) then a * b else MAX
  }

  lemma TimesFits(a: Weight, b: Weight)
    requires b != 0
    ensures 0 <= a * b
    ensures a < MAX / b + (if MAX % b == 0 then 0 else 1) ==> a * b <= MAX
    ensures !(a < MAX / b + (if MAX % b == 0 then 0 else 1)) ==> MAX <= a * b
  {
    var q, r := MAX / b, MAX % b;
    assert MAX == q * b + r;
    MulMono(0, a, b);
    if a < q + (if r == 0 then 0 else 1) {
      MulMono(a, q, b);
    } else if r == 0 {
      MulMono(q, a, b);
    } else {
      MulMono(q + 1, a, b);
      assert (q + 1) * b == q * b + b;
    }
  }

  function Clamp(x: int): Weight {
    if x < 0 then 0 else if MAX < x then MAX else x
  }

  /** The operators are those of the integers, cut to the range. */
  lemma WeightsAreClamped(a: Weight, b: Weight)
    ensures Plus(a, b) == Clamp(a + b) && Minus(a, b) == Clamp(a - b)
    ensures b != 0 ==> Times(a, b) == Clamp(a * b)
  {
    if b != 0 { TimesFits(a, b); }
  }

  /** Two weights: the number of kernels that need all threads, and the sum of the others. */
  datatype Load = Load(all: Weight, some: Weight) {

    function Add(l: Load): Load {
      Load(Plus(all, l.all), Plus(some, l.some))
    }

    predicate AtMost(l: Load) {
      all <= l.all && some <= l.some
    }

    /** The threads in use, if `threads` are there. */
    function Used(threads: Weight): Weight
      requires threads != 0
    {
      Plus(Times(all, threads), some)
    }

    /** The threads that are wanted, without any limit. */
    function Wanted(threads: Weight): int {
      all * threads + some
    }
  }

  lemma UsedIsClamped(l: Load, threads: Weight)
    requires threads != 0
    ensures 0 <= l.all * threads && l.Used(threads) == Clamp(l.Wanted(threads))
  {
    MulMono(0, l.all, threads);
    WeightsAreClamped(l.all, threads);
  }

  /** Sums are exact as long as the threads that are wanted fit a weight, and too large otherwise. */
  lemma AddIsExact(l: Load, m: Load, threads: Weight)
    requires threads != 0
    ensures 0 <= l.Wanted(threads) && 0 <= m.Wanted(threads)
    ensures var n := l.Wanted(threads) + m.Wanted(threads);
            if n <= MAX then l.Add(m).Wanted(threads) == n else MAX <= l.Add(m).Wanted(threads)
  {
    var s := l.Add(m);
    MulMono(0, l.all, threads);
    MulMono(0, m.all, threads);
    MulMono(0, s.all, threads);
    MulMono(1, threads, s.all);
    MulMono(1, threads, l.all + m.all);
    assert (l.all + m.all) * threads == l.all * threads + m.all * threads;
  }

  /** More load never means fewer threads in use. */
  lemma UsedMono(l: Load, m: Load, threads: Weight)
    requires threads != 0 && l.AtMost(m)
    ensures l.Used(threads) <= m.Used(threads)
  {
    WeightsAreClamped(l.all, threads);
    WeightsAreClamped(m.all, threads);
    MulMono(l.all, m.all, threads);
  }

  lemma AddMono(l: Load, m: Load, k: Load)
    requires l.AtMost(m)
    ensures l.AtMost(l.Add(k)) && l.Add(k).AtMost(m.Add(k))
  {
  }

  lemma AddAssociative(l: Load, m: Load, k: Load)
    ensures l.Add(m).Add(k) == l.Add(m.Add(k))
  {
  }

  lemma AddReorder(l: Load, m: Load, k: Load)
    ensures l.Add(m).Add(k) == l.Add(k).Add(m)
  {
  }
}
