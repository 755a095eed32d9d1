/**
 * The four change-stream generators of Permutations.py, as finite sequences.
 *
 * Each Python generator is lazy and recursive: it owns a child generator for a
 * smaller size and interleaves the child's values with locally computed index
 * runs.  Here every stream is the complete, finite list of values it yields;
 * the `while True` / `StopIteration` loop becomes the function Weave (or
 * InvolutionSweep), which walks the child stream index by index and emits the
 * closing run when the child is exhausted.
 */
module Changes {

  /** Python's `range(start, stop)`: start, start+1, ..., stop-1. */
  function CountUp(start: int, stop: int): seq<int>
  {
    seq(if stop > start then stop - start else 0, i => start + i)
  }

  /** Python's `range(start, stop, -1)`: start, start-1, ..., stop+1. */
  function CountDown(start: int, stop: int): seq<int>
  {
    seq(if start > stop then start - stop else 0, i => start - i)
  }

  /** Every value of `cs` lies in [lo, hi]. */
  predicate Within(cs: seq<int>, lo: int, hi: int)
  {
    forall i :: 0 <= i < |cs| ==> lo <= cs[i] <= hi
  }

  /**
   * What the loop
   *     while True:
   *       for x in first: yield x
   *       yield rec.next() + d1
   *       for x in second: yield x
   *       yield rec.next() + d2
   * yields from the k-th call of `rec.next()` on: the k-th child value is
   * preceded by `first` and shifted by d1 when k is even, preceded by `second`
   * and shifted by d2 when k is odd; once the child is exhausted (k == |rec|)
   * the run that was already emitted before the failing `next()` closes the
   * stream.
   */
  function Weave(rec: seq<int>, k: nat, first: seq<int>, second: seq<int>, d1: int, d2: int): seq<int>
    requires k <= |rec|
    decreases |rec| - k
  {
    if k == |rec| then (if k % 2 == 0 then first else second)
    else if k % 2 == 0 then first + [rec[k] + d1] + Weave(rec, k + 1, first, second, d1, d2)
    else second + [rec[k] + d2] + Weave(rec, k + 1, first, second, d1, d2)
  }

  /** The Steinhaus-Johnson-Trotter swap positions for n items (Permutations.py:17-33). */
  function PlainChanges(n: nat): seq<int>
  {
    if n < 1 then []
    else Weave(PlainChanges(n - 1), 0, CountDown(n - 2, -1), CountUp(0, n - 1), 1, 0)
  }

  /** The swap positions for double permutations of n values (Permutations.py:53-69). */
  function DoublePlainChanges(n: nat): seq<int>
  {
    if n < 1 then []
    else Weave(DoublePlainChanges(n - 1), 0, CountUp(1, 2 * n - 1), CountDown(2 * n - 2, 0), 1, 2)
  }

  /** The distance-two swap positions for Stirling permutations of order n (Permutations.py:83-106). */
  function StirlingChanges(n: nat): seq<int>
  {
    if n <= 1 then []
    else Weave(StirlingChanges(n - 1), 0, CountDown(2 * n - 3, -1), CountUp(0, 2 * n - 2), 2, 0)
  }

  /**
   * The loop of InvolutionChanges over the child stream `ic` for n-2 items,
   * from the k-th call of `ic.next()` on: an even-numbered child value is
   * shifted by one and followed by 0..n-3, an odd-numbered one is followed by
   * n-3..0; when the child is exhausted the stream ends with n-4.
   */
  function InvolutionSweep(ic: seq<int>, k: nat, n: int): seq<int>
    requires k <= |ic|
    decreases |ic| - k
  {
    if k == |ic| then [n - 4]
    else if k % 2 == 0 then [ic[k] + 1] + CountUp(0, n - 2) + InvolutionSweep(ic, k + 1, n)
    else [ic[k]] + CountDown(n - 3, -1) + InvolutionSweep(ic, k + 1, n)
  }

  /** The change positions for involutions on n items (Permutations.py:120-146). */
  function InvolutionChanges(n: nat): seq<int>
  {
    if n <= 3 then [[], [], [0], [0, 1, 0]][n]
    else InvolutionChanges(n - 1) + [n - 2] + CountDown(n - 4, -1)
         + InvolutionSweep(InvolutionChanges(n - 2), 0, n)
  }

  // ---------------------------------------------------------------------
  // Counting functions

  function Factorial(n: nat): nat
  {
    if n == 0 then 1 else n * Factorial(n - 1)
  }

  /** (2n-1)!! = 1 * 3 * 5 * ... * (2n-1). */
  function OddFactorial(n: nat): nat
  {
    if n == 0 then 1 else (2 * n - 1) * OddFactorial(n - 1)
  }

  /** The telephone numbers: T(0) = T(1) = 1, T(n) = T(n-1) + (n-1) T(n-2). */
  function Telephone(n: nat): nat
  {
    if n <= 1 then 1 else Telephone(n - 1) + (n - 1) * Telephone(n - 2)
  }

  // ---------------------------------------------------------------------
  // Lengths

  // Arithmetic steps used by the length proofs. They are no properties of the
  // streams: each hands the solver one small nonlinear fact on its own.

  lemma MulSucc(m: int, b: int)
    ensures m * (b + 1) == b * m + m
  {}

  lemma MulComm(a: int, b: int)
    ensures a * b == b * a
  {}

  lemma MulStep(total: int, part: int, c: int, f: int)
    requires part == (c - 1) * f && total == f + part
    ensures total == c * f
  {}

  lemma EvenProduct(a: int, b: int)
    requires b % 2 == 0
    ensures (a * b) % 2 == 0
  {
    var q := b / 2;
    assert b == 2 * q;
    assert a * b == 2 * (a * q);
  }

  lemma EvenSum(a: int, b: int)
    requires a % 2 == 0 && b % 2 == 0
    ensures (a + b) % 2 == 0
  {}

  lemma MulSplit(a: int, b: int)
    ensures (a + 1) * b == a * b + b
  {}

  lemma {:induction false} WeaveLength(rec: seq<int>, k: nat, first: seq<int>, second: seq<int>, d1: int, d2: int)
    requires k <= |rec| && |first| == |second|
    ensures |Weave(rec, k, first, second, d1, d2)| == (|rec| - k) * (|first| + 1) + |first|
    decreases |rec| - k
  {
    if k < |rec| {
      WeaveLength(rec, k + 1, first, second, d1, d2);
      assert |Weave(rec, k, first, second, d1, d2)| == |first| + 1 + |Weave(rec, k + 1, first, second, d1, d2)|;
      MulSplit(|rec| - (k + 1), |first| + 1);
    }
  }

  /** A woven stream over a child with c - 1 values has c * (|first| + 1) - 1 values. */
  lemma WeaveCount(rec: seq<int>, first: seq<int>, second: seq<int>, d1: int, d2: int, c: nat)
    requires |first| == |second| && |rec| + 1 == c
    ensures |Weave(rec, 0, first, second, d1, d2)| == c * (|first| + 1) - 1
  {
    var f := |first|;
    assert |Weave(rec, 0, first, second, d1, d2)| == |rec| * (f + 1) + f by {
      WeaveLength(rec, 0, first, second, d1, d2);
    }
    MulSplit(|rec|, f + 1);
  }

  /** PlainChanges(n) has n! - 1 values, so n! permutations are produced (Permutations.py:182-187). */
  lemma {:induction false} PlainChangesLength(n: nat)
    ensures |PlainChanges(n)| == Factorial(n) - 1
  {
    if n >= 1 {
      PlainChangesLength(n - 1);
      assert |CountDown(n - 2, -1)| == n - 1 && |CountUp(0, n - 1)| == n - 1;
      WeaveCount(PlainChanges(n - 1), CountDown(n - 2, -1), CountUp(0, n - 1), 1, 0, Factorial(n - 1));
      MulComm(Factorial(n - 1), n);
    }
  }

  /** DoublePlainChanges(n) has (2n-1)!! - 1 values. */
  lemma {:induction false} DoublePlainChangesLength(n: nat)
    ensures |DoublePlainChanges(n)| == OddFactorial(n) - 1
  {
    if n >= 1 {
      DoublePlainChangesLength(n - 1);
      assert |CountUp(1, 2 * n - 1)| == 2 * n - 2 && |CountDown(2 * n - 2, 0)| == 2 * n - 2;
      WeaveCount(DoublePlainChanges(n - 1), CountUp(1, 2 * n - 1), CountDown(2 * n - 2, 0), 1, 2, OddFactorial(n - 1));
      MulComm(OddFactorial(n - 1), 2 * n - 1);
    }
  }

  /** StirlingChanges(n) has (2n-1)!! - 1 values. */
  lemma {:induction false} StirlingChangesLength(n: nat)
    ensures |StirlingChanges(n)| == OddFactorial(n) - 1
  {
    if n >= 2 {
      StirlingChangesLength(n - 1);
      assert |CountDown(2 * n - 3, -1)| == 2 * n - 2 && |CountUp(0, 2 * n - 2)| == 2 * n - 2;
      WeaveCount(StirlingChanges(n - 1), CountDown(2 * n - 3, -1), CountUp(0, 2 * n - 2), 2, 0, OddFactorial(n - 1));
      MulComm(OddFactorial(n - 1), 2 * n - 1);
    }
  }

  lemma {:induction false} InvolutionSweepLength(ic: seq<int>, k: nat, n: int)
    requires k <= |ic| && n >= 2
    ensures |InvolutionSweep(ic, k, n)| == (|ic| - k) * (n - 1) + 1
    decreases |ic| - k
  {
    if k < |ic| {
      InvolutionSweepLength(ic, k + 1, n);
      assert |CountUp(0, n - 2)| == n - 2 && |CountDown(n - 3, -1)| == n - 2;
      MulSplit(|ic| - (k + 1), n - 1);
    }
  }

  /** InvolutionChanges(n) has T(n) - 1 values (Permutations.py:216-228). */
  lemma {:induction false} InvolutionChangesLength(n: nat)
    ensures |InvolutionChanges(n)| == Telephone(n) - 1
  {
    if n >= 4 {
      InvolutionChangesLength(n - 1);
      InvolutionChangesLength(n - 2);
      InvolutionSweepLength(InvolutionChanges(n - 2), 0, n);
      var a, b := |InvolutionChanges(n - 1)|, |InvolutionChanges(n - 2)|;
      assert |CountDown(n - 4, -1)| == n - 3;
      assert |InvolutionChanges(n)| == a + 1 + (n - 3) + (b * (n - 1) + 1);
      assert Telephone(n) == (a + 1) + (n - 1) * (b + 1);
      MulSucc(n - 1, b);
    } else {
      InvolutionChangesSmall();
      assert Telephone(2) == 2 && Telephone(3) == 4;
    }
  }

  // ---------------------------------------------------------------------
  // Bounds

  lemma {:induction false} WeaveWithin(rec: seq<int>, k: nat, first: seq<int>, second: seq<int>, d1: int, d2: int, lo: int, hi: int)
    requires k <= |rec|
    requires Within(first, lo, hi) && Within(second, lo, hi)
    requires Within(rec, lo - d1, hi - d1) && Within(rec, lo - d2, hi - d2)
    ensures Within(Weave(rec, k, first, second, d1, d2), lo, hi)
    decreases |rec| - k
  {
    if k < |rec| {
      WeaveWithin(rec, k + 1, first, second, d1, d2, lo, hi);
    }
  }

  /** Every PlainChanges(n) value x satisfies 0 <= x <= n-2, so `perm[x], perm[x+1]` is in range. */
  lemma {:induction false} PlainChangesWithin(n: nat)
    ensures Within(PlainChanges(n), 0, n - 2)
  {
    if n >= 1 {
      PlainChangesWithin(n - 1);
      WeaveWithin(PlainChanges(n - 1), 0, CountDown(n - 2, -1), CountUp(0, n - 1), 1, 0, 0, n - 2);
    }
  }

  /** Every DoublePlainChanges(n) value x satisfies 1 <= x <= 2n-2: position 0 never moves. */
  lemma {:induction false} DoublePlainChangesWithin(n: nat)
    ensures Within(DoublePlainChanges(n), 1, 2 * n - 2)
  {
    if n >= 1 {
      DoublePlainChangesWithin(n - 1);
      WeaveWithin(DoublePlainChanges(n - 1), 0, CountUp(1, 2 * n - 1), CountDown(2 * n - 2, 0), 1, 2, 1, 2 * n - 2);
    }
  }

  /** Every StirlingChanges(n) value x satisfies 0 <= x <= 2n-3, so `perm[x], perm[x+2]` is in range. */
  lemma {:induction false} StirlingChangesWithin(n: nat)
    ensures Within(StirlingChanges(n), 0, 2 * n - 3)
  {
    if n >= 2 {
      StirlingChangesWithin(n - 1);
      WeaveWithin(StirlingChanges(n - 1), 0, CountDown(2 * n - 3, -1), CountUp(0, 2 * n - 2), 2, 0, 0, 2 * n - 3);
    }
  }

  lemma {:induction false} InvolutionSweepWithin(ic: seq<int>, k: nat, n: int)
    requires k <= |ic| && n >= 4 && Within(ic, 0, n - 4)
    ensures Within(InvolutionSweep(ic, k, n), 0, n - 2)
    decreases |ic| - k
  {
    if k < |ic| {
      InvolutionSweepWithin(ic, k + 1, n);
    }
  }

  /** Every InvolutionChanges(n) value c satisfies 0 <= c <= n-2, so `p[c+1]` is in range. */
  lemma {:induction false} InvolutionChangesWithin(n: nat)
    ensures Within(InvolutionChanges(n), 0, n - 2)
  {
    if n >= 4 {
      InvolutionChangesWithin(n - 1);
      InvolutionChangesWithin(n - 2);
      InvolutionSweepWithin(InvolutionChanges(n - 2), 0, n);
    }
  }

  // ---------------------------------------------------------------------
  // Literal values

  /** The regression values: no changes for 0 or 1 items, and [1,0,1,0,1] for 3 (Permutations.py:180). */
  lemma PlainChangesSmall()
    ensures PlainChanges(0) == [] && PlainChanges(1) == []
    ensures PlainChanges(2) == [0]
    ensures PlainChanges(3) == [1, 0, 1, 0, 1]
  {
    assert CountDown(0, -1) == [0] && CountUp(0, 1) == [0];
    assert CountDown(1, -1) == [1, 0] && CountUp(0, 2) == [0, 1];
    assert PlainChanges(2) == [0];
  }

  /** The literal base cases of InvolutionChanges (Permutations.py:127-130) and the first recursive case. */
  lemma InvolutionChangesSmall()
    ensures InvolutionChanges(0) == [] && InvolutionChanges(1) == []
    ensures InvolutionChanges(2) == [0] && InvolutionChanges(3) == [0, 1, 0]
    ensures InvolutionChanges(4) == [0, 1, 0, 2, 0, 1, 0, 1, 0]
  {
  }

  /** The first telephone numbers, as listed by the source's test (Permutations.py:218). */
  lemma TelephoneSmall()
    ensures Telephone(0) == 1 && Telephone(1) == 1 && Telephone(2) == 2 && Telephone(3) == 4
    ensures Telephone(4) == 10 && Telephone(5) == 26 && Telephone(6) == 76
    ensures Telephone(7) == 232 && Telephone(8) == 764
  {
    assert Telephone(2) == 2;
    assert Telephone(3) == 4;
    assert Telephone(4) == 10;
    assert Telephone(5) == 26;
    assert Telephone(6) == 76;
    assert Telephone(7) == 232;
  }

  /** T(n) is even from n = 2 on; used to show which side the last sweep of InvolutionChanges ends on. */
  lemma {:induction false} TelephoneEven(n: nat)
    requires n >= 2
    ensures Telephone(n) % 2 == 0
  {
    if n >= 4 {
      TelephoneEven(n - 1);
      TelephoneEven(n - 2);
      var a, b := Telephone(n - 1), Telephone(n - 2);
      assert ((n - 1) * b) % 2 == 0 by {
        EvenProduct(n - 1, b);
      }
      assert Telephone(n) == a + (n - 1) * b;
      EvenSum(a, (n - 1) * b);
    } else if n == 3 {
      assert Telephone(3) == 4;
    }
  }
}
