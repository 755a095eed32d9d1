/**
 * The double-permutation wrapper (Permutations.py:53-81).  Its object starts as
 * [0, 0, 1, 1, ..., n-1, n-1]; the changes never touch position 0, and the
 * item at position 1 sweeps over positions 2.. while those positions run
 * through the order for n-1.  The result is (2n-1)!! arrangements, each
 * holding every value twice and all pairwise different; from n = 2 on this is
 * fewer than the (2n)!/2^n double permutations.
 */
module DoublePermutations {
  import opened Changes
  import opened Sweeps

  /** [a, a, a+1, a+1, ..., a+n-1, a+n-1] */
  function PairsFrom(a: int, n: nat): (r: seq<int>)
    ensures |r| == 2 * n
    decreases n
  {
    if n == 0 then [] else [a, a] + PairsFrom(a + 1, n - 1)
  }

  /** [0, 0, 1, 1, ..., n-1, n-1]: what `perm = []; for i in range(n): perm += [i,i]` builds. */
  function Pairs(n: nat): seq<int>
  {
    PairsFrom(0, n)
  }

  lemma {:induction false} PairsFromSnoc(a: int, n: nat)
    requires n >= 1
    ensures PairsFrom(a, n) == PairsFrom(a, n - 1) + [a + n - 1, a + n - 1]
    decreases n
  {
    if n >= 2 {
      PairsFromSnoc(a + 1, n - 1);
      var t := PairsFrom(a + 1, n - 2);
      assert PairsFrom(a, n - 1) == [a, a] + t;
      assert [a, a] + (t + [a + n - 1, a + n - 1]) == ([a, a] + t) + [a + n - 1, a + n - 1];
    } else {
      assert PairsFrom(a, n) == [a, a] + [];
    }
  }

  lemma {:induction false} PairsFromCount(a: int, n: nat, v: int)
    ensures multiset(PairsFrom(a, n))[v] == if a <= v < a + n then 2 else 0
    decreases n
  {
    if n >= 1 {
      PairsFromCount(a + 1, n - 1, v);
      assert multiset(PairsFrom(a, n)) == multiset{a, a} + multiset(PairsFrom(a + 1, n - 1));
    }
  }

  /** Each of 0, ..., n-1 occurs exactly twice in the initial object, and nothing else occurs. */
  lemma PairsCount(n: nat, v: int)
    ensures multiset(Pairs(n))[v] == if 0 <= v < n then 2 else 0
  {
    PairsFromCount(0, n, v);
  }

  /** The object for n is the one for n-1 with the pair n-1, n-1 appended. */
  lemma PairsSnoc(n: nat)
    requires n >= 1
    ensures Pairs(n) == Pairs(n - 1) + [n - 1, n - 1]
  {
    PairsFromSnoc(0, n);
  }

  /** Shifting every value of a stream by d. */
  lemma ShiftConcat(a: seq<int>, b: seq<int>, d: int)
    ensures Shift(a + b, d) == Shift(a, d) + Shift(b, d)
  {
  }

  lemma {:induction false} ShiftWeave(rec: seq<int>, k: nat, first: seq<int>, second: seq<int>, d1: int, d2: int, d: int)
    requires k <= |rec|
    ensures Shift(Weave(rec, k, first, second, d1, d2), d) == Weave(rec, k, Shift(first, d), Shift(second, d), d1 + d, d2 + d)
    decreases |rec| - k, 1
  {
    if k < |rec| {
      ShiftWeaveNext(rec, k, first, second, d1, d2, d);
    }
  }

  lemma {:induction false} ShiftWeaveNext(rec: seq<int>, k: nat, first: seq<int>, second: seq<int>, d1: int, d2: int, d: int)
    requires k < |rec|
    ensures Shift(Weave(rec, k, first, second, d1, d2), d) == Weave(rec, k, Shift(first, d), Shift(second, d), d1 + d, d2 + d)
    decreases |rec| - k, 0
  {
    var w, w' := Weave(rec, k, first, second, d1, d2), Weave(rec, k, Shift(first, d), Shift(second, d), d1 + d, d2 + d);
    var t := Weave(rec, k + 1, first, second, d1, d2);
    var t' := Weave(rec, k + 1, Shift(first, d), Shift(second, d), d1 + d, d2 + d);
    ShiftWeave(rec, k + 1, first, second, d1, d2, d);
    if k % 2 == 0 {
      assert w == first + [rec[k] + d1] + t;
      ShiftStep(w, w', first, rec[k] + d1, t, t', d);
    } else {
      assert w == second + [rec[k] + d2] + t;
      ShiftStep(w, w', second, rec[k] + d2, t, t', d);
    }
  }

  /** Shifting a run, one value and a shifted tail. */
  lemma ShiftStep(s: seq<int>, s': seq<int>, run: seq<int>, x: int, tail: seq<int>, tail': seq<int>, d: int)
    requires s == run + [x] + tail && s' == Shift(run, d) + [x + d] + tail' && Shift(tail, d) == tail'
    ensures Shift(s, d) == s'
  {
    ShiftConcat(run + [x], tail, d);
    ShiftConcat(run, [x], d);
    assert Shift([x], d) == [x + d];
  }

  /**
   * DoublePlainChanges(n) is the stream that sweeps the item at position 1 over
   * positions 2.. from the front, shifted past the fixed position 0.
   */
  lemma DoubleChangesPasses(n: nat)
    requires n >= 1
    ensures DoublePlainChanges(n) == Shift(Passes(DoublePlainChanges(n - 1), 0, 2 * n - 2, 1, false), 1)
  {
    var m := 2 * n - 2;
    ShiftWeave(DoublePlainChanges(n - 1), 0, CountUp(0, m), CountDown(m - 1, -1), 0, 1, 1);
    assert Shift(CountUp(0, m), 1) == CountUp(1, 2 * n - 1);
    assert Shift(CountDown(m - 1, -1), 1) == CountDown(2 * n - 2, 0);
  }

  /**
   * The reference order: s[0] stays in front, and s[1] sweeps from the front to
   * the end and back over the order of s[2..].
   */
  function DoubleOrder<T>(s: seq<T>): seq<seq<T>>
    decreases |s|
  {
    if |s| < 2 then [s]
    else Prefix(s[0], SweepAll(DoubleOrder(s[2..]), Block(s[1], 1), 0, false))
  }

  /** Applying DoublePlainChanges(n) to an object of length 2n lists DoubleOrder of it. */
  lemma {:induction false} DoubleTrace<T>(s: seq<T>, n: nat)
    requires |s| == 2 * n
    ensures InBounds(DoublePlainChanges(n), 2 * n, 1)
    ensures Trace(s, DoublePlainChanges(n), 1) == DoubleOrder(s)
    decreases n
  {
    if n >= 1 {
      var r := Passes(DoublePlainChanges(n - 1), 0, 2 * n - 2, 1, false);
      var inner := SweepAll(DoubleOrder(s[2..]), Block(s[1], 1), 0, false);
      DoubleTrace(s[2..], n - 1);
      DoubleSweep(s, n);
      assert Trace(s, Shift(r, 1), 1) == Prefix(s[0], inner) by {
        TracePrefix(s[0], s[1..], r);
        assert [s[0]] + s[1..] == s;
      }
      assert DoubleOrder(s) == Prefix(s[0], inner);
      DoubleChangesPasses(n);
    }
  }

  /** One level of DoubleTrace: the item at position 1 sweeps over the states of positions 2.. */
  lemma DoubleSweep<T>(s: seq<T>, n: nat)
    requires |s| == 2 * n && n >= 1
    requires InBounds(DoublePlainChanges(n - 1), 2 * n - 2, 1)
    requires Trace(s[2..], DoublePlainChanges(n - 1), 1) == DoubleOrder(s[2..])
    ensures InBounds(Passes(DoublePlainChanges(n - 1), 0, 2 * n - 2, 1, false), 2 * n - 1, 1)
    ensures Trace(s[1..], Passes(DoublePlainChanges(n - 1), 0, 2 * n - 2, 1, false), 1)
            == SweepAll(DoubleOrder(s[2..]), Block(s[1], 1), 0, false)
  {
    var y, x := s[2..], s[1];
    WeaveTrace(y, DoublePlainChanges(n - 1), x, 1, false);
    InsEnds(y, Block(x, 1));
    assert Block(x, 1) == [x] && s[1..] == [x] + y;
  }

  /** Every entry holds the items of the initial object. */
  lemma DoubleOrderEntries<T>(s: seq<T>, n: nat, j: nat)
    requires |s| == 2 * n && j < |DoubleOrder(s)|
    ensures multiset(DoubleOrder(s)[j]) == multiset(s)
    ensures |DoubleOrder(s)[j]| == |s|
  {
    DoubleTrace(s, n);
    TraceMultiset(s, DoublePlainChanges(n), 1, j);
  }

  /** Position 0 never moves. */
  lemma DoubleOrderFixed<T>(s: seq<T>, n: nat, j: nat)
    requires |s| == 2 * n && n >= 1 && j < |DoubleOrder(s)|
    ensures |DoubleOrder(s)[j]| == 2 * n && DoubleOrder(s)[j][0] == s[0]
  {
    DoubleOrderEntries(s, n, j);
  }

  lemma {:induction false} OddFactorialPositive(n: nat)
    ensures OddFactorial(n) >= 1
  {
    if n > 0 {
      OddFactorialPositive(n - 1);
      MulStep(OddFactorial(n), OddFactorial(n - 1) * (2 * n - 2), 2 * n - 1, OddFactorial(n - 1));
    }
  }

  /** There are (2n-1)!! = 1 * 3 * ... * (2n-1) entries. */
  lemma DoubleOrderLength<T>(s: seq<T>, n: nat)
    requires |s| == 2 * n
    ensures |DoubleOrder(s)| == OddFactorial(n)
  {
    DoubleTrace(s, n);
    DoublePlainChangesLength(n);
    OddFactorialPositive(n);
  }

  /** A value smaller than a does not occur in [a, a, ..., a+n-1, a+n-1]. */
  lemma {:induction false} PairsFromBelow(a: int, n: nat, v: int)
    requires v < a
    ensures v !in PairsFrom(a, n)
    decreases n
  {
    if n >= 1 {
      PairsFromBelow(a + 1, n - 1, v);
    }
  }

  lemma PrefixDistinct<T>(f: T, ss: seq<seq<T>>)
    requires Distinct(ss)
    ensures Distinct(Prefix(f, ss))
  {
    var r := Prefix(f, ss);
    forall i, j | 0 <= i < j < |r| ensures r[i] != r[j] {
      assert r[i][1..] == ss[i] && r[j][1..] == ss[j];
    }
  }

  /** Each pair's item is new to everything after the pair. */
  ghost predicate FreshPairs<T>(s: seq<T>)
    decreases |s|
  {
    |s| < 2 || (s[1] !in s[2..] && FreshPairs(s[2..]))
  }

  lemma {:induction false} PairsFromFresh(a: int, n: nat)
    ensures FreshPairs(PairsFrom(a, n))
    decreases n
  {
    if n >= 1 {
      var s, y := PairsFrom(a, n), PairsFrom(a + 1, n - 1);
      PairsFromBelow(a + 1, n - 1, a);
      PairsFromFresh(a + 1, n - 1);
      assert s[1] == a && s[2..] == y;
    }
  }

  /** An object whose pairs are fresh has pairwise different entries in its order. */
  lemma {:induction false} DoubleOrderDistinct<T>(s: seq<T>, n: nat)
    requires |s| == 2 * n && FreshPairs(s)
    ensures Distinct(DoubleOrder(s))
    decreases n
  {
    if n >= 1 {
      DoubleOrderDistinct(s[2..], n - 1);
      assert s[1] !in multiset(s[2..]);
      DoubleDistinctStep(s, n);
    }
  }

  /** One level of distinctness: s[1] is new to s[2..], whose order has no repeats. */
  lemma DoubleDistinctStep<T>(s: seq<T>, n: nat)
    requires |s| == 2 * n && n >= 1
    requires s[1] !in multiset(s[2..]) && Distinct(DoubleOrder(s[2..]))
    ensures Distinct(DoubleOrder(s))
  {
    var y, x := s[2..], s[1];
    var qs := DoubleOrder(y);
    var sw := SweepAll(qs, Block(x, 1), 0, false);
    assert Distinct(sw) by {
      DoubleOrderWithout(y, n - 1, x);
      SweepAllDistinct(qs, x, 1, 0, false);
    }
    PrefixDistinct(s[0], sw);
  }

  /** The entries for y have the length of y, and a value missing from y is missing from them. */
  lemma DoubleOrderWithout<T>(y: seq<T>, m: nat, x: T)
    requires |y| == 2 * m && x !in multiset(y)
    ensures forall j :: 0 <= j < |DoubleOrder(y)| ==> |DoubleOrder(y)[j]| == |DoubleOrder(y)[0]| && x !in DoubleOrder(y)[j]
  {
    var qs := DoubleOrder(y);
    forall j | 0 <= j < |qs| ensures |qs[j]| == |qs[0]| && x !in qs[j] {
      DoubleOrderEntries(y, m, j);
      DoubleOrderEntries(y, m, 0);
      assert x !in multiset(qs[j]);
    }
  }

  /** The entries for [0, 0, 1, 1, ...] are pairwise different. */
  lemma DoubleOrderPairsDistinct(n: nat)
    ensures Distinct(DoubleOrder(Pairs(n)))
  {
    PairsFromFresh(0, n);
    DoubleOrderDistinct(Pairs(n), n);
  }

  /** For n = 2 the wrapper yields 3 of the 6 double permutations; [1, 1, 0, 0] is not among them. */
  lemma DoubleOrderTwo()
    ensures DoubleOrder(Pairs(2)) == [[0, 0, 1, 1], [0, 1, 0, 1], [0, 1, 1, 0]]
    ensures [1, 1, 0, 0] !in DoubleOrder(Pairs(2))
  {
    var s := Pairs(2);
    assert s == [0, 0, 1, 1];
    assert DoublePlainChanges(1) == [];
    assert DoublePlainChanges(2) == [1, 2] by {
      assert CountUp(1, 3) == [1, 2];
    }
    DoubleTrace(s, 2);
    var t1 := Swap(s, 1, 1);
    assert t1 == [0, 1, 0, 1];
    assert Swap(t1, 2, 1) == [0, 1, 1, 0];
    assert Trace(s, [1, 2], 1) == [s, t1, Swap(t1, 2, 1)] by {
      assert Steps(t1, [2], 1) == [Swap(t1, 2, 1)] + Steps(Swap(t1, 2, 1), [], 1);
      assert [1, 2][1..] == [2];
    }
  }

  /** `perm = []; for i in range(n): perm += [i,i]`, as a fresh array. */
  method PairsArray(n: nat) returns (perm: array<int>)
    ensures fresh(perm) && perm[..] == Pairs(n)
  {
    perm := new int[2 * n];
    var i := 0;
    while i < n
      invariant 0 <= i <= n
      invariant perm[..2 * i] == Pairs(i)
    {
      perm[2 * i], perm[2 * i + 1] := i, i;
      assert perm[..2 * i + 2] == perm[..2 * i] + [i, i];
      PairsSnoc(i + 1);
      i := i + 1;
    }
    assert perm[..] == perm[..2 * n];
  }

  /** `DoubleSteinhausJohnsonTrotter(n)`: the objects yielded, in order. */
  method DoubleSteinhausJohnsonTrotter(n: nat) returns (perms: seq<seq<int>>)
    ensures perms == DoubleOrder(Pairs(n))
  {
    var perm := PairsArray(n);
    DoubleTrace(perm[..], n);
    perms := SwapLoop(perm, DoublePlainChanges(n), 1);
  }
}
