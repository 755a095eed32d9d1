/**
 * The Steinhaus-Johnson-Trotter wrapper (Permutations.py:35-51) and what its
 * output is: the order in which the last item sweeps back and forth over the
 * permutations of the other items, which lists every arrangement of the input
 * exactly once.
 */
module Plain {
  import opened Changes
  import opened Sweeps

  /**
   * The reference order: the permutations of items[..n-1] in their own order, with
   * the last item swept from the end to the front over the first one, back over
   * the second, and so on.
   */
  function PermutationOrder<T>(items: seq<T>): seq<seq<T>>
    decreases |items|
  {
    if items == [] then [[]]
    else SweepAll(PermutationOrder(items[..|items| - 1]), Block(items[|items| - 1], 1), 0, true)
  }

  // Proof step, no property of the model: unfolds PlainChanges(n) into the Passes form used by WeaveTrace.
  lemma PlainChangesPasses(n: nat)
    requires n >= 1
    ensures PlainChanges(n) == Passes(PlainChanges(n - 1), 0, n - 1, 1, true)
  {
  }

  lemma PlainChangesInBounds(n: nat)
    ensures InBounds(PlainChanges(n), n, 1)
  {
    PlainChangesWithin(n);
    WithinInBounds(PlainChanges(n), n, 1);
  }

  /** Applying PlainChanges(|x|) to x, adjacent swap by adjacent swap, lists PermutationOrder(x). */
  lemma {:induction false} PlainTrace<T>(x: seq<T>)
    ensures InBounds(PlainChanges(|x|), |x|, 1)
    ensures Trace(x, PlainChanges(|x|), 1) == PermutationOrder(x)
    decreases |x|
  {
    var n := |x|;
    PlainChangesInBounds(n);
    if n > 0 {
      var y, z := x[..n - 1], x[n - 1];
      PlainTrace(y);
      PlainChangesPasses(n);
      WeaveTrace(y, PlainChanges(n - 1), z, 1, true);
      InsEnds(y, Block(z, 1));
      assert Block(z, 1) == [z] && x == y + [z];
    }
  }

  /** Every entry of the order is a rearrangement of the items. */
  lemma PermutationOrderEntries<T>(items: seq<T>, j: nat)
    requires j < |PermutationOrder(items)|
    ensures multiset(PermutationOrder(items)[j]) == multiset(items)
    ensures |PermutationOrder(items)[j]| == |items|
  {
    PlainTrace(items);
    TraceMultiset(items, PlainChanges(|items|), 1, j);
    assert |multiset(PermutationOrder(items)[j])| == |multiset(items)|;
  }

  /** The order has n! entries (Permutations.py:182-187). */
  lemma PermutationOrderLength<T>(items: seq<T>)
    ensures |PermutationOrder(items)| == Factorial(|items|)
  {
    PlainTrace(items);
    PlainChangesLength(|items|);
    FactorialPositive(|items|);
  }

  lemma {:induction false} FactorialPositive(n: nat)
    ensures Factorial(n) >= 1
  {
    if n > 0 {
      FactorialPositive(n - 1);
      MulStep(Factorial(n), Factorial(n - 1) * (n - 1), n, Factorial(n - 1));
    }
  }

  /** The first entry is the input itself (Permutations.py:211-214). */
  lemma PermutationOrderFirst<T>(items: seq<T>)
    ensures PermutationOrder(items) != [] && PermutationOrder(items)[0] == items
  {
    PlainTrace(items);
  }

  /** Every arrangement of the items occurs in the order, and nothing else does. */
  lemma PermutationOrderComplete<T>(items: seq<T>, t: seq<T>)
    ensures t in PermutationOrder(items) <==> multiset(t) == multiset(items)
  {
    if t in PermutationOrder(items) {
      var j :| 0 <= j < |PermutationOrder(items)| && PermutationOrder(items)[j] == t;
      PermutationOrderEntries(items, j);
    }
    if multiset(t) == multiset(items) {
      PermutationOrderReaches(items, t);
    }
  }

  lemma {:induction false} PermutationOrderReaches<T>(items: seq<T>, t: seq<T>)
    requires multiset(t) == multiset(items)
    ensures t in PermutationOrder(items)
    decreases |items|
  {
    if items == [] {
      assert |multiset(t)| == |t|;
    } else {
      var n := |items|;
      var y, z := items[..n - 1], items[n - 1];
      var qs, b := PermutationOrder(y), Block(z, 1);
      assert items == y + [z];
      assert b == [z];
      var p, u := PickOut(t, y, z);
      PermutationOrderReaches(y, u);
      var j :| 0 <= j < |qs| && qs[j] == u;
      assert |qs[j]| == |qs[0]| == n - 1 by {
        PermutationOrderEntries(y, j);
        PermutationOrderEntries(y, 0);
      }
      assert t == Ins(qs[j], b, p);
      SweepAllQsLengths(y);
      SweepAllMember(qs, b, 0, true, t);
    }
  }

  /** Entries of the order for `y` all have the length of `y`. */
  lemma SweepAllQsLengths<T>(y: seq<T>)
    ensures forall j :: 0 <= j < |PermutationOrder(y)| ==> |PermutationOrder(y)[j]| == |y|
  {
    forall j | 0 <= j < |PermutationOrder(y)| ensures |PermutationOrder(y)[j]| == |y| {
      PermutationOrderEntries(y, j);
    }
  }

  /** A rearrangement of y + [z] is z inserted into a rearrangement of y. */
  lemma PickOut<T>(t: seq<T>, y: seq<T>, z: T) returns (p: nat, u: seq<T>)
    requires multiset(t) == multiset(y + [z])
    ensures p <= |u| && t == Ins(u, [z], p) && multiset(u) == multiset(y)
  {
    assert z in multiset(t);
    p :| 0 <= p < |t| && t[p] == z;
    var a, c := t[..p], t[p + 1..];
    u := a + c;
    assert t == a + [z] + c;
    assert u[..p] == a && u[p..] == c;
    assert Ins(u, [z], p) == a + [z] + c;
    assert multiset(t) == multiset(u) + multiset{z};
    assert multiset(y + [z]) == multiset(y) + multiset{z};
    assert multiset(u) == multiset(t) - multiset{z};
  }

  /** Distinct items give distinct entries (Permutations.py:189-197). */
  lemma {:induction false} PermutationOrderDistinct<T>(items: seq<T>)
    requires Distinct(items)
    ensures Distinct(PermutationOrder(items))
    decreases |items|
  {
    if items != [] {
      var n := |items|;
      var y, z := items[..n - 1], items[n - 1];
      var qs := PermutationOrder(y);
      assert Distinct(y) by {
        forall i, j | 0 <= i < j < |y| ensures y[i] != y[j] {
          assert y[i] == items[i] && y[j] == items[j];
        }
      }
      assert z !in multiset(y) by {
        forall i | 0 <= i < |y| ensures y[i] != z {
          assert y[i] == items[i];
        }
      }
      PermutationOrderDistinct(y);
      forall j | 0 <= j < |qs| ensures |qs[j]| == |qs[0]| && z !in qs[j] {
        PermutationOrderEntries(y, j);
        PermutationOrderEntries(y, 0);
        assert z !in multiset(qs[j]);
      }
      SweepAllDistinct(qs, z, 1, 0, true);
    }
  }

  /**
   * Consecutive entries differ by exchanging two neighbours; for distinct items
   * they differ in exactly those two positions (Permutations.py:199-209).
   */
  lemma PermutationOrderAdjacent<T>(items: seq<T>, k: nat) returns (c: int)
    requires k + 1 < |PermutationOrder(items)|
    ensures |PermutationOrder(items)[k]| == |items|
    ensures 0 <= c && c + 1 < |items| && PermutationOrder(items)[k + 1] == Swap(PermutationOrder(items)[k], c, 1)
    ensures Distinct(items) ==> Exchanged(PermutationOrder(items)[k], PermutationOrder(items)[k + 1], c)
  {
    var cs := PlainChanges(|items|);
    PlainTrace(items);
    TraceStep(items, cs, 1, k);
    c := cs[k];
    var p, q := PermutationOrder(items)[k], PermutationOrder(items)[k + 1];
    assert q == Swap(p, c, 1);
    if Distinct(items) {
      PermutationOrderEntries(items, k);
      PermutationDistinct(p, items);
      assert Exchanged(p, q, c);
    }
  }

  /** q is p with positions c and c+1 exchanged, and these are the only positions where they differ. */
  ghost predicate Exchanged<T>(p: seq<T>, q: seq<T>, c: int)
  {
    && |p| == |q| && 0 <= c && c + 1 < |p|
    && q[c] == p[c + 1] && q[c + 1] == p[c]
    && forall i :: 0 <= i < |p| ==> (q[i] != p[i] <==> i == c || i == c + 1)
  }

  /**
   * `SteinhausJohnsonTrotter(x)` for a list x: the objects yielded, in order.
   * The list is copied into `perm`, which is yielded, then changed in place by
   * each swap of PlainChanges(n) and yielded again.
   */
  method SteinhausJohnsonTrotter<T>(x: seq<T>) returns (perms: seq<seq<T>>)
    ensures perms == PermutationOrder(x)
  {
    var n := |x|;
    var perm := new T[n](i requires 0 <= i < n => x[i]);
    assert perm[..] == x;
    PlainChangesInBounds(n);
    perms := SwapLoop(perm, PlainChanges(n), 1);
    PlainTrace(x);
  }

  /** `SteinhausJohnsonTrotter(n)` for a number n lists the permutations of range(n). */
  method SteinhausJohnsonTrotterRange(n: int) returns (perms: seq<seq<int>>)
    ensures perms == PermutationOrder(CountUp(0, n))
  {
    perms := SteinhausJohnsonTrotter(CountUp(0, n));
  }
}
