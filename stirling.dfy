/**
 * The Stirling-permutation wrapper (Permutations.py:83-118).  Its object starts
 * as [0, 0, 1, 1, ..., n-1, n-1]; the pair n-1, n-1 is swept, two positions
 * per change, from the end to the front and back over the states for n-1.
 * The states are exactly the Stirling permutations of order n, each once.
 */
module Stirling {
  import opened Changes
  import opened Sweeps
  import opened DoublePermutations

  /** The reference order: the pair n-1, n-1 swept over the order for n-1, starting at the end. */
  function StirlingOrder(n: nat): seq<seq<int>>
  {
    if n == 0 then [[]] else SweepAll(StirlingOrder(n - 1), Block(n - 1, 2), 0, true)
  }

  /**
   * A Stirling permutation: between two equal values only values at least as
   * large occur.
   */
  ghost predicate IsStirling(t: seq<int>)
  {
    forall i, j, k :: 0 <= i < j < k < |t| && t[i] == t[k] ==> t[j] >= t[i]
  }

  // Proof step, no property of the model: unfolds StirlingChanges(n) into the Passes form used by WeaveTrace.
  lemma StirlingChangesPasses(n: nat)
    requires n >= 1
    ensures StirlingChanges(n) == Passes(StirlingChanges(n - 1), 0, 2 * n - 2, 2, true)
  {
    if n == 1 {
      assert CountDown(-1, -1) == [];
    }
  }

  /** Applying StirlingChanges(n) to [0, 0, ..., n-1, n-1], swapping x and x+2, lists StirlingOrder(n). */
  lemma {:induction false} StirlingTrace(n: nat)
    ensures InBounds(StirlingChanges(n), 2 * n, 2)
    ensures Trace(Pairs(n), StirlingChanges(n), 2) == StirlingOrder(n)
    decreases n
  {
    if n >= 1 {
      StirlingTrace(n - 1);
      StirlingSweep(n);
      StirlingChangesPasses(n);
    }
  }

  lemma StirlingSweep(n: nat)
    requires n >= 1
    requires InBounds(StirlingChanges(n - 1), 2 * n - 2, 2)
    requires Trace(Pairs(n - 1), StirlingChanges(n - 1), 2) == StirlingOrder(n - 1)
    ensures InBounds(Passes(StirlingChanges(n - 1), 0, 2 * n - 2, 2, true), 2 * n, 2)
    ensures Trace(Pairs(n), Passes(StirlingChanges(n - 1), 0, 2 * n - 2, 2, true), 2)
            == SweepAll(StirlingOrder(n - 1), Block(n - 1, 2), 0, true)
  {
    PairsGrow(n);
    WeaveTraceAt(Pairs(n - 1), StirlingChanges(n - 1), n - 1, 2, true, 2 * n - 2, Pairs(n), StirlingOrder(n - 1));
  }

  /** The object for n is the one for n-1 with the block n-1, n-1 inserted at its end. */
  lemma PairsGrow(n: nat)
    requires n >= 1
    ensures |Pairs(n - 1)| == 2 * n - 2
    ensures Ins(Pairs(n - 1), Block(n - 1, 2), Side(2 * n - 2, true)) == Pairs(n)
  {
    var y, b := Pairs(n - 1), Block(n - 1, 2);
    InsEnds(y, b);
    PairsSnoc(n);
    assert b == [n - 1, n - 1];
  }

  /** Every entry holds each of 0, ..., n-1 twice. */
  lemma StirlingOrderEntries(n: nat, j: nat)
    requires j < |StirlingOrder(n)|
    ensures multiset(StirlingOrder(n)[j]) == multiset(Pairs(n))
  {
    StirlingTrace(n);
    TraceMultiset(Pairs(n), StirlingChanges(n), 2, j);
  }

  /** A value of an entry is one of 0, ..., n-1, and the entry has length 2n. */
  lemma StirlingOrderValues(n: nat, j: nat, i: nat)
    requires j < |StirlingOrder(n)| && i < |StirlingOrder(n)[j]|
    ensures |StirlingOrder(n)[j]| == 2 * n
    ensures 0 <= StirlingOrder(n)[j][i] < n
  {
    var t := StirlingOrder(n)[j];
    StirlingOrderEntries(n, j);
    assert |multiset(t)| == |multiset(Pairs(n))|;
    PairsCount(n, t[i]);
    assert t[i] in multiset(t);
  }

  /** There are (2n-1)!! entries. */
  lemma StirlingOrderLength(n: nat)
    ensures |StirlingOrder(n)| == OddFactorial(n)
  {
    StirlingTrace(n);
    StirlingChangesLength(n);
    OddFactorialPositive(n);
  }

  /** The entries for n-1 all have length 2n-2 and do not hold n-1. */
  lemma StirlingOrderBelow(n: nat)
    ensures forall j :: 0 <= j < |StirlingOrder(n)| ==> |StirlingOrder(n)[j]| == 2 * n && n !in StirlingOrder(n)[j]
  {
    forall j | 0 <= j < |StirlingOrder(n)| ensures |StirlingOrder(n)[j]| == 2 * n && n !in StirlingOrder(n)[j] {
      StirlingOrderEntries(n, j);
      PairsCount(n, n);
      assert |multiset(StirlingOrder(n)[j])| == |multiset(Pairs(n))|;
    }
  }

  /** The entries are pairwise different. */
  lemma {:induction false} StirlingOrderDistinct(n: nat)
    ensures Distinct(StirlingOrder(n))
  {
    if n >= 1 {
      StirlingOrderDistinct(n - 1);
      StirlingOrderBelow(n - 1);
      SweepAllDistinct(StirlingOrder(n - 1), n - 1, 2, 0, true);
    }
  }

  /** Inserting a pair of a value larger than all others keeps a Stirling permutation one. */
  lemma InsStirling(q: seq<int>, m: int, p: nat)
    requires p <= |q| && IsStirling(q)
    requires forall i :: 0 <= i < |q| ==> q[i] < m
    ensures IsStirling(Ins(q, Block(m, 2), p))
  {
    var b := Block(m, 2);
    var t := Ins(q, b, p);
    assert b == [m, m];
    forall i, j, k | 0 <= i < j < k < |t| && t[i] == t[k] ensures t[j] >= t[i] {
      InsAt(q, b, p, i);
      InsAt(q, b, p, j);
      InsAt(q, b, p, k);
      if i < p && p + 2 <= k {
        assert t[i] == q[i] && t[k] == q[k - 2];
        if j < p {
          assert t[j] == q[j];
        } else if j >= p + 2 {
          assert t[j] == q[j - 2];
        }
      } else if p + 2 <= i {
        assert t[j] == q[j - 2];
      }
    }
  }

  /** Every entry is a Stirling permutation (the promise of Permutations.py:108-109). */
  lemma {:induction false} StirlingOrderStirling(n: nat, t: seq<int>)
    requires t in StirlingOrder(n)
    ensures IsStirling(t)
    decreases n, 1
  {
    if n >= 1 {
      StirlingOrderStirlingNext(n, t);
    }
  }

  lemma {:induction false} StirlingOrderStirlingNext(n: nat, t: seq<int>)
    requires n >= 1 && t in StirlingOrder(n)
    ensures IsStirling(t)
    decreases n, 0
  {
    var j, p := StirlingOrderSource(n, t);
    var q := StirlingOrder(n - 1)[j];
    StirlingOrderStirling(n - 1, q);
    StirlingOrderBound(n - 1, j);
    InsStirling(q, n - 1, p);
  }

  /** Every entry for n is an entry for n-1 with the pair n-1, n-1 inserted. */
  lemma StirlingOrderSource(n: nat, t: seq<int>) returns (j: nat, p: nat)
    requires n >= 1 && t in StirlingOrder(n)
    ensures j < |StirlingOrder(n - 1)| && p <= |StirlingOrder(n - 1)[j]|
    ensures t == Ins(StirlingOrder(n - 1)[j], Block(n - 1, 2), p)
  {
    var qs := StirlingOrder(n - 1);
    StirlingOrderBelow(n - 1);
    SweepAllMember(qs, Block(n - 1, 2), 0, true, t);
    j, p :| 0 <= j < |qs| && 0 <= p <= |qs[0]| && t == Ins(qs[j], Block(n - 1, 2), p);
  }

  lemma StirlingOrderBound(n: nat, j: nat)
    requires j < |StirlingOrder(n)|
    ensures forall i :: 0 <= i < |StirlingOrder(n)[j]| ==> StirlingOrder(n)[j][i] < n
  {
    forall i | 0 <= i < |StirlingOrder(n)[j]| ensures StirlingOrder(n)[j][i] < n {
      StirlingOrderValues(n, j, i);
    }
  }

  /** A value held at least twice has two positions. */
  lemma TwoPositions(t: seq<int>, v: int) returns (i: nat, k: nat)
    requires multiset(t)[v] >= 2
    ensures i < k < |t| && t[i] == v && t[k] == v
  {
    assert v in multiset(t);
    var p :| 0 <= p < |t| && t[p] == v;
    var a, c := t[..p], t[p + 1..];
    assert t == a + [v] + c;
    var u := a + c;
    assert multiset(u)[v] >= 1;
    assert v in multiset(u);
    var r :| 0 <= r < |u| && u[r] == v;
    if r < p {
      i, k := r, p;
    } else {
      i, k := p, r + 1;
    }
  }

  /** A value at three positions is held at least three times. */
  lemma ThreePositions(t: seq<int>, i: nat, j: nat, k: nat)
    requires i < j < k < |t| && t[i] == t[j] == t[k]
    ensures multiset(t)[t[i]] >= 3
  {
    var a, c := t[..j], t[j..];
    assert t == a + c;
    assert a[i] == t[i];
    assert t[i] in multiset(a);
    DuplicateCount(c, 0, k - j);
  }

  /** Removing an adjacent pair keeps a Stirling permutation one. */
  lemma RemoveStirling(t: seq<int>, p: nat)
    requires p + 2 <= |t| && IsStirling(t)
    ensures IsStirling(t[..p] + t[p + 2..])
  {
    var u := t[..p] + t[p + 2..];
    forall i, j, k | 0 <= i < j < k < |u| && u[i] == u[k] ensures u[j] >= u[i] {
      var i', j', k' := if i < p then i else i + 2, if j < p then j else j + 2, if k < p then k else k + 2;
      assert u[i] == t[i'] && u[j] == t[j'] && u[k] == t[k'];
    }
  }

  /** In a Stirling permutation of [0, 0, ..., n-1, n-1] the two copies of n-1 are adjacent. */
  lemma LargestAdjacent(n: nat, t: seq<int>) returns (i: nat)
    requires n >= 1 && multiset(t) == multiset(Pairs(n)) && IsStirling(t)
    ensures i + 1 < |t| && t[i] == n - 1 && t[i + 1] == n - 1
  {
    var m := n - 1;
    PairsCount(n, m);
    var k;
    i, k := TwoPositions(t, m);
    if k > i + 1 {
      var v := t[i + 1];
      assert v >= m;
      assert v in multiset(t);
      PairsCount(n, v);
      ThreePositions(t, i, i + 1, k);
      assert false;
    }
  }

  /** Taking the adjacent pair n-1, n-1 out leaves a rearrangement of [0, 0, ..., n-2, n-2]. */
  lemma RemoveLargest(n: nat, t: seq<int>, i: nat)
    requires n >= 1 && multiset(t) == multiset(Pairs(n))
    requires i + 1 < |t| && t[i] == n - 1 && t[i + 1] == n - 1
    ensures multiset(t[..i] + t[i + 2..]) == multiset(Pairs(n - 1))
    ensures t == Ins(t[..i] + t[i + 2..], Block(n - 1, 2), i)
  {
    var m := n - 1;
    var u, mm := t[..i] + t[i + 2..], multiset{m, m};
    PairOut(t, i, m);
    assert multiset(Pairs(n)) == multiset(Pairs(m)) + mm by {
      PairsSnoc(n);
    }
    MultisetCancel(multiset(u), multiset(Pairs(m)), mm);
  }

  /** Taking out an adjacent pair x, x at position i, and putting it back. */
  lemma PairOut<T>(t: seq<T>, i: nat, x: T)
    requires i + 1 < |t| && t[i] == x && t[i + 1] == x
    ensures t == Ins(t[..i] + t[i + 2..], Block(x, 2), i)
    ensures multiset(t) == multiset(t[..i] + t[i + 2..]) + multiset{x, x}
  {
    var u := t[..i] + t[i + 2..];
    assert Block(x, 2) == [x, x];
    assert u[..i] == t[..i] && u[i..] == t[i + 2..];
    assert t == t[..i] + [x, x] + t[i + 2..];
  }

  lemma MultisetCancel<T>(a: multiset<T>, b: multiset<T>, c: multiset<T>)
    requires a + c == b + c
    ensures a == b
  {
    forall v ensures a[v] == b[v] {
      assert (a + c)[v] == (b + c)[v];
    }
  }

  /** Every Stirling permutation of order n occurs in the order. */
  lemma {:induction false} StirlingOrderReaches(n: nat, t: seq<int>)
    requires multiset(t) == multiset(Pairs(n)) && IsStirling(t)
    ensures t in StirlingOrder(n)
    decreases n
  {
    if n == 0 {
      assert |multiset(t)| == |t|;
    } else {
      var m := n - 1;
      var i := LargestAdjacent(n, t);
      var u := t[..i] + t[i + 2..];
      RemoveLargest(n, t, i);
      RemoveStirling(t, i);
      StirlingOrderReaches(m, u);
      var qs := StirlingOrder(m);
      var j :| 0 <= j < |qs| && qs[j] == u;
      StirlingOrderBelow(m);
      SweepAllMember(qs, Block(m, 2), 0, true, t);
    }
  }

  /** The states are exactly the Stirling permutations of [0, 0, ..., n-1, n-1]. */
  lemma StirlingOrderComplete(n: nat, t: seq<int>)
    ensures t in StirlingOrder(n) <==> multiset(t) == multiset(Pairs(n)) && IsStirling(t)
  {
    if t in StirlingOrder(n) {
      var j :| 0 <= j < |StirlingOrder(n)| && StirlingOrder(n)[j] == t;
      StirlingOrderEntries(n, j);
      StirlingOrderStirling(n, t);
    }
    if multiset(t) == multiset(Pairs(n)) && IsStirling(t) {
      StirlingOrderReaches(n, t);
    }
  }

  /** `StirlingPermutations(n)`: the objects yielded, in order. */
  method StirlingPermutations(n: nat) returns (perms: seq<seq<int>>)
    ensures perms == StirlingOrder(n)
  {
    var perm := PairsArray(n);
    StirlingTrace(n);
    perms := SwapLoop(perm, StirlingChanges(n), 2);
  }
}
