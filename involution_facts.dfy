/**
 * What `Involutions(n)` yields (Permutations.py:148-174), as its test
 * (Permutations.py:216-228) and its docstring promise: every arrangement is an
 * involution on n items, no involution is listed twice, every involution on
 * n items is listed, there are T(n) of them (the telephone numbers), the first
 * is the identity and the last exchanges only the final two items.
 */
module InvolutionFacts {
  import opened Changes
  import Sweeps
  import opened InvolutionEdits
  import opened InvolutionTraces

  /** Every listed arrangement is an involution on n items: `[p[i] for i in p] == range(n)`. */
  lemma InvolutionOrderInvolutions(n: nat, k: nat)
    requires k < |InvolutionOrder(n)|
    ensures |InvolutionOrder(n)[k]| == n && IsInvolution(InvolutionOrder(n)[k])
  {
    InvolutionTrace(n);
    EditTraceInvolutions(Identity(n), InvolutionChanges(n), k);
  }

  /** There are T(n) entries: 1, 1, 2, 4, 10, 26, 76, ... */
  lemma InvolutionOrderLength(n: nat)
    ensures |InvolutionOrder(n)| == Telephone(n)
  {
    InvolutionTrace(n);
    InvolutionChangesLength(n);
  }

  // ---------------------------------------------------------------------
  // Taking an involution apart
  // ---------------------------------------------------------------------

  /** An embedding determines the partner j of n-1 and the involution q on the other items. */
  lemma EmbedInjective(q: seq<int>, q': seq<int>, n: nat, j: int, j': int)
    requires n >= 2 && |q| == n - 2 && |q'| == n - 2 && 0 <= j <= n - 2 && 0 <= j' <= n - 2
    requires Embed(q, n, j) == Embed(q', n, j')
    ensures j == j' && q == q'
  {
    assert j == Embed(q, n, j)[n - 1];
    forall y | 0 <= y < n - 2 ensures q[y] == q'[y] {
      var x := RelabelUp(y, j);
      assert RelabelDown(x, j) == y;
      assert Embed(q, n, j)[x] == EmbedEntry(q, n, j, x) == RelabelUp(q[y], j);
      assert Embed(q', n, j)[x] == EmbedEntry(q', n, j, x) == RelabelUp(q'[y], j);
    }
  }

  lemma EmbedApart(q: seq<int>, q': seq<int>, n: nat, j: int, j': int)
    requires n >= 2 && |q| == n - 2 && |q'| == n - 2 && 0 <= j <= n - 2 && 0 <= j' <= n - 2
    requires q != q'
    ensures Embed(q, n, j) != Embed(q', n, j')
  {
    if Embed(q, n, j) == Embed(q', n, j') {
      EmbedInjective(q, q', n, j, j');
    }
  }

  /** The action of p on the items other than j and |p|-1, relabelled as 0..|p|-3. */
  function Unembed(p: seq<int>, j: int): (q: seq<int>)
    requires 0 <= j && j + 2 <= |p|
    ensures |q| == |p| - 2
  {
    seq(|p| - 2, y requires 0 <= y < |p| - 2 => RelabelDown(p[RelabelUp(y, j)], j))
  }

  /** An involution that pairs n-1 with j is the embedding of an involution on the other items. */
  lemma UnembedEmbed(p: seq<int>, n: nat, j: int)
    requires |p| == n && n >= 2 && IsInvolution(p) && 0 <= j <= n - 2 && p[n - 1] == j
    ensures IsInvolution(Unembed(p, j)) && Embed(Unembed(p, j), n, j) == p
  {
    var q := Unembed(p, j);
    assert p[j] == n - 1;
    forall y | 0 <= y < n - 2
      ensures 0 <= q[y] < n - 2 && RelabelUp(q[y], j) == p[RelabelUp(y, j)]
    {
      var x := RelabelUp(y, j);
      assert p[x] != j && p[x] != n - 1 by {
        assert p[p[x]] == x;
      }
    }
    forall y | 0 <= y < n - 2 ensures q[q[y]] == y {
      var x := RelabelUp(y, j);
      assert RelabelDown(p[p[x]], j) == y;
    }
    var e := Embed(q, n, j);
    forall x | 0 <= x < n ensures e[x] == p[x] {
      assert e[x] == EmbedEntry(q, n, j, x);
      if x != n - 1 && x != j {
        assert RelabelUp(RelabelDown(x, j), j) == x;
      }
    }
  }

  /** An involution that fixes n-1 is an involution on the other items with n-1 appended. */
  lemma Restrict(p: seq<int>, n: nat)
    requires |p| == n && n >= 1 && IsInvolution(p) && p[n - 1] == n - 1
    ensures IsInvolution(p[..n - 1]) && p == p[..n - 1] + [n - 1]
  {
    var s := p[..n - 1];
    forall i | 0 <= i < n - 1 ensures 0 <= s[i] < n - 1 && s[s[i]] == i {
      assert p[i] != n - 1 by {
        assert p[p[i]] == i;
      }
    }
    assert p == s + [n - 1];
  }

  // ---------------------------------------------------------------------
  // The runs of the pair phase
  // ---------------------------------------------------------------------

  lemma {:induction false} DownsAt(q: seq<int>, n: nat, j: int, i: nat)
    requires n >= 2 && |q| == n - 2 && -1 <= j <= n - 2 && i <= j
    ensures Downs(q, n, j)[i] == Embed(q, n, j - i)
    decreases j, 1
  {
    if i > 0 {
      DownsAtNext(q, n, j, i);
    }
  }

  lemma {:induction false} DownsAtNext(q: seq<int>, n: nat, j: int, i: nat)
    requires n >= 2 && |q| == n - 2 && -1 <= j <= n - 2 && 0 < i <= j
    ensures Downs(q, n, j)[i] == Embed(q, n, j - i)
    decreases j, 0
  {
    var d := Downs(q, n, j - 1);
    DownsAt(q, n, j - 1, i - 1);
    assert Downs(q, n, j) == [Embed(q, n, j)] + d;
    assert Downs(q, n, j)[i] == d[i - 1];
  }

  lemma {:induction false} UpsAt(q: seq<int>, n: nat, j: int, i: nat)
    requires n >= 2 && |q| == n - 2 && 0 <= j && j + i <= n - 2
    ensures Ups(q, n, j)[i] == Embed(q, n, j + i)
    decreases n - j, 1
  {
    if i > 0 {
      UpsAtNext(q, n, j, i);
    }
  }

  lemma {:induction false} UpsAtNext(q: seq<int>, n: nat, j: int, i: nat)
    requires n >= 2 && |q| == n - 2 && 0 <= j && j + i <= n - 2 && i > 0
    ensures Ups(q, n, j)[i] == Embed(q, n, j + i)
    decreases n - j, 0
  {
    var u := Ups(q, n, j + 1);
    UpsAt(q, n, j + 1, i - 1);
    assert Ups(q, n, j) == [Embed(q, n, j)] + u;
    assert Ups(q, n, j)[i] == u[i - 1];
  }

  /** The run of Rest over qs[k]: n-1 paired with every j, upwards at odd k, downwards at even k. */
  function RestRun(qs: seq<seq<int>>, k: nat, n: nat): (r: seq<seq<int>>)
    requires n >= 2 && k < |qs| && Sized(qs, n - 2)
  {
    if k % 2 == 1 then Ups(qs[k], n, 0) else Downs(qs[k], n, n - 2)
  }

  /** The partner of n-1 in entry i of the run at k. */
  function Partner(k: nat, n: nat, i: int): int
  {
    if k % 2 == 1 then i else n - 2 - i
  }

  lemma RunAt(qs: seq<seq<int>>, k: nat, n: nat, i: nat)
    requires n >= 2 && k < |qs| && Sized(qs, n - 2) && i <= n - 2
    ensures |RestRun(qs, k, n)| == n - 1 && 0 <= Partner(k, n, i) <= n - 2
    ensures RestRun(qs, k, n)[i] == Embed(qs[k], n, Partner(k, n, i))
  {
    if k % 2 == 1 {
      RunAtUp(qs, k, n, i);
    } else {
      RunAtDown(qs, k, n, i);
    }
  }

  lemma RunAtUp(qs: seq<seq<int>>, k: nat, n: nat, i: nat)
    requires n >= 2 && k < |qs| && Sized(qs, n - 2) && i <= n - 2 && k % 2 == 1
    ensures |RestRun(qs, k, n)| == n - 1 && Partner(k, n, i) == i
    ensures RestRun(qs, k, n)[i] == Embed(qs[k], n, i)
  {
    var q := qs[k];
    assert RestRun(qs, k, n) == Ups(q, n, 0);
    UpsAt(q, n, 0, i);
  }

  lemma RunAtDown(qs: seq<seq<int>>, k: nat, n: nat, i: nat)
    requires n >= 2 && k < |qs| && Sized(qs, n - 2) && i <= n - 2 && k % 2 == 0
    ensures |RestRun(qs, k, n)| == n - 1 && Partner(k, n, i) == n - 2 - i
    ensures RestRun(qs, k, n)[i] == Embed(qs[k], n, n - 2 - i)
  {
    var q := qs[k];
    assert RestRun(qs, k, n) == Downs(q, n, n - 2);
    DownsAt(q, n, n - 2, i);
  }

  lemma RestSplit(qs: seq<seq<int>>, k: nat, n: nat)
    requires n >= 2 && k < |qs| && Sized(qs, n - 2)
    ensures Rest(qs, k, n) == RestRun(qs, k, n) + Rest(qs, k + 1, n) && |RestRun(qs, k, n)| == n - 1
  {
  }

  /** The first n-1 entries of Rest(qs, k, n) are the run over qs[k]. */
  lemma RestHead(qs: seq<seq<int>>, k: nat, n: nat, i: nat)
    requires n >= 2 && k < |qs| && Sized(qs, n - 2) && i < n - 1
    ensures i < |Rest(qs, k, n)| && 0 <= Partner(k, n, i) <= n - 2
    ensures Rest(qs, k, n)[i] == Embed(qs[k], n, Partner(k, n, i))
  {
    RestSplit(qs, k, n);
    RunAt(qs, k, n, i);
  }

  /** Proof step, no property of the model: the later entries of a + b are those of b. */
  lemma ConcatBack<T>(s: seq<T>, a: seq<T>, b: seq<T>, i: int, m: int)
    requires s == a + b && |a| == m <= i < |s|
    ensures 0 <= i - m < |b| && s[i] == b[i - m]
  {
  }

  /** Every entry of Rest(qs, k, n) pairs n-1 with some j over some qs[k'] with k' >= k. */
  lemma {:induction false} RestEntry(qs: seq<seq<int>>, k: nat, n: nat, i: nat) returns (k': nat, j: int)
    requires n >= 2 && k <= |qs| && Sized(qs, n - 2) && i < |Rest(qs, k, n)|
    ensures k <= k' < |qs| && 0 <= j <= n - 2 && |qs[k']| == n - 2
    ensures Rest(qs, k, n)[i] == Embed(qs[k'], n, j)
    decreases |qs| - k, 1
  {
    if i < n - 1 {
      RestHead(qs, k, n, i);
      k', j := k, Partner(k, n, i);
    } else {
      k', j := RestEntryLater(qs, k, n, i);
    }
  }

  lemma {:induction false} RestEntryLater(qs: seq<seq<int>>, k: nat, n: nat, i: nat) returns (k': nat, j: int)
    requires n >= 2 && k < |qs| && Sized(qs, n - 2) && n - 1 <= i < |Rest(qs, k, n)|
    ensures k < k' < |qs| && 0 <= j <= n - 2 && |qs[k']| == n - 2
    ensures Rest(qs, k, n)[i] == Embed(qs[k'], n, j)
    decreases |qs| - k, 0
  {
    var r, r', i' := Rest(qs, k, n), Rest(qs, k + 1, n), i - (n - 1);
    RestSplit(qs, k, n);
    ConcatBack(r, RestRun(qs, k, n), r', i, n - 1);
    k', j := RestEntry(qs, k + 1, n, i');
    Transitive(r[i], r'[i'], Embed(qs[k'], n, j));
  }

  /** Rest(qs, k, n) pairs n-1 with every j over every qs[k'] with k' >= k. */
  lemma {:induction false} RestHas(qs: seq<seq<int>>, k: nat, n: nat, k': nat, j: int)
    requires n >= 2 && k <= k' < |qs| && Sized(qs, n - 2) && 0 <= j <= n - 2
    ensures Embed(qs[k'], n, j) in Rest(qs, k, n)
    decreases k' - k
  {
    RestSplit(qs, k, n);
    if k == k' {
      var i := Partner(k, n, j);
      RunAt(qs, k, n, i);
      assert Partner(k, n, i) == j;
      assert Rest(qs, k, n)[i] == RestRun(qs, k, n)[i];
    } else {
      RestHas(qs, k + 1, n, k', j);
    }
  }

  /** Within one run the partner of n-1 differs from entry to entry. */
  lemma RunDistinct(qs: seq<seq<int>>, k: nat, n: nat)
    requires n >= 2 && k < |qs| && Sized(qs, n - 2)
    ensures Sweeps.Distinct(RestRun(qs, k, n))
  {
    var run := RestRun(qs, k, n);
    forall i, i' | 0 <= i < i' < |run| ensures run[i] != run[i'] {
      RunAt(qs, k, n, i);
      RunAt(qs, k, n, i');
      assert run[i][n - 1] != run[i'][n - 1];
    }
  }

  /** Distinct involutions qs give distinct entries of Rest. */
  lemma {:induction false} RestDistinct(qs: seq<seq<int>>, k: nat, n: nat)
    requires n >= 2 && k <= |qs| && Sized(qs, n - 2) && Sweeps.Distinct(qs)
    ensures Sweeps.Distinct(Rest(qs, k, n))
    decreases |qs| - k
  {
    if k < |qs| {
      RestDistinct(qs, k + 1, n);
      var run, rest := RestRun(qs, k, n), Rest(qs, k + 1, n);
      RestSplit(qs, k, n);
      RunDistinct(qs, k, n);
      forall i, i' | 0 <= i < |run| && 0 <= i' < |rest| ensures run[i] != rest[i'] {
        RunApart(qs, k, n, i, i');
      }
      Sweeps.DistinctConcat(run, rest);
    }
  }

  /** An entry of the run over qs[k] is not an entry of Rest(qs, k + 1, n). */
  lemma RunApart(qs: seq<seq<int>>, k: nat, n: nat, i: nat, i': nat)
    requires n >= 2 && k < |qs| && Sized(qs, n - 2) && Sweeps.Distinct(qs)
    requires i <= n - 2 && i' < |Rest(qs, k + 1, n)|
    ensures |RestRun(qs, k, n)| == n - 1 && RestRun(qs, k, n)[i] != Rest(qs, k + 1, n)[i']
  {
    RunAt(qs, k, n, i);
    var k', j := RestEntry(qs, k + 1, n, i');
    assert qs[k] != qs[k'];
    EmbedApart(qs[k], qs[k'], n, Partner(k, n, i), j);
  }

  // ---------------------------------------------------------------------
  // The pair phase
  // ---------------------------------------------------------------------

  /** Every entry of the pair phase pairs n-1 with some j over some qs[k]. */
  lemma PairPhaseEntry(qs: seq<seq<int>>, n: nat, i: nat) returns (k: nat, j: int)
    requires n >= 2 && |qs| >= 1 && Sized(qs, n - 2) && i < |PairPhase(qs, n)|
    ensures k < |qs| && 0 <= j <= n - 2 && PairPhase(qs, n)[i] == Embed(qs[k], n, j)
  {
    var d, r := Downs(qs[0], n, n - 3), Rest(qs, 1, n);
    assert PairPhase(qs, n) == d + r + [Embed(qs[0], n, n - 2)];
    if i < |d| {
      DownsAt(qs[0], n, n - 3, i);
      k, j := 0, n - 3 - i;
    } else if i < |d| + |r| {
      k, j := RestEntry(qs, 1, n, i - |d|);
    } else {
      k, j := 0, n - 2;
    }
  }

  /** The pair phase pairs n-1 with every j over every qs[k]. */
  lemma PairPhaseHas(qs: seq<seq<int>>, n: nat, k: nat, j: int)
    requires n >= 2 && k < |qs| && Sized(qs, n - 2) && 0 <= j <= n - 2
    ensures Embed(qs[k], n, j) in PairPhase(qs, n)
  {
    var d, r := Downs(qs[0], n, n - 3), Rest(qs, 1, n);
    assert PairPhase(qs, n) == d + r + [Embed(qs[0], n, n - 2)];
    if k == 0 && j < n - 2 {
      DownsAt(qs[0], n, n - 3, n - 3 - j);
      assert d[n - 3 - j] == Embed(qs[k], n, j);
    } else if k > 0 {
      RestHas(qs, 1, n, k, j);
    }
  }

  /** Distinct involutions qs give a pair phase without repeats. */
  lemma PairPhaseDistinct(qs: seq<seq<int>>, n: nat)
    requires n >= 2 && |qs| >= 1 && Sized(qs, n - 2) && Sweeps.Distinct(qs)
    ensures Sweeps.Distinct(PairPhase(qs, n))
  {
    var d, r, l := Downs(qs[0], n, n - 3), Rest(qs, 1, n), [Embed(qs[0], n, n - 2)];
    DownsDistinct(qs[0], n, d);
    RestDistinct(qs, 1, n);
    forall i, i' | 0 <= i < |d| && 0 <= i' < |r| ensures d[i] != r[i'] {
      DownsRestApart(qs, n, d, r, i, i');
    }
    Sweeps.DistinctConcat(d, r);
    forall i | 0 <= i < |d + r| ensures (d + r)[i] != l[0] {
      if i < |d| {
        DownsLastApart(qs, n, d, r, l, i);
      } else {
        RestLastApart(qs, n, d, r, l, i);
      }
    }
    Sweeps.DistinctConcat(d + r, l);
  }

  /** The down run of the pair phase moves the partner of n-1, so its entries differ at n-1. */
  lemma DownsDistinct(q: seq<int>, n: nat, d: seq<seq<int>>)
    requires n >= 2 && |q| == n - 2 && d == Downs(q, n, n - 3)
    ensures Sweeps.Distinct(d)
  {
    forall i, i' | 0 <= i < i' < |d| ensures d[i] != d[i'] {
      DownsAt(q, n, n - 3, i);
      DownsAt(q, n, n - 3, i');
      assert d[i][n - 1] != d[i'][n - 1];
    }
  }

  lemma DownsRestApart(qs: seq<seq<int>>, n: nat, d: seq<seq<int>>, r: seq<seq<int>>, i: int, i': int)
    requires n >= 2 && |qs| >= 1 && Sized(qs, n - 2) && Sweeps.Distinct(qs)
    requires d == Downs(qs[0], n, n - 3) && r == Rest(qs, 1, n) && 0 <= i < |d| && 0 <= i' < |r|
    ensures d[i] != r[i']
  {
    var q, j0 := qs[0], n - 3 - i;
    DownsAt(q, n, n - 3, i);
    var k', j := RestEntry(qs, 1, n, i');
    assert q != qs[k'];
    EmbedApart(q, qs[k'], n, j0, j);
    Sweeps.Unequal(d[i], Embed(q, n, j0), r[i'], Embed(qs[k'], n, j));
  }

  lemma DownsLastApart(qs: seq<seq<int>>, n: nat, d: seq<seq<int>>, r: seq<seq<int>>, l: seq<seq<int>>, i: int)
    requires n >= 2 && |qs| >= 1 && Sized(qs, n - 2)
    requires d == Downs(qs[0], n, n - 3) && l == [Embed(qs[0], n, n - 2)] && 0 <= i < |d|
    ensures (d + r)[i] != l[0]
  {
    DownsAt(qs[0], n, n - 3, i);
    assert (d + r)[i] == d[i] && d[i][n - 1] != l[0][n - 1];
  }

  lemma RestLastApart(qs: seq<seq<int>>, n: nat, d: seq<seq<int>>, r: seq<seq<int>>, l: seq<seq<int>>, i: int)
    requires n >= 2 && |qs| >= 1 && Sized(qs, n - 2) && Sweeps.Distinct(qs)
    requires r == Rest(qs, 1, n) && l == [Embed(qs[0], n, n - 2)] && |d| <= i < |d + r|
    ensures (d + r)[i] != l[0]
  {
    var s := d + r;
    ConcatBack(s, d, r, i, |d|);
    var k', j := RestEntry(qs, 1, n, i - |d|);
    assert qs[0] != qs[k'];
    EmbedApart(qs[0], qs[k'], n, n - 2, j);
    Sweeps.Unequal(l[0], Embed(qs[0], n, n - 2), s[i], Embed(qs[k'], n, j));
  }

  // ---------------------------------------------------------------------
  // The whole order
  // ---------------------------------------------------------------------

  /** No involution is listed twice (the `len(invs) == count` check). */
  lemma {:induction false} InvolutionOrderDistinct(n: nat)
    ensures Sweeps.Distinct(InvolutionOrder(n))
    decreases n, 1
  {
    if n >= 2 {
      InvolutionOrderDistinctNext(n);
    }
  }

  lemma {:induction false} InvolutionOrderDistinctNext(n: nat)
    requires n >= 2
    ensures Sweeps.Distinct(InvolutionOrder(n))
    decreases n, 0
  {
    InvolutionOrderDistinct(n - 1);
    InvolutionOrderDistinct(n - 2);
    DistinctJoin(n);
  }

  /** The two phases for n are free of repeats, and apart, when the orders for n-1 and n-2 are. */
  lemma DistinctJoin(n: nat)
    requires n >= 2 && Sweeps.Distinct(InvolutionOrder(n - 1)) && Sweeps.Distinct(InvolutionOrder(n - 2))
    ensures Sweeps.Distinct(InvolutionOrder(n))
  {
    var qs1, qs2 := InvolutionOrder(n - 1), InvolutionOrder(n - 2);
    var a, b := Lift(qs1, n - 1), PairPhase(qs2, n);
    LiftDistinct(qs1, n - 1, a);
    PairPhaseDistinct(qs2, n);
    LiftApart(qs1, qs2, n, a, b);
    Sweeps.DistinctConcat(a, b);
    InvolutionOrderUnfold(n);
  }

  /** Appending the fixed point m keeps distinct states distinct. */
  lemma LiftDistinct(ss: seq<seq<int>>, m: nat, a: seq<seq<int>>)
    requires Sized(ss, m) && Sweeps.Distinct(ss) && a == Lift(ss, m)
    ensures Sweeps.Distinct(a)
  {
    forall i, i' | 0 <= i < i' < |a| ensures a[i] != a[i'] {
      assert a[i][..m] == ss[i] && a[i'][..m] == ss[i'];
    }
  }

  /** A state with n-1 fixed is never one that pairs n-1 with some j. */
  lemma LiftApart(qs1: seq<seq<int>>, qs2: seq<seq<int>>, n: nat, a: seq<seq<int>>, b: seq<seq<int>>)
    requires n >= 2 && |qs2| >= 1 && Sized(qs1, n - 1) && Sized(qs2, n - 2)
    requires a == Lift(qs1, n - 1) && b == PairPhase(qs2, n)
    ensures forall i, i' :: 0 <= i < |a| && 0 <= i' < |b| ==> a[i] != b[i']
  {
    forall i, i' | 0 <= i < |a| && 0 <= i' < |b| ensures a[i] != b[i'] {
      var k, j := PairPhaseEntry(qs2, n, i');
      assert a[i][n - 1] == n - 1;
    }
  }

  /** Every involution on n items is listed (the docstring's "Generate involutions on n items"). */
  lemma {:induction false} InvolutionOrderReaches(n: nat, t: seq<int>)
    requires |t| == n && IsInvolution(t)
    ensures t in InvolutionOrder(n)
    decreases n, 1
  {
    if n <= 1 {
      assert t == Identity(n);
    } else if t[n - 1] == n - 1 {
      ReachesFixed(n, t);
    } else {
      ReachesPaired(n, t);
    }
  }

  /** An involution fixing n-1 is reached in the first phase, from its restriction. */
  lemma {:induction false} ReachesFixed(n: nat, t: seq<int>)
    requires n >= 2 && |t| == n && IsInvolution(t) && t[n - 1] == n - 1
    ensures t in InvolutionOrder(n)
    decreases n, 0
  {
    var s := t[..n - 1];
    Restrict(t, n);
    InvolutionOrderReaches(n - 1, s);
    LiftIn(n, s, t);
  }

  lemma LiftIn(n: nat, s: seq<int>, t: seq<int>)
    requires n >= 2 && s in InvolutionOrder(n - 1) && t == s + [n - 1]
    ensures t in InvolutionOrder(n)
  {
    var qs := InvolutionOrder(n - 1);
    var a, b := Lift(qs, n - 1), PairPhase(InvolutionOrder(n - 2), n);
    var k :| 0 <= k < |qs| && qs[k] == s;
    assert a[k] == t;
    InLeft(a, b, t);
    InvolutionOrderUnfold(n);
  }

  /** An involution pairing n-1 with j is reached in the pair phase, from the involution on the other items. */
  lemma {:induction false} ReachesPaired(n: nat, t: seq<int>)
    requires n >= 2 && |t| == n && IsInvolution(t) && t[n - 1] != n - 1
    ensures t in InvolutionOrder(n)
    decreases n, 0
  {
    var j := t[n - 1];
    var q := Unembed(t, j);
    UnembedEmbed(t, n, j);
    InvolutionOrderReaches(n - 2, q);
    PairIn(n, q, j, t);
  }

  lemma PairIn(n: nat, q: seq<int>, j: int, t: seq<int>)
    requires n >= 2 && 0 <= j <= n - 2 && q in InvolutionOrder(n - 2) && t == Embed(q, n, j)
    ensures t in InvolutionOrder(n)
  {
    var qs := InvolutionOrder(n - 2);
    var a, b := Lift(InvolutionOrder(n - 1), n - 1), PairPhase(qs, n);
    var k :| 0 <= k < |qs| && qs[k] == q;
    PairPhaseHas(qs, n, k, j);
    InRight(a, b, t);
    InvolutionOrderUnfold(n);
  }

  // Proof steps, no properties of the model: membership in either part of a concatenation.

  lemma InLeft<T>(a: seq<T>, b: seq<T>, x: T)
    requires x in a
    ensures x in a + b
  {
  }

  lemma InRight<T>(a: seq<T>, b: seq<T>, x: T)
    requires x in b
    ensures x in a + b
  {
  }

  /** The order lists exactly the involutions on n items. */
  lemma InvolutionOrderComplete(n: nat, t: seq<int>)
    ensures t in InvolutionOrder(n) <==> |t| == n && IsInvolution(t)
  {
    if t in InvolutionOrder(n) {
      var k :| 0 <= k < |InvolutionOrder(n)| && InvolutionOrder(n)[k] == t;
      InvolutionOrderInvolutions(n, k);
    }
    if |t| == n && IsInvolution(t) {
      InvolutionOrderReaches(n, t);
    }
  }

  /**
   * `Involutions(n)`: the objects yielded, in order.  The array starts as the
   * identity and is edited in place by each change of InvolutionChanges(n).
   */
  method Involutions(n: nat) returns (perms: seq<seq<int>>)
    ensures perms == InvolutionOrder(n)
  {
    InvolutionTrace(n);
    perms := EditLoop(n, InvolutionChanges(n));
  }
}
