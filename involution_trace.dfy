/**
 * What `Involutions(n)` yields (Permutations.py:120-174).  The changes of
 * InvolutionChanges(n-1) run through the involutions in which n-1 is fixed;
 * the rest pair n-1 with an item j and move j back and forth over 0..n-2,
 * changing the involution on the other n-2 items, in the order for n-2, each
 * time j reaches an end.  InvolutionOrder states this order directly; the
 * states are then the involutions on n items, each exactly once, T(n) of them.
 */
module InvolutionTraces {
  import opened Changes
  import opened InvolutionEdits

  /** The position of item x among the items other than j. */
  function RelabelDown(x: int, j: int): int
  {
    if x < j then x else x - 1
  }

  /** The item at position i among the items other than j. */
  function RelabelUp(i: int, j: int): int
  {
    if i < j then i else i + 1
  }

  /** Where `Embed(q, n, j)` sends x. */
  function EmbedEntry(q: seq<int>, n: nat, j: int, x: int): int
    requires n >= 2 && |q| == n - 2 && 0 <= j <= n - 2 && 0 <= x < n
  {
    if x == n - 1 then j else if x == j then n - 1 else RelabelUp(q[RelabelDown(x, j)], j)
  }

  lemma EmbedEntryInvolution(q: seq<int>, n: nat, j: int)
    requires n >= 2 && |q| == n - 2 && 0 <= j <= n - 2
    ensures IsInvolution(q) ==>
      forall x :: 0 <= x < n ==> 0 <= EmbedEntry(q, n, j, x) < n && EmbedEntry(q, n, j, EmbedEntry(q, n, j, x)) == x
  {
    if IsInvolution(q) {
      forall x | 0 <= x < n ensures 0 <= EmbedEntry(q, n, j, x) < n && EmbedEntry(q, n, j, EmbedEntry(q, n, j, x)) == x {
        if x != n - 1 && x != j {
          var i := RelabelDown(x, j);
          assert RelabelDown(RelabelUp(q[i], j), j) == q[i];
        }
      }
    }
  }

  /**
   * The arrangement of n items that pairs n-1 with j and acts on the other
   * items 0..n-2 (j left out, relabelled in order as 0..n-3) as q does; it is
   * an involution when q is one.
   */
  function Embed(q: seq<int>, n: nat, j: int): (r: seq<int>)
    requires n >= 2 && |q| == n - 2 && 0 <= j <= n - 2
    ensures |r| == n && r[n - 1] == j && r[j] == n - 1
    ensures IsInvolution(q) ==> IsInvolution(r)
  {
    EmbedEntryInvolution(q, n, j);
    seq(n, x requires 0 <= x < n => EmbedEntry(q, n, j, x))
  }

  /** The states of `ss`, each with m appended as a fixed point. */
  function Lift(ss: seq<seq<int>>, m: int): (r: seq<seq<int>>)
    ensures |r| == |ss| && forall i :: 0 <= i < |ss| ==> r[i] == ss[i] + [m]
    decreases |ss|
  {
    if ss == [] then [] else [ss[0] + [m]] + Lift(ss[1..], m)
  }

  /** Every state has m items. */
  ghost predicate Sized(ss: seq<seq<int>>, m: nat)
  {
    forall k :: 0 <= k < |ss| ==> |ss[k]| == m
  }

  /** Every state is an involution on m items. */
  ghost predicate AllInvolutions(ss: seq<seq<int>>, m: nat)
  {
    forall k :: 0 <= k < |ss| ==> |ss[k]| == m && IsInvolution(ss[k])
  }

  /** n-1 paired with j, j-1, ..., 0 in turn. */
  function Downs(q: seq<int>, n: nat, j: int): (r: seq<seq<int>>)
    requires n >= 2 && |q| == n - 2 && -1 <= j <= n - 2
    ensures |r| == j + 1 && Sized(r, n)
    decreases j + 1
  {
    if j < 0 then [] else SizedConcat([Embed(q, n, j)], Downs(q, n, j - 1), n); [Embed(q, n, j)] + Downs(q, n, j - 1)
  }

  /** n-1 paired with j, j+1, ..., n-2 in turn. */
  function Ups(q: seq<int>, n: nat, j: int): (r: seq<seq<int>>)
    requires n >= 2 && |q| == n - 2 && 0 <= j <= n - 1
    ensures |r| == n - 1 - j && Sized(r, n)
    decreases n - 1 - j
  {
    if j > n - 2 then [] else SizedConcat([Embed(q, n, j)], Ups(q, n, j + 1), n); [Embed(q, n, j)] + Ups(q, n, j + 1)
  }

  /** For qs[k], qs[k+1], ...: j runs up over 0..n-2 at odd k and down at even k. */
  function Rest(qs: seq<seq<int>>, k: nat, n: nat): (r: seq<seq<int>>)
    requires n >= 2 && k <= |qs| && Sized(qs, n - 2)
    ensures Sized(r, n)
    decreases |qs| - k
  {
    if k == |qs| then []
    else
      var run := if k % 2 == 1 then Ups(qs[k], n, 0) else Downs(qs[k], n, n - 2);
      SizedConcat(run, Rest(qs, k + 1, n), n);
      run + Rest(qs, k + 1, n)
  }

  /**
   * The states in which n-1 is paired: for the first involution qs[0] on the
   * other items, j runs down from n-3 to 0; then each later qs[k] has a full
   * run of j; the last state pairs n-1 with n-2 over qs[0] again.
   */
  function PairPhase(qs: seq<seq<int>>, n: nat): (r: seq<seq<int>>)
    requires n >= 2 && |qs| >= 1 && Sized(qs, n - 2)
    ensures Sized(r, n)
  {
    SizedConcat(Downs(qs[0], n, n - 3), Rest(qs, 1, n), n);
    SizedConcat(Downs(qs[0], n, n - 3) + Rest(qs, 1, n), [Embed(qs[0], n, n - 2)], n);
    Downs(qs[0], n, n - 3) + Rest(qs, 1, n) + [Embed(qs[0], n, n - 2)]
  }

  /**
   * The reference order of the involutions on n items: those that fix n-1, in
   * the order for n-1, then those that pair n-1, over the order for n-2.
   */
  function InvolutionOrder(n: nat): (r: seq<seq<int>>)
    ensures |r| >= 1 && Sized(r, n)
  {
    if n <= 1 then [Identity(n)]
    else
      assert Sized(Lift(InvolutionOrder(n - 1), n - 1), n);
      SizedConcat(Lift(InvolutionOrder(n - 1), n - 1), PairPhase(InvolutionOrder(n - 2), n), n);
      Lift(InvolutionOrder(n - 1), n - 1) + PairPhase(InvolutionOrder(n - 2), n)
  }

  lemma SizedConcat(a: seq<seq<int>>, b: seq<seq<int>>, m: nat)
    requires Sized(a, m) && Sized(b, m)
    ensures Sized(a + b, m)
  {
    forall k | 0 <= k < |a + b| ensures |(a + b)[k]| == m {
      if k < |a| {
        assert (a + b)[k] == a[k];
      } else {
        assert (a + b)[k] == b[k - |a|];
      }
    }
  }

  /** Appending a fixed point m to involutions on m items gives involutions on m+1 items. */
  lemma LiftInvolutions(ss: seq<seq<int>>, m: nat)
    requires AllInvolutions(ss, m)
    ensures AllInvolutions(Lift(ss, m), m + 1)
  {
    forall k | 0 <= k < |ss| ensures |Lift(ss, m)[k]| == m + 1 && IsInvolution(Lift(ss, m)[k]) {
      var p := ss[k];
      assert Lift(ss, m)[k] == p + [m];
      forall i | 0 <= i < m + 1 ensures 0 <= (p + [m])[i] < m + 1 && (p + [m])[(p + [m])[i]] == i {
        if i < m {
          assert (p + [m])[i] == p[i];
        }
      }
    }
  }

  // ---------------------------------------------------------------------
  // One edit on an embedded involution
  // ---------------------------------------------------------------------

  /** Moving the partner j of n-1 across c is a conjugation by the transposition of c and c+1. */
  lemma EmbedMove(q: seq<int>, n: nat, j: int, c: int)
    requires n >= 2 && |q| == n - 2 && IsInvolution(q) && 0 <= c && c + 1 <= n - 2 && (j == c || j == c + 1)
    ensures Edit(Embed(q, n, j), c) == Embed(q, n, Tau(j, c))
  {
    var e := Embed(q, n, j);
    var k := Tau(j, c);
    assert !Toggles(e, c) by {
      if j == c + 1 {
        assert e[c] == RelabelUp(q[c], j);
      }
    }
    EditInvolution(e, c);
    var r, f := Conj(e, c), Embed(q, n, k);
    forall x | 0 <= x < n ensures r[x] == f[x] {
      assert r[x] == Tau(e[Tau(x, c)], c);
      if x != n - 1 && x != k {
        MoveEntry(q, n, j, c, x);
      }
    }
  }

  lemma MoveEntry(q: seq<int>, n: nat, j: int, c: int, x: int)
    requires n >= 2 && |q| == n - 2 && IsInvolution(q) && 0 <= c && c + 1 <= n - 2 && (j == c || j == c + 1)
    requires 0 <= x < n && x != n - 1 && x != Tau(j, c)
    ensures Tau(EmbedEntry(q, n, j, Tau(x, c)), c) == EmbedEntry(q, n, Tau(j, c), x)
  {
    assert RelabelDown(Tau(x, c), j) == RelabelDown(x, Tau(j, c));
  }

  /** The partner of n-1 moves down by one: the change j-1. */
  lemma MoveDown(q: seq<int>, n: nat, j: int)
    requires n >= 2 && |q| == n - 2 && IsInvolution(q) && 1 <= j <= n - 2
    ensures Edit(Embed(q, n, j), j - 1) == Embed(q, n, j - 1)
  {
    EmbedMove(q, n, j, j - 1);
  }

  /** The partner of n-1 moves up by one: the change j. */
  lemma MoveDownAt(q: seq<int>, n: nat, j: int, e: seq<int>, e': seq<int>)
    requires n >= 2 && |q| == n - 2 && IsInvolution(q) && 0 <= j <= n - 3
    requires e == Embed(q, n, j + 1) && e' == Embed(q, n, j)
    ensures Edit(e, j) == e'
  {
    MoveDown(q, n, j + 1);
  }

  lemma MoveUp(q: seq<int>, n: nat, j: int)
    requires n >= 2 && |q| == n - 2 && IsInvolution(q) && 0 <= j <= n - 3
    ensures Edit(Embed(q, n, j), j) == Embed(q, n, j + 1)
  {
    EmbedMove(q, n, j, j);
  }

  /**
   * A change c away from the partner j of n-1 edits the involution on the
   * other items at the relabelled position RelabelDown(c, j).
   */
  lemma EmbedInner(q: seq<int>, n: nat, j: int, c: int)
    requires n >= 2 && |q| == n - 2 && IsInvolution(q) && 0 <= j <= n - 2
    requires 0 <= c && c + 1 <= n - 2 && c != j && c + 1 != j
    ensures 0 <= RelabelDown(c, j) && RelabelDown(c, j) + 1 < n - 2
    ensures IsInvolution(Edit(q, RelabelDown(c, j)))
    ensures Edit(Embed(q, n, j), c) == Embed(Edit(q, RelabelDown(c, j)), n, j)
  {
    var d := RelabelDown(c, j);
    var e := Embed(q, n, j);
    EditInvolution(q, d);
    assert e[c] == RelabelUp(q[d], j) && e[c + 1] == RelabelUp(q[d + 1], j);
    if Toggles(q, d) {
      InnerToggle(q, n, j, c);
    } else {
      InnerConj(q, n, j, c);
    }
  }

  /** EmbedInner with the changed position of q named. */
  lemma EmbedInnerAt(q: seq<int>, n: nat, j: int, c: int, d: int)
    requires n >= 2 && |q| == n - 2 && IsInvolution(q) && 0 <= j <= n - 2
    requires 0 <= c && c + 1 <= n - 2 && c != j && c + 1 != j && d == RelabelDown(c, j)
    ensures 0 <= d && d + 1 < n - 2 && IsInvolution(Edit(q, d))
    ensures Edit(Embed(q, n, j), c) == Embed(Edit(q, d), n, j)
  {
    EmbedInner(q, n, j, c);
  }

  lemma InnerToggle(q: seq<int>, n: nat, j: int, c: int)
    requires n >= 2 && |q| == n - 2 && IsInvolution(q) && 0 <= j <= n - 2
    requires 0 <= c && c + 1 <= n - 2 && c != j && c + 1 != j
    requires 0 <= RelabelDown(c, j) && RelabelDown(c, j) + 1 < n - 2 && Toggles(q, RelabelDown(c, j))
    ensures IsInvolution(Edit(q, RelabelDown(c, j)))
    ensures Edit(Embed(q, n, j), c) == Embed(Edit(q, RelabelDown(c, j)), n, j)
  {
    var d := RelabelDown(c, j);
    var e := Embed(q, n, j);
    EditInvolution(q, d);
    EditInvolution(e, c);
    assert e[c] == RelabelUp(q[d], j) && e[c + 1] == RelabelUp(q[d + 1], j);
    var r, f, h := Edit(e, c), Embed(Edit(q, d), n, j), Edit(q, d);
    forall x | 0 <= x < n ensures r[x] == f[x] {
      if x != n - 1 && x != j {
        assert f[x] == RelabelUp(h[RelabelDown(x, j)], j);
        ToggleEntry(q, n, j, c, x);
      }
    }
  }

  lemma ToggleEntry(q: seq<int>, n: nat, j: int, c: int, x: int)
    requires n >= 2 && |q| == n - 2 && IsInvolution(q) && 0 <= j <= n - 2
    requires 0 <= c && c + 1 <= n - 2 && c != j && c + 1 != j
    requires 0 <= RelabelDown(c, j) && RelabelDown(c, j) + 1 < n - 2 && Toggles(q, RelabelDown(c, j))
    requires 0 <= x < n && x != n - 1 && x != j
    ensures IsInvolution(Edit(q, RelabelDown(c, j))) && IsInvolution(Embed(q, n, j))
    ensures Edit(Embed(q, n, j), c)[x] == RelabelUp(Edit(q, RelabelDown(c, j))[RelabelDown(x, j)], j)
  {
    if q[RelabelDown(c, j)] == RelabelDown(c, j) + 1 {
      TogglePaired(q, n, j, c, x);
    } else {
      ToggleFixed(q, n, j, c, x);
    }
  }

  /** c and c+1 are fixed points: the edit pairs them. */
  lemma ToggleFixed(q: seq<int>, n: nat, j: int, c: int, x: int)
    requires n >= 2 && |q| == n - 2 && IsInvolution(q) && 0 <= j <= n - 2
    requires 0 <= c && c + 1 <= n - 2 && c != j && c + 1 != j
    requires 0 <= RelabelDown(c, j) && RelabelDown(c, j) + 1 < n - 2 && Toggles(q, RelabelDown(c, j))
    requires 0 <= x < n && x != n - 1 && x != j
    requires q[RelabelDown(c, j)] != RelabelDown(c, j) + 1
    ensures IsInvolution(Edit(q, RelabelDown(c, j))) && IsInvolution(Embed(q, n, j))
    ensures Edit(Embed(q, n, j), c)[x] == RelabelUp(Edit(q, RelabelDown(c, j))[RelabelDown(x, j)], j)
  {
    var d := RelabelDown(c, j);
    var e := Embed(q, n, j);
    EditInvolution(q, d);
    assert e[c] == RelabelUp(q[d], j) && e[c + 1] == RelabelUp(q[d + 1], j);
    EditInvolution(e, c);
    assert e[x] == RelabelUp(q[RelabelDown(x, j)], j);
  }

  /** c and c+1 are partners: the edit fixes them. */
  lemma TogglePaired(q: seq<int>, n: nat, j: int, c: int, x: int)
    requires n >= 2 && |q| == n - 2 && IsInvolution(q) && 0 <= j <= n - 2
    requires 0 <= c && c + 1 <= n - 2 && c != j && c + 1 != j
    requires 0 <= RelabelDown(c, j) && RelabelDown(c, j) + 1 < n - 2 && Toggles(q, RelabelDown(c, j))
    requires 0 <= x < n && x != n - 1 && x != j
    requires q[RelabelDown(c, j)] == RelabelDown(c, j) + 1
    ensures IsInvolution(Edit(q, RelabelDown(c, j))) && IsInvolution(Embed(q, n, j))
    ensures Edit(Embed(q, n, j), c)[x] == RelabelUp(Edit(q, RelabelDown(c, j))[RelabelDown(x, j)], j)
  {
    var d := RelabelDown(c, j);
    var e := Embed(q, n, j);
    EditInvolution(q, d);
    assert e[c] == RelabelUp(q[d], j) && e[c + 1] == RelabelUp(q[d + 1], j);
    EditInvolution(e, c);
    assert e[x] == RelabelUp(q[RelabelDown(x, j)], j);
  }

  lemma InnerConj(q: seq<int>, n: nat, j: int, c: int)
    requires n >= 2 && |q| == n - 2 && IsInvolution(q) && 0 <= j <= n - 2
    requires 0 <= c && c + 1 <= n - 2 && c != j && c + 1 != j
    requires 0 <= RelabelDown(c, j) && RelabelDown(c, j) + 1 < n - 2 && !Toggles(q, RelabelDown(c, j))
    ensures IsInvolution(Edit(q, RelabelDown(c, j)))
    ensures Edit(Embed(q, n, j), c) == Embed(Edit(q, RelabelDown(c, j)), n, j)
  {
    var d, e := RelabelDown(c, j), Embed(q, n, j);
    ConjSetup(q, n, j, c);
    var r, f := Conj(e, c), Embed(Conj(q, d), n, j);
    forall x | 0 <= x < n ensures r[x] == f[x] {
      ConjEntry(q, n, j, c, x);
    }
    assert r == f;
  }

  /** Away from c and c+1 the edit of the embedding is a conjugation, and so is the edit of q. */
  lemma ConjSetup(q: seq<int>, n: nat, j: int, c: int)
    requires n >= 2 && |q| == n - 2 && IsInvolution(q) && 0 <= j <= n - 2
    requires 0 <= c && c + 1 <= n - 2 && c != j && c + 1 != j
    requires 0 <= RelabelDown(c, j) && RelabelDown(c, j) + 1 < n - 2 && !Toggles(q, RelabelDown(c, j))
    ensures IsInvolution(Edit(q, RelabelDown(c, j))) && Edit(q, RelabelDown(c, j)) == Conj(q, RelabelDown(c, j))
    ensures IsInvolution(Embed(q, n, j)) && Edit(Embed(q, n, j), c) == Conj(Embed(q, n, j), c)
  {
    var d, e := RelabelDown(c, j), Embed(q, n, j);
    EditInvolution(q, d);
    assert e[c] == RelabelUp(q[d], j) && e[c + 1] == RelabelUp(q[d + 1], j);
    EditInvolution(e, c);
  }

  /** Conjugation commutes with the embedding, entry by entry. */
  lemma ConjEntry(q: seq<int>, n: nat, j: int, c: int, x: int)
    requires n >= 2 && |q| == n - 2 && IsInvolution(q) && 0 <= j <= n - 2
    requires 0 <= c && c + 1 <= n - 2 && c != j && c + 1 != j
    requires 0 <= RelabelDown(c, j) && RelabelDown(c, j) + 1 < n - 2
    requires 0 <= x < n
    ensures Conj(Embed(q, n, j), c)[x] == Embed(Conj(q, RelabelDown(c, j)), n, j)[x]
  {
    var d, e := RelabelDown(c, j), Embed(q, n, j);
    var r, f, g := Conj(e, c), Embed(Conj(q, d), n, j), Conj(q, d);
    assert r[x] == Tau(e[Tau(x, c)], c);
    if x != n - 1 && x != j {
      var i := RelabelDown(x, j);
      assert f[x] == RelabelUp(g[i], j);
      assert g[i] == Tau(q[Tau(i, d)], d);
      InnerEntry(q, n, j, c, x);
    }
  }

  lemma InnerEntry(q: seq<int>, n: nat, j: int, c: int, x: int)
    requires n >= 2 && |q| == n - 2 && IsInvolution(q) && 0 <= j <= n - 2
    requires 0 <= c && c + 1 <= n - 2 && c != j && c + 1 != j
    requires 0 <= x < n && x != n - 1 && x != j
    ensures 0 <= RelabelDown(c, j) && RelabelDown(c, j) + 1 < n - 2
    ensures Tau(EmbedEntry(q, n, j, Tau(x, c)), c) == RelabelUp(Tau(q[Tau(RelabelDown(x, j), RelabelDown(c, j))], RelabelDown(c, j)), j)
  {
    var d, i := RelabelDown(c, j), RelabelDown(x, j);
    assert RelabelDown(Tau(x, c), j) == Tau(i, d);
    var v := q[Tau(i, d)];
    assert Tau(RelabelUp(v, j), c) == RelabelUp(Tau(v, d), j);
  }

  // ---------------------------------------------------------------------
  // Runs of changes
  // ---------------------------------------------------------------------

  /** One change followed by more: the first step, then the rest from it. */
  lemma EditStepsCons(p: seq<int>, c: int, cs: seq<int>)
    requires IsInvolution(p) && Fits([c] + cs, |p|)
    ensures 0 <= c && c + 1 < |p| && IsInvolution(Edit(p, c)) && Fits(cs, |p|)
    ensures EditSteps(p, [c] + cs) == [Edit(p, c)] + EditSteps(Edit(p, c), cs)
    ensures EditAll(p, [c] + cs) == EditAll(Edit(p, c), cs)
  {
    assert ([c] + cs)[0] == c && ([c] + cs)[1..] == cs;
    FitsSplit([c], cs, |p|);
    EditInvolution(p, c);
  }

  /** Appending the fixed point m = |p| commutes with an edit. */
  lemma EditLift(p: seq<int>, c: int)
    requires 0 <= c && c + 1 < |p| && IsInvolution(p)
    ensures IsInvolution(p + [|p|])
    ensures Edit(p + [|p|], c) == Edit(p, c) + [|p|]
  {
    LiftInvolutions([p], |p|);
    assert Lift([p], |p|)[0] == p + [|p|];
    var m := |p|;
    var t := p + [m];
    assert t[c] == p[c] && t[c + 1] == p[c + 1];
    if p[c] == c {
      if p[c + 1] == c + 1 {
        UpdateAppend(p, c, c + 1, m);
        UpdateAppend(p[c := c + 1], c + 1, c, m);
      } else {
        var i := p[c + 1];
        UpdateAppend(p, c, i, m);
        UpdateAppend(p[c := i], c + 1, c + 1, m);
        UpdateAppend(p[c := i][c + 1 := c + 1], i, c, m);
      }
    } else if p[c + 1] == c + 1 {
      var i := p[c];
      UpdateAppend(p, c, c, m);
      UpdateAppend(p[c := c], c + 1, i, m);
      UpdateAppend(p[c := c][c + 1 := i], i, c + 1, m);
    } else if p[c] == c + 1 {
      UpdateAppend(p, c, c, m);
      UpdateAppend(p[c := c], c + 1, c + 1, m);
    } else {
      var x, y := p[c], p[c + 1];
      UpdateAppend(p, x, c + 1, m);
      UpdateAppend(p[x := c + 1], y, c, m);
      UpdateAppend(p[x := c + 1][y := c], c, y, m);
      UpdateAppend(p[x := c + 1][y := c][c := y], c + 1, x, m);
    }
  }

  lemma UpdateAppend(p: seq<int>, i: int, v: int, m: int)
    requires 0 <= i < |p|
    ensures (p + [m])[i := v] == p[i := v] + [m]
  {
  }

  /** Changes that fit p leave an appended fixed point alone. */
  lemma {:induction false} LiftSteps(p: seq<int>, cs: seq<int>)
    requires IsInvolution(p) && Fits(cs, |p|)
    ensures IsInvolution(p + [|p|]) && Fits(cs, |p| + 1)
    ensures EditSteps(p + [|p|], cs) == Lift(EditSteps(p, cs), |p|)
    ensures EditAll(p + [|p|], cs) == EditAll(p, cs) + [|p|]
    decreases |cs|
  {
    LiftInvolutions([p], |p|);
    assert Lift([p], |p|)[0] == p + [|p|];
    if cs != [] {
      var m := |p|;
      var c := cs[0];
      assert cs == [c] + cs[1..];
      EditStepsCons(p, c, cs[1..]);
      EditLift(p, c);
      LiftSteps(Edit(p, c), cs[1..]);
      EditStepsCons(p + [m], c, cs[1..]);
    }
  }

  /** The last object of a trace is the object after all the changes. */
  lemma {:induction false} EditTraceLast(p: seq<int>, cs: seq<int>)
    requires IsInvolution(p) && Fits(cs, |p|)
    ensures EditTrace(p, cs)[|cs|] == EditAll(p, cs)
    decreases |cs|
  {
    if cs != [] {
      assert cs == [cs[0]] + cs[1..];
      EditStepsCons(p, cs[0], cs[1..]);
      EditTraceLast(Edit(p, cs[0]), cs[1..]);
    }
  }

  /** The changes j, j+1, ..., n-3 carry the partner of n-1 from j up to n-2. */
  lemma {:induction false} UpsSteps(q: seq<int>, n: nat, j: int)
    requires n >= 2 && |q| == n - 2 && IsInvolution(q) && 0 <= j <= n - 2
    ensures Fits(CountUp(j, n - 2), n)
    ensures EditSteps(Embed(q, n, j), CountUp(j, n - 2)) == Ups(q, n, j + 1)
    ensures EditAll(Embed(q, n, j), CountUp(j, n - 2)) == Embed(q, n, n - 2)
    decreases n - j, 1
  {
    if j < n - 2 {
      UpsStepsNext(q, n, j);
    } else {
      assert CountUp(j, n - 2) == [];
    }
  }

  lemma {:induction false} UpsStepsNext(q: seq<int>, n: nat, j: int)
    requires n >= 2 && |q| == n - 2 && IsInvolution(q) && 0 <= j < n - 2
    ensures Fits(CountUp(j, n - 2), n)
    ensures EditSteps(Embed(q, n, j), CountUp(j, n - 2)) == Ups(q, n, j + 1)
    ensures EditAll(Embed(q, n, j), CountUp(j, n - 2)) == Embed(q, n, n - 2)
    decreases n - j, 0
  {
    var j' := j + 1;
    var rest, e, e' := CountUp(j', n - 2), Embed(q, n, j), Embed(q, n, j');
    assert CountUp(j, n - 2) == [j] + rest && Fits([j] + rest, n);
    UpsSteps(q, n, j');
    MoveUp(q, n, j);
    EditStepsCons(e, j, rest);
    UpsUnfold(q, n, j');
  }

  /** The changes j, j-1, ..., 0 carry the partner of n-1 from j+1 down to 0. */
  lemma {:induction false} DownsSteps(q: seq<int>, n: nat, j: int)
    requires n >= 2 && |q| == n - 2 && IsInvolution(q) && -1 <= j <= n - 3
    ensures Fits(CountDown(j, -1), n)
    ensures EditSteps(Embed(q, n, j + 1), CountDown(j, -1)) == Downs(q, n, j)
    ensures EditAll(Embed(q, n, j + 1), CountDown(j, -1)) == Embed(q, n, 0)
    decreases j + 1, 1
  {
    if j >= 0 {
      DownsStepsNext(q, n, j);
    } else {
      assert CountDown(j, -1) == [];
    }
  }

  lemma {:induction false} DownsStepsNext(q: seq<int>, n: nat, j: int)
    requires n >= 2 && |q| == n - 2 && IsInvolution(q) && 0 <= j <= n - 3
    ensures Fits(CountDown(j, -1), n)
    ensures EditSteps(Embed(q, n, j + 1), CountDown(j, -1)) == Downs(q, n, j)
    ensures EditAll(Embed(q, n, j + 1), CountDown(j, -1)) == Embed(q, n, 0)
    decreases j + 1, 0
  {
    var rest, e, e' := CountDown(j - 1, -1), Embed(q, n, j + 1), Embed(q, n, j);
    assert CountDown(j, -1) == [j] + rest && Fits([j] + rest, n);
    DownsSteps(q, n, j - 1);
    MoveDownAt(q, n, j, e, e');
    EditStepsCons(e, j, rest);
    assert Downs(q, n, j) == [e'] + Downs(q, n, j - 1);
  }

  // ---------------------------------------------------------------------
  // The first and last states
  // ---------------------------------------------------------------------

  /** The identity with the last two items exchanged. */
  function LastPair(n: nat): (r: seq<int>)
    requires n >= 2
    ensures |r| == n && IsInvolution(r)
  {
    Identity(n)[n - 2 := n - 1][n - 1 := n - 2]
  }

  /** The order starts from the identity. */
  lemma {:induction false} InvolutionOrderFirst(n: nat)
    ensures InvolutionOrder(n)[0] == Identity(n)
    decreases n, 1
  {
    if n >= 2 {
      InvolutionOrderFirstNext(n);
    }
  }

  lemma {:induction false} InvolutionOrderFirstNext(n: nat)
    requires n >= 2
    ensures InvolutionOrder(n)[0] == Identity(n)
    decreases n, 0
  {
    var qs := InvolutionOrder(n - 1);
    var a, b := Lift(qs, n - 1), PairPhase(InvolutionOrder(n - 2), n);
    InvolutionOrderFirst(n - 1);
    InvolutionOrderUnfold(n);
    assert (a + b)[0] == a[0] == qs[0] + [n - 1];
    IdentitySnoc(n - 1);
  }

  lemma IdentitySnoc(m: nat)
    ensures Identity(m) + [m] == Identity(m + 1)
  {
    var a, b := Identity(m) + [m], Identity(m + 1);
    forall x | 0 <= x <= m ensures a[x] == b[x] {
      if x < m {
        assert a[x] == Identity(m)[x];
      }
    }
  }

  /** For n >= 2 the order ends with the last two items paired and the rest fixed. */
  lemma InvolutionOrderLast(n: nat)
    requires n >= 2
    ensures InvolutionOrder(n)[|InvolutionOrder(n)| - 1] == LastPair(n)
  {
    var o, qs := InvolutionOrder(n), InvolutionOrder(n - 2);
    var a, b := Lift(InvolutionOrder(n - 1), n - 1), PairPhase(qs, n);
    InvolutionOrderUnfold(n);
    PairPhaseLast(qs, n);
    ConcatLast(o, a, b);
    InvolutionOrderFirst(n - 2);
    EmbedIdentityLast(n);
  }

  lemma PairPhaseLast(qs: seq<seq<int>>, n: nat)
    requires n >= 2 && |qs| >= 1 && Sized(qs, n - 2)
    ensures |PairPhase(qs, n)| >= 1 && PairPhase(qs, n)[|PairPhase(qs, n)| - 1] == Embed(qs[0], n, n - 2)
  {
  }

  /** Proof step, no property of the model: the last entry of a + b is the last of b. */
  lemma ConcatLast<T>(s: seq<T>, a: seq<T>, b: seq<T>)
    requires s == a + b && |b| >= 1
    ensures s[|s| - 1] == b[|b| - 1]
  {
  }

  lemma EmbedIdentityLast(n: nat)
    requires n >= 2
    ensures Embed(Identity(n - 2), n, n - 2) == LastPair(n)
  {
    var e := Embed(Identity(n - 2), n, n - 2);
    forall x | 0 <= x < n ensures e[x] == LastPair(n)[x] {
      if x < n - 2 {
        assert e[x] == RelabelUp(Identity(n - 2)[RelabelDown(x, n - 2)], n - 2);
      }
    }
  }

  /** The change n-2 after the involutions that fix n-1 pairs n-1 with n-3. */
  lemma OpenPair(m: nat)
    requires m >= 3
    ensures IsInvolution(LastPair(m) + [m])
    ensures Edit(LastPair(m) + [m], m - 1) == Embed(Identity(m - 1), m + 1, m - 2)
  {
    LiftInvolutions([LastPair(m)], m);
    assert Lift([LastPair(m)], m)[0] == LastPair(m) + [m];
    var p := LastPair(m) + [m];
    assert p[m - 1] == m - 2 && p[m] == m;
    EditInvolution(p, m - 1);
    var r, e := Edit(p, m - 1), Embed(Identity(m - 1), m + 1, m - 2);
    forall x | 0 <= x <= m ensures r[x] == e[x] {
      if x < m - 2 {
        assert e[x] == RelabelUp(Identity(m - 1)[RelabelDown(x, m - 2)], m - 2);
        assert p[x] == x;
      }
    }
  }

  /** The final change n-4 of the stream turns LastPair(n-2) back into the identity. */
  lemma ClosePair(m: nat)
    requires m >= 2
    ensures Edit(LastPair(m), m - 2) == Identity(m)
  {
    var p := LastPair(m);
    assert p[m - 2] == m - 1;
    var r := Edit(p, m - 2);
    assert r == p[m - 2 := m - 2][m - 1 := m - 1];
    assert forall x :: 0 <= x < m ==> r[x] == x;
  }

  // ---------------------------------------------------------------------
  // The trace of InvolutionChanges(n)
  // ---------------------------------------------------------------------

  /** Where the partner of n-1 stands when the k-th child change comes. */
  function PairSide(k: nat, n: nat): int
  {
    if k % 2 == 0 then 0 else n - 2
  }

  /**
   * The loop over the child stream ic: with qs the trace of ic on n-2 items,
   * the changes from the k-th child change on step through Rest(qs, k+1, n)
   * and end with the final change n-4 applied to the last involution of qs.
   */
  lemma {:induction false} SweepSteps(ic: seq<int>, qs: seq<seq<int>>, k: nat, n: nat)
    requires n >= 4 && |ic| % 2 == 1 && k <= |ic| && EditChain(qs, ic, n - 2)
    ensures Fits(InvolutionSweep(ic, k, n), n) && IsInvolution(Edit(qs[|ic|], n - 4))
    ensures EditSteps(Embed(qs[k], n, PairSide(k, n)), InvolutionSweep(ic, k, n))
            == Rest(qs, k + 1, n) + [Embed(Edit(qs[|ic|], n - 4), n, n - 2)]
    decreases |ic| - k
  {
    EditInvolution(qs[|ic|], n - 4);
    var f := Embed(Edit(qs[|ic|], n - 4), n, n - 2);
    assert Sized(qs, n - 2);
    if k == |ic| {
      SweepLast(ic, qs, n);
    } else {
      var j := k + 1;
      assert qs[j] == Edit(qs[k], ic[k]);
      assert IsInvolution(qs[k]) && IsInvolution(qs[j]);
      SweepSteps(ic, qs, j, n);
      SweepNext(ic, qs, k, j, n, f);
    }
  }

  /** When the child stream is exhausted, the change n-4 edits its last involution. */
  lemma {:induction false} SweepLast(ic: seq<int>, qs: seq<seq<int>>, n: nat)
    requires n >= 4 && |ic| % 2 == 1 && |qs| == |ic| + 1 && Sized(qs, n - 2) && IsInvolution(qs[|ic|])
    ensures Fits(InvolutionSweep(ic, |ic|, n), n) && IsInvolution(Edit(qs[|ic|], n - 4))
    ensures EditSteps(Embed(qs[|ic|], n, PairSide(|ic|, n)), InvolutionSweep(ic, |ic|, n))
            == Rest(qs, |ic| + 1, n) + [Embed(Edit(qs[|ic|], n - 4), n, n - 2)]
  {
    var q := qs[|ic|];
    EditInvolution(q, n - 4);
    assert PairSide(|ic|, n) == n - 2 && InvolutionSweep(ic, |ic|, n) == [n - 4];
    EmbedInner(q, n, n - 2, n - 4);
    EditStepsCons(Embed(q, n, n - 2), n - 4, []);
  }

  /** One child change and the run of the partner of n-1 after it. */
  lemma {:induction false} SweepNext(ic: seq<int>, qs: seq<seq<int>>, k: nat, j: nat, n: nat, f: seq<int>)
    requires n >= 4 && j == k + 1 && j <= |ic| && |qs| == |ic| + 1 && Sized(qs, n - 2) && Fits(ic, n - 2)
    requires IsInvolution(qs[k]) && IsInvolution(qs[j]) && qs[j] == Edit(qs[k], ic[k])
    requires Fits(InvolutionSweep(ic, j, n), n)
    requires EditSteps(Embed(qs[j], n, PairSide(j, n)), InvolutionSweep(ic, j, n)) == Rest(qs, j + 1, n) + [f]
    ensures Fits(InvolutionSweep(ic, k, n), n)
    ensures EditSteps(Embed(qs[k], n, PairSide(k, n)), InvolutionSweep(ic, k, n)) == Rest(qs, k + 1, n) + [f]
  {
    EditParity(k);
    if k % 2 == 0 {
      SweepNextUp(ic, qs, k, j, n, f);
    } else {
      SweepNextDown(ic, qs, k, j, n, f);
    }
  }

  /** At even k: the child change, then the partner of n-1 carried up. */
  lemma {:induction false} SweepNextUp(ic: seq<int>, qs: seq<seq<int>>, k: nat, j: nat, n: nat, f: seq<int>)
    requires n >= 4 && j == k + 1 && j <= |ic| && |qs| == |ic| + 1 && Sized(qs, n - 2) && Fits(ic, n - 2)
    requires IsInvolution(qs[k]) && IsInvolution(qs[j]) && qs[j] == Edit(qs[k], ic[k])
    requires Fits(InvolutionSweep(ic, j, n), n)
    requires EditSteps(Embed(qs[j], n, PairSide(j, n)), InvolutionSweep(ic, j, n)) == Rest(qs, j + 1, n) + [f]
    requires k % 2 == 0
    ensures Fits(InvolutionSweep(ic, k, n), n)
    ensures EditSteps(Embed(qs[k], n, PairSide(k, n)), InvolutionSweep(ic, k, n)) == Rest(qs, k + 1, n) + [f]
  {
    var p, q, c := qs[k], qs[j], ic[k];
    assert 0 <= c <= n - 4;
    var tail, later := InvolutionSweep(ic, j, n), Rest(qs, j + 1, n);
    EditParity(k);
    assert j % 2 == 1 && PairSide(k, n) == 0 && PairSide(j, n) == n - 2;
    assert Rest(qs, j, n) == Ups(q, n, 0) + later by {
      RestUnfold(qs, j, n);
    }
    assert InvolutionSweep(ic, k, n) == [c + 1] + (CountUp(0, n - 2) + tail) by {
      SweepUnfold(ic, k, n);
    }
    SweepUp(p, c, tail, n, later + [f]);
    Associative(Ups(q, n, 0), later, [f]);
  }

  /** At odd k: the child change, then the partner of n-1 carried down. */
  lemma {:induction false} SweepNextDown(ic: seq<int>, qs: seq<seq<int>>, k: nat, j: nat, n: nat, f: seq<int>)
    requires n >= 4 && j == k + 1 && j <= |ic| && |qs| == |ic| + 1 && Sized(qs, n - 2) && Fits(ic, n - 2)
    requires IsInvolution(qs[k]) && IsInvolution(qs[j]) && qs[j] == Edit(qs[k], ic[k])
    requires Fits(InvolutionSweep(ic, j, n), n)
    requires EditSteps(Embed(qs[j], n, PairSide(j, n)), InvolutionSweep(ic, j, n)) == Rest(qs, j + 1, n) + [f]
    requires k % 2 == 1
    ensures Fits(InvolutionSweep(ic, k, n), n)
    ensures EditSteps(Embed(qs[k], n, PairSide(k, n)), InvolutionSweep(ic, k, n)) == Rest(qs, k + 1, n) + [f]
  {
    var p, q, c := qs[k], qs[j], ic[k];
    assert 0 <= c <= n - 4;
    var tail, later := InvolutionSweep(ic, j, n), Rest(qs, j + 1, n);
    EditParity(k);
    assert j % 2 == 0 && PairSide(k, n) == n - 2 && PairSide(j, n) == 0;
    assert Rest(qs, j, n) == Downs(q, n, n - 2) + later by {
      RestUnfold(qs, j, n);
    }
    assert InvolutionSweep(ic, k, n) == [c] + (CountDown(n - 3, -1) + tail) by {
      SweepUnfold(ic, k, n);
    }
    SweepDown(p, c, tail, n, later + [f]);
    Associative(Downs(q, n, n - 2), later, [f]);
  }

  /** qs is the trace of the changes ic from qs[0], all involutions on m items. */
  ghost predicate EditChain(qs: seq<seq<int>>, ic: seq<int>, m: nat)
  {
    && AllInvolutions(qs, m) && Fits(ic, m) && |qs| == |ic| + 1
    && forall i :: 0 <= i < |ic| ==> qs[i + 1] == Edit(qs[i], ic[i])
  }

  /** A trace is a chain. */
  lemma TraceEditChain(p: seq<int>, ic: seq<int>)
    requires IsInvolution(p) && Fits(ic, |p|)
    ensures EditChain(EditTrace(p, ic), ic, |p|)
  {
    var qs := EditTrace(p, ic);
    forall i | 0 <= i < |ic| ensures |qs[i]| == |p| && IsInvolution(qs[i]) && qs[i + 1] == Edit(qs[i], ic[i]) {
      EditTraceStep(p, ic, i);
    }
    EditTraceInvolutions(p, ic, |ic|);
  }

  lemma SweepUnfold(ic: seq<int>, k: nat, n: int)
    requires k < |ic|
    ensures k % 2 == 0 ==> InvolutionSweep(ic, k, n) == [ic[k] + 1] + (CountUp(0, n - 2) + InvolutionSweep(ic, k + 1, n))
    ensures k % 2 == 1 ==> InvolutionSweep(ic, k, n) == [ic[k]] + (CountDown(n - 3, -1) + InvolutionSweep(ic, k + 1, n))
  {
    if k % 2 == 0 {
      Associative([ic[k] + 1], CountUp(0, n - 2), InvolutionSweep(ic, k + 1, n));
    } else {
      Associative([ic[k]], CountDown(n - 3, -1), InvolutionSweep(ic, k + 1, n));
    }
  }

  lemma EditParity(k: nat)
    ensures k % 2 == 0 || k % 2 == 1
    ensures (k + 1) % 2 == 1 - k % 2
  {
  }

  // Proof steps, no properties of the model. Each is called with the very terms at
  // hand, so that the solver need not search for them.

  /** Equality is transitive. */
  lemma Transitive<T>(a: T, b: T, c: T)
    requires a == b && b == c
    ensures a == c
  {
  }

  /** Regrouping a concatenation. */
  lemma Associative<T>(a: seq<T>, b: seq<T>, c: seq<T>)
    ensures a + (b + c) == (a + b) + c
  {
  }

  lemma RestUnfold(qs: seq<seq<int>>, k: nat, n: nat)
    requires n >= 2 && k < |qs| && Sized(qs, n - 2)
    ensures k % 2 == 1 ==> Rest(qs, k, n) == Ups(qs[k], n, 0) + Rest(qs, k + 1, n)
    ensures k % 2 == 0 ==> Rest(qs, k, n) == Downs(qs[k], n, n - 2) + Rest(qs, k + 1, n)
  {
  }

  /** An even-numbered child change c, at j = 0, then j carried up to n-2. */
  lemma {:induction false} SweepUp(p: seq<int>, c: int, tail: seq<int>, n: nat, rest: seq<seq<int>>)
    requires n >= 4 && |p| == n - 2 && IsInvolution(p) && 0 <= c && c + 1 < n - 2
    requires IsInvolution(Edit(p, c)) && Fits(tail, n)
    requires EditSteps(Embed(Edit(p, c), n, n - 2), tail) == rest
    ensures Fits([c + 1] + (CountUp(0, n - 2) + tail), n)
    ensures EditSteps(Embed(p, n, 0), [c + 1] + (CountUp(0, n - 2) + tail)) == Ups(Edit(p, c), n, 0) + rest
  {
    var q, run := Edit(p, c), CountUp(0, n - 2);
    var e, g := Embed(p, n, 0), Embed(q, n, 0);
    EmbedInnerAt(p, n, 0, c + 1, c);
    UpsSteps(q, n, 0);
    StepsJoin(e, c + 1, g, run, tail, Embed(q, n, n - 2), Ups(q, n, 1), rest);
    UpsUnfold(q, n, 0);
  }

  /** An odd-numbered child change c, at j = n-2, then j carried down to 0. */
  lemma {:induction false} SweepDown(p: seq<int>, c: int, tail: seq<int>, n: nat, rest: seq<seq<int>>)
    requires n >= 4 && |p| == n - 2 && IsInvolution(p) && 0 <= c && c + 1 < n - 2
    requires IsInvolution(Edit(p, c)) && Fits(tail, n)
    requires EditSteps(Embed(Edit(p, c), n, 0), tail) == rest
    ensures Fits([c] + (CountDown(n - 3, -1) + tail), n)
    ensures EditSteps(Embed(p, n, n - 2), [c] + (CountDown(n - 3, -1) + tail)) == Downs(Edit(p, c), n, n - 2) + rest
  {
    var q, run := Edit(p, c), CountDown(n - 3, -1);
    var e, g := Embed(p, n, n - 2), Embed(q, n, n - 2);
    EmbedInnerAt(p, n, n - 2, c, c);
    DownsSteps(q, n, n - 3);
    StepsJoin(e, c, g, run, tail, Embed(q, n, 0), Downs(q, n, n - 3), rest);
    DownsUnfold(q, n, n - 3);
  }

  /** One change c taking e to g, then a run and a tail: the steps are g, the run's steps, the tail's steps. */
  lemma StepsJoin(e: seq<int>, c: int, g: seq<int>, run: seq<int>, tail: seq<int>, h: seq<int>,
                  first: seq<seq<int>>, rest: seq<seq<int>>)
    requires IsInvolution(e) && 0 <= c && c + 1 < |e| && Edit(e, c) == g && IsInvolution(g)
    requires Fits(run, |e|) && Fits(tail, |e|)
    requires EditSteps(g, run) == first && EditAll(g, run) == h && EditSteps(h, tail) == rest
    ensures Fits([c] + (run + tail), |e|)
    ensures EditSteps(e, [c] + (run + tail)) == [g] + first + rest
  {
    FitsJoin(run, tail, |e|);
    FitsJoin([c], run + tail, |e|);
    EditStepsCons(e, c, run + tail);
    EditStepsConcat(g, run, tail);
    Associative([g], first, rest);
  }

  lemma UpsUnfold(q: seq<int>, n: nat, j: int)
    requires n >= 2 && |q| == n - 2 && 0 <= j <= n - 2
    ensures Ups(q, n, j) == [Embed(q, n, j)] + Ups(q, n, j + 1)
  {
  }

  lemma DownsUnfold(q: seq<int>, n: nat, j: int)
    requires n >= 2 && |q| == n - 2 && -1 <= j <= n - 3
    ensures Downs(q, n, j + 1) == [Embed(q, n, j + 1)] + Downs(q, n, j)
  {
  }

  lemma FitsJoin(a: seq<int>, b: seq<int>, n: int)
    requires Fits(a, n) && Fits(b, n)
    ensures Fits(a + b, n)
  {
    forall i | 0 <= i < |a + b| ensures 0 <= (a + b)[i] <= n - 2 {
      if i < |a| {
        assert (a + b)[i] == a[i];
      } else {
        assert (a + b)[i] == b[i - |a|];
      }
    }
  }

  /** The changes a of InvolutionChanges(n-1) run through the order for n-1 with n-1 fixed. */
  lemma {:induction false} FixedPhase(n: nat, a: seq<int>, qs: seq<seq<int>>)
    requires n >= 3 && Fits(a, n - 1) && EditTrace(Identity(n - 1), a) == qs
    requires qs[|qs| - 1] == LastPair(n - 1)
    ensures Fits(a, n)
    ensures EditTrace(Identity(n), a) == Lift(qs, n - 1)
    ensures EditAll(Identity(n), a) == LastPair(n - 1) + [n - 1]
  {
    var p := Identity(n - 1);
    IdentitySnoc(n - 1);
    LiftSteps(p, a);
    assert EditAll(p, a) == LastPair(n - 1) by {
      EditTraceLast(p, a);
    }
    LiftCons(p, EditSteps(p, a), n - 1);
  }

  lemma LiftCons(p: seq<int>, ss: seq<seq<int>>, m: int)
    ensures Lift([p] + ss, m) == [p + [m]] + Lift(ss, m)
  {
    assert ([p] + ss)[1..] == ss;
  }

  /**
   * The rest of InvolutionChanges(n), with ic = InvolutionChanges(n-2) and qs
   * its trace: the changes that pair n-1 run through PairPhase(qs, n).
   */
  lemma {:induction false} PairPhaseTrace(n: nat, ic: seq<int>, qs: seq<seq<int>>)
    requires n >= 4 && |ic| % 2 == 1 && EditChain(qs, ic, n - 2)
    requires qs[0] == Identity(n - 2) && qs[|ic|] == LastPair(n - 2)
    ensures IsInvolution(LastPair(n - 1) + [n - 1])
    ensures Fits([n - 2] + (CountDown(n - 4, -1) + InvolutionSweep(ic, 0, n)), n)
    ensures EditSteps(LastPair(n - 1) + [n - 1], [n - 2] + (CountDown(n - 4, -1) + InvolutionSweep(ic, 0, n)))
            == PairPhase(qs, n)
  {
    var down, sweep := CountDown(n - 4, -1), InvolutionSweep(ic, 0, n);
    var start, q := LastPair(n - 1) + [n - 1], qs[0];
    var g, h, first := Embed(q, n, n - 3), Embed(q, n, 0), Downs(q, n, n - 4);
    var f, rest := Embed(Edit(qs[|ic|], n - 4), n, n - 2), Rest(qs, 1, n);
    ClosePair(n - 2);
    OpenPair(n - 1);
    DownsSteps(q, n, n - 4);
    SweepSteps(ic, qs, 0, n);
    DownsUnfold(q, n, n - 4);
    PairPhaseAssemble(qs, n, start, g, h, down, sweep, first, rest, f);
  }

  /** The steps of the pair phase, joined and regrouped as PairPhase lists them. */
  lemma PairPhaseAssemble(qs: seq<seq<int>>, n: nat, start: seq<int>, g: seq<int>, h: seq<int>, down: seq<int>, sweep: seq<int>,
                          first: seq<seq<int>>, rest: seq<seq<int>>, f: seq<int>)
    requires n >= 4 && |qs| >= 1 && Sized(qs, n - 2) && |start| == n
    requires IsInvolution(start) && Edit(start, n - 2) == g && IsInvolution(g)
    requires Fits(down, n) && Fits(sweep, n)
    requires EditSteps(g, down) == first && EditAll(g, down) == h && EditSteps(h, sweep) == rest + [f]
    requires [g] + first == Downs(qs[0], n, n - 3) && rest == Rest(qs, 1, n) && f == Embed(qs[0], n, n - 2)
    ensures Fits([n - 2] + (down + sweep), n)
    ensures EditSteps(start, [n - 2] + (down + sweep)) == PairPhase(qs, n)
  {
    StepsJoin(start, n - 2, g, down, sweep, h, first, rest + [f]);
    Associative([g], first, rest + [f]);
    Associative([g] + first, rest, [f]);
  }

  /** From n = 2 on there is an odd number of changes, so the last child run goes up. */
  lemma InvolutionChangesOdd(m: nat)
    requires m >= 2
    ensures |InvolutionChanges(m)| % 2 == 1
  {
    InvolutionChangesLength(m);
    TelephoneEven(m);
    BeforeEven(|InvolutionChanges(m)|, Telephone(m));
  }

  lemma BeforeEven(x: int, t: int)
    requires x == t - 1 && t % 2 == 0
    ensures x % 2 == 1
  {
  }

  lemma ChangesSplit(n: nat)
    requires n >= 4
    ensures InvolutionChanges(n) == InvolutionChanges(n - 1)
            + ([n - 2] + (CountDown(n - 4, -1) + InvolutionSweep(InvolutionChanges(n - 2), 0, n)))
  {
    var a, d, w := InvolutionChanges(n - 1), CountDown(n - 4, -1), InvolutionSweep(InvolutionChanges(n - 2), 0, n);
    Associative(a, [n - 2], d + w);
    Associative([n - 2], d, w);
    Associative(a + [n - 2], d, w);
  }

  lemma InvolutionOrderUnfold(n: nat)
    requires n >= 2
    ensures InvolutionOrder(n) == Lift(InvolutionOrder(n - 1), n - 1) + PairPhase(InvolutionOrder(n - 2), n)
  {
  }

  /**
   * `Involutions(n)` yields InvolutionOrder(n): run from the identity, the
   * edits of Permutations.py:159-173 driven by InvolutionChanges(n) list the
   * reference order.
   */
  lemma {:induction false} InvolutionTrace(n: nat)
    ensures Fits(InvolutionChanges(n), n)
    ensures EditTrace(Identity(n), InvolutionChanges(n)) == InvolutionOrder(n)
    decreases n, 1
  {
    if n <= 3 {
      InvolutionSmall(n);
    } else {
      InvolutionInduction(n);
    }
  }

  lemma {:induction false} InvolutionInduction(n: nat)
    requires n >= 4
    ensures Fits(InvolutionChanges(n), n)
    ensures EditTrace(Identity(n), InvolutionChanges(n)) == InvolutionOrder(n)
    decreases n, 0
  {
    InvolutionTrace(n - 1);
    InvolutionTrace(n - 2);
    InvolutionClose(n);
  }

  /** The step from n-1 and n-2 to n, given the traces for n-1 and n-2. */
  lemma {:induction false} InvolutionClose(n: nat)
    requires n >= 4
    requires Fits(InvolutionChanges(n - 1), n - 1)
    requires EditTrace(Identity(n - 1), InvolutionChanges(n - 1)) == InvolutionOrder(n - 1)
    requires Fits(InvolutionChanges(n - 2), n - 2)
    requires EditTrace(Identity(n - 2), InvolutionChanges(n - 2)) == InvolutionOrder(n - 2)
    ensures Fits(InvolutionChanges(n), n)
    ensures EditTrace(Identity(n), InvolutionChanges(n)) == InvolutionOrder(n)
  {
    InvolutionSplit(n);
    ChangesSplit(n);
    InvolutionOrderUnfold(n);
  }

  lemma {:induction false} InvolutionSplit(n: nat)
    requires n >= 4
    requires Fits(InvolutionChanges(n - 1), n - 1)
    requires EditTrace(Identity(n - 1), InvolutionChanges(n - 1)) == InvolutionOrder(n - 1)
    requires Fits(InvolutionChanges(n - 2), n - 2)
    requires EditTrace(Identity(n - 2), InvolutionChanges(n - 2)) == InvolutionOrder(n - 2)
    ensures Fits(InvolutionChanges(n - 1) + ([n - 2] + (CountDown(n - 4, -1) + InvolutionSweep(InvolutionChanges(n - 2), 0, n))), n)
    ensures EditTrace(Identity(n), InvolutionChanges(n - 1) + ([n - 2] + (CountDown(n - 4, -1) + InvolutionSweep(InvolutionChanges(n - 2), 0, n))))
            == Lift(InvolutionOrder(n - 1), n - 1) + PairPhase(InvolutionOrder(n - 2), n)
  {
    var a, ic, qs1, qs2 := InvolutionChanges(n - 1), InvolutionChanges(n - 2), InvolutionOrder(n - 1), InvolutionOrder(n - 2);
    var b := [n - 2] + (CountDown(n - 4, -1) + InvolutionSweep(ic, 0, n));
    FixedPart(n);
    PairPart(n);
    TraceJoin(Identity(n), a, b, Lift(qs1, n - 1), LastPair(n - 1) + [n - 1], PairPhase(qs2, n));
  }

  /** The changes of InvolutionChanges(n-1) run through the order for n-1 with n-1 fixed, ending at LastPair(n-1). */
  lemma FixedPart(n: nat)
    requires n >= 4
    requires Fits(InvolutionChanges(n - 1), n - 1)
    requires EditTrace(Identity(n - 1), InvolutionChanges(n - 1)) == InvolutionOrder(n - 1)
    ensures Fits(InvolutionChanges(n - 1), n)
    ensures EditTrace(Identity(n), InvolutionChanges(n - 1)) == Lift(InvolutionOrder(n - 1), n - 1)
    ensures EditAll(Identity(n), InvolutionChanges(n - 1)) == LastPair(n - 1) + [n - 1]
  {
    InvolutionOrderLast(n - 1);
    FixedPhase(n, InvolutionChanges(n - 1), InvolutionOrder(n - 1));
  }

  /** From there the remaining changes, built on InvolutionChanges(n-2), run through the pair phase. */
  lemma PairPart(n: nat)
    requires n >= 4
    requires Fits(InvolutionChanges(n - 2), n - 2)
    requires EditTrace(Identity(n - 2), InvolutionChanges(n - 2)) == InvolutionOrder(n - 2)
    ensures Fits([n - 2] + (CountDown(n - 4, -1) + InvolutionSweep(InvolutionChanges(n - 2), 0, n)), n)
    ensures EditSteps(LastPair(n - 1) + [n - 1], [n - 2] + (CountDown(n - 4, -1) + InvolutionSweep(InvolutionChanges(n - 2), 0, n)))
            == PairPhase(InvolutionOrder(n - 2), n)
  {
    var ic, qs := InvolutionChanges(n - 2), InvolutionOrder(n - 2);
    InvolutionOrderLast(n - 2);
    InvolutionChangesOdd(n - 2);
    TraceEditChain(Identity(n - 2), ic);
    PairPhaseTrace(n, ic, qs);
  }

  /** A trace over a followed by the steps over b from where a ends is the trace over a + b. */
  lemma TraceJoin(p: seq<int>, a: seq<int>, b: seq<int>, t1: seq<seq<int>>, last: seq<int>, t2: seq<seq<int>>)
    requires IsInvolution(p) && Fits(a, |p|) && Fits(b, |p|)
    requires EditTrace(p, a) == t1 && EditAll(p, a) == last && EditSteps(last, b) == t2
    ensures Fits(a + b, |p|) && EditTrace(p, a + b) == t1 + t2
  {
    FitsJoin(a, b, |p|);
    EditStepsConcat(p, a, b);
    Associative([p], EditSteps(p, a), t2);
  }

  /** The first orders, worked out. */
  lemma Order2()
    ensures InvolutionOrder(0) == [[]] && InvolutionOrder(1) == [[0]]
    ensures InvolutionOrder(2) == [[0, 1], [1, 0]]
  {
    assert Identity(0) == [] && Identity(1) == [0];
    assert Lift([[0]], 1) == [[0, 1]] by {
      assert [0] + [1] == [0, 1];
    }
    assert PairPhase([[]], 2) == [[1, 0]] by {
      assert Downs([], 2, -1) == [] && Rest([[]], 1, 2) == [];
      assert Embed([], 2, 0) == [1, 0];
    }
  }

  lemma Order3()
    ensures InvolutionOrder(3) == [[0, 1, 2], [1, 0, 2], [2, 1, 0], [0, 2, 1]]
  {
    Order2();
    assert Lift([[0, 1], [1, 0]], 2) == [[0, 1, 2], [1, 0, 2]] by {
      assert [0, 1] + [2] == [0, 1, 2] && [1, 0] + [2] == [1, 0, 2];
    }
    assert PairPhase([[0]], 3) == [[2, 1, 0], [0, 2, 1]] by {
      assert Embed([0], 3, 0) == [2, 1, 0];
      assert Embed([0], 3, 1) == [0, 2, 1];
      assert Downs([0], 3, 0) == [[2, 1, 0]] by {
        assert Downs([0], 3, -1) == [];
      }
      assert Rest([[0]], 1, 3) == [];
    }
  }

  lemma Trace3()
    ensures IsInvolution([0, 1, 2]) && Fits([0, 1, 0], 3)
    ensures EditTrace([0, 1, 2], [0, 1, 0]) == [[0, 1, 2], [1, 0, 2], [2, 1, 0], [0, 2, 1]]
  {
    assert Identity(3) == [0, 1, 2];
    assert Edit([0, 1, 2], 0) == [1, 0, 2];
    EditStepsCons([0, 1, 2], 0, [1, 0]);
    assert Edit([1, 0, 2], 1) == [2, 1, 0];
    EditStepsCons([1, 0, 2], 1, [0]);
    assert Edit([2, 1, 0], 0) == [0, 2, 1];
    EditStepsCons([2, 1, 0], 0, []);
    assert [0] + [1, 0] == [0, 1, 0] && [1] + [0] == [1, 0] && [0] + [] == [0];
  }

  /** The first cases, worked out. */
  lemma InvolutionSmall(n: nat)
    requires n <= 3
    ensures Fits(InvolutionChanges(n), n)
    ensures EditTrace(Identity(n), InvolutionChanges(n)) == InvolutionOrder(n)
  {
    InvolutionChangesSmall();
    InvolutionChangesWithin(n);
    Order2();
    if n == 2 {
      assert Identity(2) == [0, 1];
      assert Edit([0, 1], 0) == [1, 0];
      EditStepsCons([0, 1], 0, []);
      assert [0] + [] == [0];
    } else if n == 3 {
      assert Identity(3) == [0, 1, 2];
      Order3();
      Trace3();
    }
  }
}
