/**
 * The involution wrapper (Permutations.py:148-174): the object p starts as the
 * identity on n items, and each change c of InvolutionChanges(n) edits p in
 * place by one of four cases chosen by whether c and c+1 are fixed points of
 * p.  This module models the edit, proves that it keeps p an involution
 * (p[p[i]] == i), and runs it over a change stream.
 */
module InvolutionEdits {
  import opened Changes

  /** `range(n)` */
  function Identity(n: nat): (r: seq<int>)
    ensures |r| == n && forall i :: 0 <= i < n ==> r[i] == i
    ensures IsInvolution(r)
  {
    seq(n, i => i)
  }

  /** `[p[i] for i in p] == range(len(p))`: every value is a position, and p undoes itself. */
  ghost predicate IsInvolution(p: seq<int>)
  {
    forall i :: 0 <= i < |p| ==> 0 <= p[i] < |p| && p[p[i]] == i
  }

  /** The object after one change of `Involutions` (Permutations.py:159-173), tuple assignments left to right. */
  function Edit(p: seq<int>, c: int): (r: seq<int>)
    requires 0 <= c && c + 1 < |p| && IsInvolution(p)
    ensures |r| == |p|
  {
    if p[c] == c then
      if p[c + 1] == c + 1 then p[c := c + 1][c + 1 := c]
      else var i := p[c + 1]; p[c := i][c + 1 := c + 1][i := c]
    else if p[c + 1] == c + 1 then var i := p[c]; p[c := c][c + 1 := i][i := c + 1]
    else if p[c] == c + 1 then p[c := c][c + 1 := c + 1]
    else var x, y := p[c], p[c + 1]; p[x := c + 1][y := c][c := y][c + 1 := x]
  }

  /** The transposition of c and c+1. */
  function Tau(x: int, c: int): int
  {
    if x == c then c + 1 else if x == c + 1 then c else x
  }

  /** p conjugated by the transposition of c and c+1: the partners of c and c+1 trade places. */
  function Conj(p: seq<int>, c: int): (r: seq<int>)
    requires 0 <= c && c + 1 < |p| && IsInvolution(p)
    ensures |r| == |p|
  {
    seq(|p|, x requires 0 <= x < |p| => Tau(p[Tau(x, c)], c))
  }

  /** Both c and c+1 are fixed points, or they are partners: the edit adds or removes the pair (c c+1). */
  ghost predicate Toggles(p: seq<int>, c: int)
    requires 0 <= c && c + 1 < |p|
  {
    (p[c] == c && p[c + 1] == c + 1) || p[c] == c + 1
  }

  /**
   * The edit keeps p an involution, and it is one of the changes the docstring
   * lists (Permutations.py:152-155): add or remove the adjacent pair (c c+1),
   * or else move a partner by one place, or exchange the partners of c and c+1.
   */
  lemma EditInvolution(p: seq<int>, c: int)
    requires 0 <= c && c + 1 < |p| && IsInvolution(p)
    ensures IsInvolution(Edit(p, c))
    ensures p[c] == c && p[c + 1] == c + 1 ==> Edit(p, c) == p[c := c + 1][c + 1 := c]
    ensures p[c] == c + 1 ==> Edit(p, c) == p[c := c][c + 1 := c + 1]
    ensures !Toggles(p, c) ==> Edit(p, c) == Conj(p, c)
  {
    var r := Edit(p, c);
    if !Toggles(p, c) {
      EditConj(p, c);
    }
    forall i | 0 <= i < |r| ensures 0 <= r[i] < |r| && r[r[i]] == i {
      if !Toggles(p, c) {
        assert r[i] == Tau(p[Tau(i, c)], c);
        assert r[r[i]] == Tau(p[Tau(r[i], c)], c);
      }
    }
  }

  lemma EditConj(p: seq<int>, c: int)
    requires 0 <= c && c + 1 < |p| && IsInvolution(p) && !Toggles(p, c)
    ensures Edit(p, c) == Conj(p, c)
  {
    var r, q := Edit(p, c), Conj(p, c);
    forall x | 0 <= x < |p| ensures r[x] == q[x] {
      assert q[x] == Tau(p[Tau(x, c)], c);
      if x != c && x != c + 1 {
        assert p[p[x]] == x;
      }
    }
  }

  // ---------------------------------------------------------------------
  // Running the edit over a change stream
  // ---------------------------------------------------------------------

  /** Every change leaves room for `p[c+1]`. */
  predicate Fits(cs: seq<int>, n: int)
  {
    Within(cs, 0, n - 2)
  }

  /** The object after every change of `cs`. */
  function EditAll(p: seq<int>, cs: seq<int>): (r: seq<int>)
    requires IsInvolution(p) && Fits(cs, |p|)
    ensures |r| == |p| && IsInvolution(r)
    decreases |cs|
  {
    if cs == [] then p
    else EditInvolution(p, cs[0]); EditAll(Edit(p, cs[0]), cs[1..])
  }

  /** The objects after each change of `cs`, in order. */
  function EditSteps(p: seq<int>, cs: seq<int>): (r: seq<seq<int>>)
    requires IsInvolution(p) && Fits(cs, |p|)
    ensures |r| == |cs|
    decreases |cs|
  {
    if cs == [] then []
    else EditInvolution(p, cs[0]); var t := Edit(p, cs[0]); [t] + EditSteps(t, cs[1..])
  }

  /** Everything `Involutions` yields from p: p, then the object after each change. */
  function EditTrace(p: seq<int>, cs: seq<int>): (r: seq<seq<int>>)
    requires IsInvolution(p) && Fits(cs, |p|)
    ensures |r| == |cs| + 1 && r[0] == p
  {
    [p] + EditSteps(p, cs)
  }

  lemma {:induction false} EditStepsConcat(p: seq<int>, a: seq<int>, b: seq<int>)
    requires IsInvolution(p) && Fits(a + b, |p|)
    ensures Fits(a, |p|) && Fits(b, |p|)
    ensures EditAll(p, a + b) == EditAll(EditAll(p, a), b)
    ensures EditSteps(p, a + b) == EditSteps(p, a) + EditSteps(EditAll(p, a), b)
    decreases |a|
  {
    FitsSplit(a, b, |p|);
    if a != [] {
      EditInvolution(p, a[0]);
      var t := Edit(p, a[0]);
      assert (a + b)[0] == a[0] && (a + b)[1..] == a[1..] + b;
      EditStepsConcat(t, a[1..], b);
      assert EditAll(p, a + b) == EditAll(t, a[1..] + b);
      assert EditAll(p, a) == EditAll(t, a[1..]);
      assert EditSteps(p, a + b) == [t] + EditSteps(t, a[1..] + b);
      assert EditSteps(p, a) == [t] + EditSteps(t, a[1..]);
    } else {
      assert a + b == b;
    }
  }

  lemma FitsSplit(a: seq<int>, b: seq<int>, n: int)
    requires Fits(a + b, n)
    ensures Fits(a, n) && Fits(b, n)
  {
    assert forall i :: 0 <= i < |a| ==> a[i] == (a + b)[i];
    assert forall i :: 0 <= i < |b| ==> b[i] == (a + b)[|a| + i];
  }

  /** Every object in a trace is an involution, and each follows from the one before by one edit. */
  lemma {:induction false} EditTraceStep(p: seq<int>, cs: seq<int>, k: nat)
    requires IsInvolution(p) && Fits(cs, |p|) && k < |cs|
    ensures |EditTrace(p, cs)[k]| == |p| && IsInvolution(EditTrace(p, cs)[k])
    ensures EditTrace(p, cs)[k + 1] == Edit(EditTrace(p, cs)[k], cs[k])
    ensures |EditTrace(p, cs)[k + 1]| == |p| && IsInvolution(EditTrace(p, cs)[k + 1])
    decreases k
  {
    EditInvolution(p, cs[0]);
    if k > 0 {
      EditTraceStep(Edit(p, cs[0]), cs[1..], k - 1);
    }
  }

  lemma EditTraceInvolutions(p: seq<int>, cs: seq<int>, k: nat)
    requires IsInvolution(p) && Fits(cs, |p|) && k <= |cs|
    ensures |EditTrace(p, cs)[k]| == |p| && IsInvolution(EditTrace(p, cs)[k])
  {
    if k > 0 {
      EditTraceStep(p, cs, k - 1);
    }
  }

  /** Appending one change appends one object. */
  lemma EditTraceSnoc(p: seq<int>, cs: seq<int>, c: int)
    requires IsInvolution(p) && Fits(cs + [c], |p|)
    ensures Fits(cs, |p|) && 0 <= c && c + 1 < |p| && IsInvolution(EditAll(p, cs))
    ensures EditAll(p, cs + [c]) == Edit(EditAll(p, cs), c)
    ensures EditTrace(p, cs + [c]) == EditTrace(p, cs) + [Edit(EditAll(p, cs), c)]
  {
    EditStepsConcat(p, cs, [c]);
    assert (cs + [c])[|cs|] == c;
    var q := EditAll(p, cs);
    EditInvolution(q, c);
    assert EditSteps(q, [c]) == [Edit(q, c)] + EditSteps(Edit(q, c), []);
    assert EditAll(q, [c]) == EditAll(Edit(q, c), []);
  }

  // ---------------------------------------------------------------------
  // The wrapper
  // ---------------------------------------------------------------------

  /** The edit of Permutations.py:159-173, in place on the array. */
  method EditInPlace(p: array<int>, c: int)
    requires 0 <= c && c + 1 < p.Length && IsInvolution(p[..])
    modifies p
    ensures p[..] == Edit(old(p[..]), c)
    ensures IsInvolution(p[..])
  {
    ghost var q := p[..];
    EditInvolution(q, c);
    if p[c] == c {
      if p[c + 1] == c + 1 {
        p[c], p[c + 1] := c + 1, c;
      } else {
        var i := p[c + 1];
        p[c] := i;
        p[c + 1] := c + 1;
        p[i] := c;
      }
    } else if p[c + 1] == c + 1 {
      var i := p[c];
      p[c] := c;
      p[c + 1] := i;
      p[i] := c + 1;
    } else if p[c] == c + 1 {
      p[c], p[c + 1] := c, c + 1;
    } else {
      var x, y := p[c], p[c + 1];
      p[x] := c + 1;
      p[y] := c;
      p[c] := y;
      p[c + 1] := x;
    }
    assert p[..] == Edit(q, c);
  }

  /** `Involutions(n)` run over a change stream: the objects yielded, in order. */
  method EditLoop(n: nat, cs: seq<int>) returns (perms: seq<seq<int>>)
    requires Fits(cs, n)
    ensures perms == EditTrace(Identity(n), cs)
  {
    var p := new int[n](i => i);
    ghost var s := p[..];
    assert s == Identity(n);
    perms := [p[..]];
    var k := 0;
    while k < |cs|
      invariant 0 <= k <= |cs| && p.Length == n
      invariant Fits(cs[..k], n)
      invariant p[..] == EditAll(s, cs[..k])
      invariant perms == EditTrace(s, cs[..k])
    {
      var c := cs[k];
      assert cs[..k + 1] == cs[..k] + [c];
      EditTraceSnoc(s, cs[..k], c);
      EditInPlace(p, c);
      perms := perms + [p[..]];
      k := k + 1;
    }
    assert cs[..k] == cs;
  }
}
