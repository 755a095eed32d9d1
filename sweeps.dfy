/**
 * Applying a stream of swap positions to a sequence, and the shape of the
 * resulting list of states when the stream comes from Weave.
 *
 * A change x with gap g exchanges positions x and x+g (g = 1 for the
 * Steinhaus-Johnson-Trotter and double-permutation wrappers, g = 2 for the
 * Stirling wrapper).  Trace(s, cs, g) is the list of objects a wrapper
 * yields: the initial object followed by the object after each change.
 *
 * The central fact (WeaveTrace) is that applying a woven stream sweeps a
 * block of g equal items from one end of a smaller object to the other and
 * back, applying one change of the child stream to the smaller object each
 * time the block reaches an end: the states are Ins(q, block, p) for every
 * state q of the child and every insertion point p, in boustrophedon order.
 */
module Sweeps {
  import opened Changes

  /** Every change of `cs` swaps two positions inside a sequence of length `len`. */
  predicate InBounds(cs: seq<int>, len: nat, gap: nat)
  {
    forall i :: 0 <= i < |cs| ==> 0 <= cs[i] && cs[i] + gap < len
  }

  /** `perm[c], perm[c+gap] = perm[c+gap], perm[c]` */
  function Swap<T>(s: seq<T>, c: int, gap: nat): (r: seq<T>)
    requires 0 <= c && c + gap < |s|
    ensures |r| == |s|
    ensures r[c] == s[c + gap] && r[c + gap] == s[c]
    ensures forall i :: 0 <= i < |s| && i != c && i != c + gap ==> r[i] == s[i]
  {
    s[c := s[c + gap]][c + gap := s[c]]
  }

  /** The object after every change of `cs` has been applied to `s`. */
  function Apply<T>(s: seq<T>, cs: seq<int>, gap: nat): (r: seq<T>)
    requires InBounds(cs, |s|, gap)
    ensures |r| == |s|
    decreases |cs|
  {
    if cs == [] then s else Apply(Swap(s, cs[0], gap), cs[1..], gap)
  }

  /** The objects after each change of `cs`, in order. */
  function Steps<T>(s: seq<T>, cs: seq<int>, gap: nat): (r: seq<seq<T>>)
    requires InBounds(cs, |s|, gap)
    ensures |r| == |cs|
    ensures forall i :: 0 <= i < |r| ==> |r[i]| == |s|
    decreases |cs|
  {
    if cs == [] then []
    else var t := Swap(s, cs[0], gap); [t] + Steps(t, cs[1..], gap)
  }

  /** Everything a wrapper yields: the initial object, then the object after each change. */
  function Trace<T>(s: seq<T>, cs: seq<int>, gap: nat): (r: seq<seq<T>>)
    requires InBounds(cs, |s|, gap)
    ensures |r| == |cs| + 1 && r[0] == s
    ensures forall i :: 0 <= i < |r| ==> |r[i]| == |s|
  {
    [s] + Steps(s, cs, gap)
  }

  // ---------------------------------------------------------------------
  // Basic facts about traces

  lemma InBoundsSplit(a: seq<int>, b: seq<int>, len: nat, gap: nat)
    ensures InBounds(a + b, len, gap) <==> InBounds(a, len, gap) && InBounds(b, len, gap)
  {
    if InBounds(a, len, gap) && InBounds(b, len, gap) {
      forall i | 0 <= i < |a + b| ensures 0 <= (a + b)[i] && (a + b)[i] + gap < len {
        if i >= |a| { assert (a + b)[i] == b[i - |a|]; }
      }
    }
    if InBounds(a + b, len, gap) {
      forall i | 0 <= i < |a| ensures 0 <= a[i] && a[i] + gap < len {
        assert (a + b)[i] == a[i];
      }
      forall i | 0 <= i < |b| ensures 0 <= b[i] && b[i] + gap < len {
        assert (a + b)[|a| + i] == b[i];
      }
    }
  }

  /** A stream whose values lie in [0, len-1-gap] swaps in bounds. */
  lemma WithinInBounds(cs: seq<int>, len: nat, gap: nat)
    requires Within(cs, 0, len - 1 - gap)
    ensures InBounds(cs, len, gap)
  {
  }

  lemma InBoundsPrefix(cs: seq<int>, k: nat, len: nat, gap: nat)
    requires InBounds(cs, len, gap) && k <= |cs|
    ensures InBounds(cs[..k], len, gap)
  {
    assert forall i :: 0 <= i < k ==> cs[..k][i] == cs[i];
  }

  /** Applying a + b is applying a, then b. */
  lemma {:induction false} StepsConcat<T>(s: seq<T>, a: seq<int>, b: seq<int>, gap: nat)
    requires InBounds(a + b, |s|, gap)
    ensures InBounds(a, |s|, gap) && InBounds(b, |s|, gap)
    ensures Apply(s, a + b, gap) == Apply(Apply(s, a, gap), b, gap)
    ensures Steps(s, a + b, gap) == Steps(s, a, gap) + Steps(Apply(s, a, gap), b, gap)
    decreases |a|
  {
    InBoundsSplit(a, b, |s|, gap);
    if a != [] {
      var t := Swap(s, a[0], gap);
      assert (a + b)[0] == a[0] && (a + b)[1..] == a[1..] + b;
      StepsConcat(t, a[1..], b, gap);
      assert Apply(s, a + b, gap) == Apply(t, a[1..] + b, gap);
      assert Apply(s, a, gap) == Apply(t, a[1..], gap);
      assert Steps(s, a + b, gap) == [t] + Steps(t, a[1..] + b, gap);
      assert Steps(s, a, gap) == [t] + Steps(t, a[1..], gap);
    } else {
      assert a + b == b;
    }
  }

  lemma TraceConcat<T>(s: seq<T>, a: seq<int>, b: seq<int>, gap: nat)
    requires InBounds(a + b, |s|, gap)
    ensures InBounds(a, |s|, gap) && InBounds(b, |s|, gap)
    ensures Trace(s, a + b, gap) == Trace(s, a, gap) + Steps(Apply(s, a, gap), b, gap)
  {
    StepsConcat(s, a, b, gap);
  }

  /** The last object of a trace is the result of applying all changes. */
  lemma {:induction false} TraceLast<T>(s: seq<T>, cs: seq<int>, gap: nat)
    requires InBounds(cs, |s|, gap)
    ensures Trace(s, cs, gap)[|cs|] == Apply(s, cs, gap)
    decreases |cs|
  {
    if cs != [] {
      TraceLast(Swap(s, cs[0], gap), cs[1..], gap);
    }
  }

  /** Consecutive objects of a trace differ by the swap the change names. */
  lemma {:induction false} TraceStep<T>(s: seq<T>, cs: seq<int>, gap: nat, k: nat)
    requires InBounds(cs, |s|, gap) && k < |cs|
    ensures |Trace(s, cs, gap)[k]| == |s|
    ensures Trace(s, cs, gap)[k + 1] == Swap(Trace(s, cs, gap)[k], cs[k], gap)
    decreases k
  {
    if k > 0 {
      TraceStep(Swap(s, cs[0], gap), cs[1..], gap, k - 1);
    }
  }

  /** Appending one change appends one state: the shape of a wrapper's loop. */
  lemma TraceSnoc<T>(s: seq<T>, cs: seq<int>, c: int, gap: nat)
    requires InBounds(cs + [c], |s|, gap)
    ensures InBounds(cs, |s|, gap) && 0 <= c && c + gap < |s|
    ensures Apply(s, cs + [c], gap) == Swap(Apply(s, cs, gap), c, gap)
    ensures Trace(s, cs + [c], gap) == Trace(s, cs, gap) + [Swap(Apply(s, cs, gap), c, gap)]
  {
    StepsConcat(s, cs, [c], gap);
    assert [c][0] == c;
    var last := Apply(s, cs, gap);
    assert [c][1..] == [];
    assert Apply(s, cs + [c], gap) == Apply(last, [c], gap);
    assert Apply(last, [c], gap) == Apply(Swap(last, c, gap), [], gap);
    assert Steps(last, [c], gap) == [Swap(last, c, gap)] + Steps(Swap(last, c, gap), [], gap);
  }

  /** Every object of a trace holds the same items as the initial one. */
  lemma {:induction false} TraceMultiset<T>(s: seq<T>, cs: seq<int>, gap: nat, k: nat)
    requires InBounds(cs, |s|, gap) && k <= |cs|
    ensures multiset(Trace(s, cs, gap)[k]) == multiset(s)
    decreases k
  {
    if k > 0 {
      TraceMultiset(s, cs, gap, k - 1);
      TraceStep(s, cs, gap, k - 1);
      SwapMultiset(Trace(s, cs, gap)[k - 1], cs[k - 1], gap);
    }
  }

  lemma SwapMultiset<T>(s: seq<T>, c: int, gap: nat)
    requires 0 <= c && c + gap < |s|
    ensures multiset(Swap(s, c, gap)) == multiset(s)
  {
    if gap > 0 {
      var t := s[c := s[c + gap]];
      UpdateMultiset(s, c, s[c + gap]);
      UpdateMultiset(t, c + gap, s[c]);
      assert t[c + gap] == s[c + gap];
      assert s[c] in multiset(s);
    }
  }

  lemma UpdateMultiset<T>(s: seq<T>, i: int, v: T)
    requires 0 <= i < |s|
    ensures multiset(s[i := v]) == multiset(s) - multiset{s[i]} + multiset{v}
  {
  }

  /** Shifting every position by one and putting a fixed item in front commute with tracing. */
  function Shift(cs: seq<int>, d: int): (r: seq<int>)
    ensures |r| == |cs|
  {
    seq(|cs|, i requires 0 <= i < |cs| => cs[i] + d)
  }

  lemma {:induction false} TracePrefix<T>(f: T, s: seq<T>, cs: seq<int>)
    requires InBounds(cs, |s|, 1)
    ensures InBounds(Shift(cs, 1), |s| + 1, 1)
    ensures Trace([f] + s, Shift(cs, 1), 1) == Prefix(f, Trace(s, cs, 1))
    decreases |cs|
  {
    if cs != [] {
      var t := Swap(s, cs[0], 1);
      assert Swap([f] + s, cs[0] + 1, 1) == [f] + t;
      assert Shift(cs, 1)[1..] == Shift(cs[1..], 1);
      TracePrefix(f, t, cs[1..]);
    }
  }

  /** Puts `f` in front of every state. */
  function Prefix<T>(f: T, ss: seq<seq<T>>): (r: seq<seq<T>>)
    ensures |r| == |ss|
    ensures forall i :: 0 <= i < |ss| ==> r[i] == [f] + ss[i]
    decreases |ss|
  {
    if ss == [] then [] else [[f] + ss[0]] + Prefix(f, ss[1..])
  }

  // ---------------------------------------------------------------------
  // Sweeping a block of equal items

  /** w copies of x. */
  function Block<T>(x: T, w: nat): (b: seq<T>)
    ensures |b| == w
  {
    seq(w, _ => x)
  }

  /** `s` with `b` inserted before position p. */
  function Ins<T>(s: seq<T>, b: seq<T>, p: nat): (r: seq<T>)
    requires p <= |s|
    ensures |r| == |s| + |b|
  {
    s[..p] + b + s[p..]
  }

  lemma InsAt<T>(s: seq<T>, b: seq<T>, p: nat, i: int)
    requires p <= |s| && 0 <= i < |s| + |b|
    ensures Ins(s, b, p)[i] == if i < p then s[i] else if i < p + |b| then b[i - p] else s[i - |b|]
  {
  }

  /** Inserting at the ends is prepending and appending. */
  lemma InsEnds<T>(s: seq<T>, b: seq<T>)
    ensures Ins(s, b, 0) == b + s && Ins(s, b, |s|) == s + b
  {
    assert s[..0] == [] && s[0..] == s && s[..|s|] == s && s[|s|..] == [];
  }

  /** Swapping the item left of the block with the block's last item moves the block one place left. */
  lemma InsMoveLeft<T>(s: seq<T>, x: T, w: nat, p: nat)
    requires w >= 1 && 1 <= p <= |s|
    ensures Swap(Ins(s, Block(x, w), p), p - 1, w) == Ins(s, Block(x, w), p - 1)
  {
    var b := Block(x, w);
    var l, r := Swap(Ins(s, b, p), p - 1, w), Ins(s, b, p - 1);
    forall i | 0 <= i < |l| ensures l[i] == r[i] {
      InsAt(s, b, p, i);
      InsAt(s, b, p - 1, i);
      InsAt(s, b, p, p - 1);
      InsAt(s, b, p, p - 1 + w);
    }
  }

  /** Swapping the block's first item with the item right of it moves the block one place right. */
  lemma InsMoveRight<T>(s: seq<T>, x: T, w: nat, p: nat)
    requires w >= 1 && p < |s|
    ensures Swap(Ins(s, Block(x, w), p), p, w) == Ins(s, Block(x, w), p + 1)
  {
    InsMoveLeft(s, x, w, p + 1);
  }

  /** With the block at the front, a change shifted by w acts on the rest. */
  lemma InsSwapFront<T>(s: seq<T>, b: seq<T>, c: int)
    requires 0 <= c && c + |b| < |s|
    ensures Swap(Ins(s, b, 0), c + |b|, |b|) == Ins(Swap(s, c, |b|), b, 0)
  {
    assert Ins(s, b, 0) == b + s;
    assert Ins(Swap(s, c, |b|), b, 0) == b + Swap(s, c, |b|);
  }

  /** With the block at the end, a change acts on the rest unshifted. */
  lemma InsSwapBack<T>(s: seq<T>, b: seq<T>, c: int)
    requires 0 <= c && c + |b| < |s|
    ensures Swap(Ins(s, b, |s|), c, |b|) == Ins(Swap(s, c, |b|), b, |s|)
  {
    assert Ins(s, b, |s|) == s + b;
    assert Ins(Swap(s, c, |b|), b, |s|) == Swap(s, c, |b|) + b;
  }

  /** Ins(s, b, p), Ins(s, b, p - 1), ..., Ins(s, b, 0). */
  function Down<T>(s: seq<T>, b: seq<T>, p: nat): (r: seq<seq<T>>)
    requires p <= |s|
    ensures |r| == p + 1
    decreases p
  {
    if p == 0 then [Ins(s, b, 0)] else [Ins(s, b, p)] + Down(s, b, p - 1)
  }

  /** Ins(s, b, p), Ins(s, b, p + 1), ..., Ins(s, b, |s|). */
  function Up<T>(s: seq<T>, b: seq<T>, p: nat): (r: seq<seq<T>>)
    requires p <= |s|
    ensures |r| == |s| - p + 1
    decreases |s| - p
  {
    if p == |s| then [Ins(s, b, p)] else [Ins(s, b, p)] + Up(s, b, p + 1)
  }

  /** The |s|+1 placements of `b` in `s`, from the end to the front (atEnd) or from the front to the end. */
  function Sweep<T>(s: seq<T>, b: seq<T>, atEnd: bool): (r: seq<seq<T>>)
    ensures |r| == |s| + 1
  {
    if atEnd then Down(s, b, |s|) else Up(s, b, 0)
  }

  lemma {:induction false} DownAt<T>(s: seq<T>, b: seq<T>, p: nat, i: nat)
    requires p <= |s| && i <= p
    ensures Down(s, b, p)[i] == Ins(s, b, p - i)
    decreases p
  {
    if i > 0 {
      DownAt(s, b, p - 1, i - 1);
    }
  }

  lemma {:induction false} UpAt<T>(s: seq<T>, b: seq<T>, p: nat, i: nat)
    requires p + i <= |s|
    ensures Up(s, b, p)[i] == Ins(s, b, p + i)
    decreases i
  {
    if i > 0 {
      UpAt(s, b, p + 1, i - 1);
    }
  }

  /** The i-th entry of a sweep places the block at |s| - i (atEnd) or at i. */
  lemma SweepAt<T>(s: seq<T>, b: seq<T>, atEnd: bool, i: nat)
    requires i <= |s|
    ensures Sweep(s, b, atEnd)[i] == Ins(s, b, if atEnd then |s| - i else i)
  {
    if atEnd {
      DownAt(s, b, |s|, i);
    } else {
      UpAt(s, b, 0, i);
    }
  }

  /** Sweeps of `b` over qs[k], qs[k+1], ..., alternating direction. */
  function SweepAll<T>(qs: seq<seq<T>>, b: seq<T>, k: nat, atEnd: bool): seq<seq<T>>
    requires k <= |qs|
    decreases |qs| - k
  {
    if k == |qs| then [] else Sweep(qs[k], b, atEnd) + SweepAll(qs, b, k + 1, !atEnd)
  }

  /** A trace is its first state followed by the trace from the state after the first change. */
  lemma TraceCons<T>(s: seq<T>, cs: seq<int>, gap: nat)
    requires InBounds(cs, |s|, gap) && cs != []
    ensures InBounds(cs[1..], |s|, gap) && 0 <= cs[0] && cs[0] + gap < |s|
    ensures Trace(s, cs, gap) == [s] + Trace(Swap(s, cs[0], gap), cs[1..], gap)
  {
  }

  /** The run p-1, ..., 0 moves the block from position p to the front, one place at a time. */
  lemma {:induction false} TraceDown<T>(s: seq<T>, x: T, w: nat, p: nat)
    requires w >= 1 && p <= |s|
    ensures InBounds(CountDown(p - 1, -1), |s| + w, w)
    ensures Trace(Ins(s, Block(x, w), p), CountDown(p - 1, -1), w) == Down(s, Block(x, w), p)
    decreases p
  {
    var b, run := Block(x, w), CountDown(p - 1, -1);
    if p > 0 {
      assert run[0] == p - 1 && run[1..] == CountDown(p - 2, -1);
      assert InBounds(run[1..], |s| + w, w) && Trace(Ins(s, b, p - 1), run[1..], w) == Down(s, b, p - 1) by {
        TraceDown(s, x, w, p - 1);
      }
      assert Swap(Ins(s, b, p), p - 1, w) == Ins(s, b, p - 1) by {
        InsMoveLeft(s, x, w, p);
      }
      assert InBounds(run, |s| + w, w) by {
        assert run == [p - 1] + run[1..];
        InBoundsSplit([p - 1], run[1..], |s| + w, w);
      }
      TraceCons(Ins(s, b, p), run, w);
    } else {
      assert run == [];
    }
  }

  /** The run p, ..., |s|-1 moves the block from position p to the end, one place at a time. */
  lemma {:induction false} TraceUp<T>(s: seq<T>, x: T, w: nat, p: nat)
    requires w >= 1 && p <= |s|
    ensures InBounds(CountUp(p, |s|), |s| + w, w)
    ensures Trace(Ins(s, Block(x, w), p), CountUp(p, |s|), w) == Up(s, Block(x, w), p)
    decreases |s| - p
  {
    var b, run := Block(x, w), CountUp(p, |s|);
    if p < |s| {
      assert run[0] == p && run[1..] == CountUp(p + 1, |s|);
      assert InBounds(run[1..], |s| + w, w) && Trace(Ins(s, b, p + 1), run[1..], w) == Up(s, b, p + 1) by {
        TraceUp(s, x, w, p + 1);
      }
      assert Swap(Ins(s, b, p), p, w) == Ins(s, b, p + 1) by {
        InsMoveRight(s, x, w, p);
      }
      assert InBounds(run, |s| + w, w) by {
        assert run == [p] + run[1..];
        InBoundsSplit([p], run[1..], |s| + w, w);
      }
      TraceCons(Ins(s, b, p), run, w);
    } else {
      assert run == [];
    }
  }

  /** The run that sweeps the block across a sequence of length m, starting at the end or at the front. */
  function Run(m: int, atEnd: bool): seq<int>
  {
    if atEnd then CountDown(m - 1, -1) else CountUp(0, m)
  }

  /** The offset of a child change, read when the block has just arrived at the front (w) or at the end (0). */
  function Offset(w: nat, atEnd: bool): int
  {
    if atEnd then w else 0
  }

  /** The woven stream whose block starts at the end (fromEnd) or at the front. */
  function Passes(rec: seq<int>, k: nat, m: int, w: nat, fromEnd: bool): seq<int>
    requires k <= |rec|
  {
    Weave(rec, k, Run(m, fromEnd), Run(m, !fromEnd), Offset(w, fromEnd), Offset(w, !fromEnd))
  }

  /** Where the block sits before (atEnd: at the end) and after a run. */
  function Side(m: nat, atEnd: bool): nat
  {
    if atEnd then m else 0
  }

  lemma SweepRun<T>(s: seq<T>, m: nat, x: T, w: nat, atEnd: bool)
    requires w >= 1 && |s| == m
    ensures InBounds(Run(m, atEnd), m + w, w)
    ensures Trace(Ins(s, Block(x, w), Side(m, atEnd)), Run(m, atEnd), w) == Sweep(s, Block(x, w), atEnd)
    ensures Apply(Ins(s, Block(x, w), Side(m, atEnd)), Run(m, atEnd), w) == Ins(s, Block(x, w), Side(m, !atEnd))
  {
    var b, run := Block(x, w), Run(m, atEnd);
    var start := Ins(s, b, Side(m, atEnd));
    assert InBounds(run, m + w, w) && Trace(start, run, w) == Sweep(s, b, atEnd) by {
      if atEnd {
        TraceDown(s, x, w, m);
      } else {
        TraceUp(s, x, w, 0);
      }
    }
    assert Trace(start, run, w)[|run|] == Apply(start, run, w) by {
      TraceLast(start, run, w);
    }
    SweepAt(s, b, atEnd, m);
  }

  /** After a run the block sits at the other end, where a child change moves by Offset. */
  lemma InsSwapSide<T>(q: seq<T>, m: nat, x: T, w: nat, atEnd: bool, r: int)
    requires w >= 1 && |q| == m && 0 <= r && r + w < m
    ensures 0 <= r + Offset(w, atEnd) && r + Offset(w, atEnd) + w < m + w
    ensures Swap(Ins(q, Block(x, w), Side(m, !atEnd)), r + Offset(w, atEnd), w)
            == Ins(Swap(q, r, w), Block(x, w), Side(m, !atEnd))
  {
    if atEnd {
      InsSwapFront(q, Block(x, w), r);
    } else {
      InsSwapBack(q, Block(x, w), r);
    }
  }

  /** qs lists the states of a sequence of length m as the changes of rec act on it. */
  ghost predicate Chain<T>(qs: seq<seq<T>>, rec: seq<int>, m: nat, w: nat)
  {
    && |qs| == |rec| + 1
    && (forall j :: 0 <= j < |qs| ==> |qs[j]| == m)
    && (forall j :: 0 <= j < |rec| ==> 0 <= rec[j] && rec[j] + w < m && qs[j + 1] == Swap(qs[j], rec[j], w))
  }

  lemma TraceChain<T>(s: seq<T>, cs: seq<int>, w: nat)
    requires InBounds(cs, |s|, w)
    ensures Chain(Trace(s, cs, w), cs, |s|, w)
  {
    forall j | 0 <= j < |cs| ensures Trace(s, cs, w)[j + 1] == Swap(Trace(s, cs, w)[j], cs[j], w) {
      TraceStep(s, cs, w, j);
    }
  }

  /**
   * Applying the woven stream from round k on, starting with the block at the
   * end matching round k, yields exactly the sweeps of the block over the
   * child's states k, k+1, ...
   */
  lemma {:induction false} WeaveChain<T>(qs: seq<seq<T>>, rec: seq<int>, m: nat, x: T, w: nat, fromEnd: bool, k: nat, atEnd: bool)
    requires w >= 1 && Chain(qs, rec, m, w) && k <= |rec|
    requires atEnd == ((k % 2 == 0) == fromEnd)
    ensures InBounds(Passes(rec, k, m, w, fromEnd), m + w, w)
    ensures Trace(Ins(qs[k], Block(x, w), Side(m, atEnd)), Passes(rec, k, m, w, fromEnd), w)
            == SweepAll(qs, Block(x, w), k, atEnd)
    decreases |rec| - k, 1
  {
    if k == |rec| {
      LastRound(qs, rec, m, x, w, fromEnd, k, atEnd);
    } else {
      WeaveChainNext(qs, rec, m, x, w, fromEnd, k, atEnd);
    }
  }

  lemma {:induction false} WeaveChainNext<T>(qs: seq<seq<T>>, rec: seq<int>, m: nat, x: T, w: nat, fromEnd: bool, k: nat, atEnd: bool)
    requires w >= 1 && Chain(qs, rec, m, w) && k < |rec|
    requires atEnd == ((k % 2 == 0) == fromEnd)
    ensures InBounds(Passes(rec, k, m, w, fromEnd), m + w, w)
    ensures Trace(Ins(qs[k], Block(x, w), Side(m, atEnd)), Passes(rec, k, m, w, fromEnd), w)
            == SweepAll(qs, Block(x, w), k, atEnd)
    decreases |rec| - k, 0
  {
    Parity(k);
    WeaveChain(qs, rec, m, x, w, fromEnd, k + 1, !atEnd);
    WeaveJoin(qs, rec, m, x, w, fromEnd, k, atEnd);
  }

  /** Round k in front of the rounds from k+1 on. */
  lemma WeaveJoin<T>(qs: seq<seq<T>>, rec: seq<int>, m: nat, x: T, w: nat, fromEnd: bool, k: nat, atEnd: bool)
    requires w >= 1 && Chain(qs, rec, m, w) && k < |rec|
    requires atEnd == ((k % 2 == 0) == fromEnd)
    requires InBounds(Passes(rec, k + 1, m, w, fromEnd), m + w, w)
    requires Trace(Ins(qs[k + 1], Block(x, w), Side(m, !atEnd)), Passes(rec, k + 1, m, w, fromEnd), w)
             == SweepAll(qs, Block(x, w), k + 1, !atEnd)
    ensures InBounds(Passes(rec, k, m, w, fromEnd), m + w, w)
    ensures Trace(Ins(qs[k], Block(x, w), Side(m, atEnd)), Passes(rec, k, m, w, fromEnd), w)
            == SweepAll(qs, Block(x, w), k, atEnd)
  {
    ChainAt(qs, rec, m, w, k);
    PassesStep(rec, k, m, w, fromEnd, atEnd);
    NextRound(qs, rec, m, x, w, k, atEnd, Passes(rec, k + 1, m, w, fromEnd));
  }

  lemma PassesStep(rec: seq<int>, k: nat, m: int, w: nat, fromEnd: bool, atEnd: bool)
    requires k < |rec| && atEnd == ((k % 2 == 0) == fromEnd)
    ensures Passes(rec, k, m, w, fromEnd) == Run(m, atEnd) + [rec[k] + Offset(w, atEnd)] + Passes(rec, k + 1, m, w, fromEnd)
  {
    PassesUnfold(rec, k, m, w, fromEnd);
  }

  lemma ChainAt<T>(qs: seq<seq<T>>, rec: seq<int>, m: nat, w: nat, k: nat)
    requires Chain(qs, rec, m, w) && k < |rec|
    ensures |qs[k]| == m && 0 <= rec[k] && rec[k] + w < m && qs[k + 1] == Swap(qs[k], rec[k], w)
  {
  }

  lemma LastRound<T>(qs: seq<seq<T>>, rec: seq<int>, m: nat, x: T, w: nat, fromEnd: bool, k: nat, atEnd: bool)
    requires w >= 1 && Chain(qs, rec, m, w) && k == |rec|
    requires atEnd == ((k % 2 == 0) == fromEnd)
    ensures InBounds(Passes(rec, k, m, w, fromEnd), m + w, w)
    ensures Trace(Ins(qs[k], Block(x, w), Side(m, atEnd)), Passes(rec, k, m, w, fromEnd), w)
            == SweepAll(qs, Block(x, w), k, atEnd)
  {
    assert Passes(rec, k, m, w, fromEnd) == Run(m, atEnd) by {
      PassesUnfold(rec, k, m, w, fromEnd);
    }
    SweepRun(qs[k], m, x, w, atEnd);
    SweepAllUnfold(qs, Block(x, w), k, atEnd);
    assert SweepAll(qs, Block(x, w), k + 1, !atEnd) == [];
    assert Sweep(qs[k], Block(x, w), atEnd) + [] == Sweep(qs[k], Block(x, w), atEnd);
  }

  lemma NextRound<T>(qs: seq<seq<T>>, rec: seq<int>, m: nat, x: T, w: nat, k: nat, atEnd: bool, rest: seq<int>)
    requires w >= 1 && |qs| == |rec| + 1 && k < |rec|
    requires |qs[k]| == m && 0 <= rec[k] && rec[k] + w < m && qs[k + 1] == Swap(qs[k], rec[k], w)
    requires InBounds(rest, m + w, w)
    requires Trace(Ins(qs[k + 1], Block(x, w), Side(m, !atEnd)), rest, w) == SweepAll(qs, Block(x, w), k + 1, !atEnd)
    ensures InBounds(Run(m, atEnd) + [rec[k] + Offset(w, atEnd)] + rest, m + w, w)
    ensures Trace(Ins(qs[k], Block(x, w), Side(m, atEnd)), Run(m, atEnd) + [rec[k] + Offset(w, atEnd)] + rest, w)
            == SweepAll(qs, Block(x, w), k, atEnd)
  {
    SweepAllUnfold(qs, Block(x, w), k, atEnd);
    RoundGlue(qs[k], qs[k + 1], m, x, w, atEnd, rec[k], rest, SweepAll(qs, Block(x, w), k + 1, !atEnd), SweepAll(qs, Block(x, w), k, atEnd));
  }

  /** RoundTrace, with the sweeps of the later rounds named: t1 for round k+1 on, t0 for round k on. */
  lemma RoundGlue<T>(q: seq<T>, q1: seq<T>, m: nat, x: T, w: nat, atEnd: bool, r: int, rest: seq<int>, t1: seq<seq<T>>, t0: seq<seq<T>>)
    requires w >= 1 && |q| == m && 0 <= r && r + w < m && q1 == Swap(q, r, w)
    requires InBounds(rest, m + w, w)
    requires Trace(Ins(q1, Block(x, w), Side(m, !atEnd)), rest, w) == t1
    requires t0 == Sweep(q, Block(x, w), atEnd) + t1
    ensures InBounds(Run(m, atEnd) + [r + Offset(w, atEnd)] + rest, m + w, w)
    ensures Trace(Ins(q, Block(x, w), Side(m, atEnd)), Run(m, atEnd) + [r + Offset(w, atEnd)] + rest, w) == t0
  {
    RoundTrace(q, q1, m, x, w, atEnd, r, rest);
    Glue(Trace(Ins(q, Block(x, w), Side(m, atEnd)), Run(m, atEnd) + [r + Offset(w, atEnd)] + rest, w), Sweep(q, Block(x, w), atEnd),
         Trace(Ins(q1, Block(x, w), Side(m, !atEnd)), rest, w), t1, t0);
  }

  /** Proof step, no property of the model: replacing the tail of a concatenation by an equal one. */
  lemma Glue<T>(s: seq<T>, a: seq<T>, t: seq<T>, t': seq<T>, s': seq<T>)
    requires s == a + t && t == t' && s' == a + t'
    ensures s == s'
  {
  }

  lemma SweepAllUnfold<T>(qs: seq<seq<T>>, b: seq<T>, k: nat, atEnd: bool)
    requires k < |qs|
    ensures SweepAll(qs, b, k, atEnd) == Sweep(qs[k], b, atEnd) + SweepAll(qs, b, k + 1, !atEnd)
  {
  }

  /** The trace of a woven stream over the trace of its child stream. */
  lemma WeaveTrace<T>(s0: seq<T>, rec: seq<int>, x: T, w: nat, fromEnd: bool)
    requires w >= 1 && InBounds(rec, |s0|, w)
    ensures InBounds(Passes(rec, 0, |s0|, w, fromEnd), |s0| + w, w)
    ensures Trace(Ins(s0, Block(x, w), Side(|s0|, fromEnd)), Passes(rec, 0, |s0|, w, fromEnd), w)
            == SweepAll(Trace(s0, rec, w), Block(x, w), 0, fromEnd)
  {
    TraceChain(s0, rec, w);
    WeaveChain(Trace(s0, rec, w), rec, |s0|, x, w, fromEnd, 0, fromEnd);
  }

  /** WeaveTrace with the grown start state and the child trace named by the caller. */
  lemma WeaveTraceAt<T>(s0: seq<T>, rec: seq<int>, x: T, w: nat, fromEnd: bool, m: nat, s1: seq<T>, qs: seq<seq<T>>)
    requires w >= 1 && |s0| == m && InBounds(rec, m, w)
    requires s1 == Ins(s0, Block(x, w), Side(m, fromEnd)) && Trace(s0, rec, w) == qs
    ensures InBounds(Passes(rec, 0, m, w, fromEnd), m + w, w)
    ensures Trace(s1, Passes(rec, 0, m, w, fromEnd), w) == SweepAll(qs, Block(x, w), 0, fromEnd)
  {
    WeaveTrace(s0, rec, x, w, fromEnd);
  }

  lemma Parity(k: nat)
    ensures ((k + 1) % 2 == 0) == (k % 2 != 0)
  {
  }

  /** One round of Passes: the run for the block's current side, then one shifted child value. */
  lemma PassesUnfold(rec: seq<int>, k: nat, m: int, w: nat, fromEnd: bool)
    requires k <= |rec|
    ensures var atEnd := (k % 2 == 0) == fromEnd;
      Passes(rec, k, m, w, fromEnd)
      == if k == |rec| then Run(m, atEnd)
         else Run(m, atEnd) + [rec[k] + Offset(w, atEnd)] + Passes(rec, k + 1, m, w, fromEnd)
  {
  }

  /** Applying c, then the rest: the steps are the trace from the state after c. */
  lemma StepsCons<T>(s: seq<T>, c: int, rest: seq<int>, gap: nat)
    requires 0 <= c && c + gap < |s| && InBounds(rest, |s|, gap)
    ensures InBounds([c] + rest, |s|, gap)
    ensures Steps(s, [c] + rest, gap) == Trace(Swap(s, c, gap), rest, gap)
  {
    var cs := [c] + rest;
    assert cs[0] == c && cs[1..] == rest;
  }

  /** A run, one more change, then the rest: the trace splits at the extra change. */
  lemma TraceRound<T>(s: seq<T>, run: seq<int>, c: int, rest: seq<int>, gap: nat)
    requires InBounds(run, |s|, gap) && 0 <= c && c + gap < |s| && InBounds(rest, |s|, gap)
    ensures InBounds(run + [c] + rest, |s|, gap)
    ensures Trace(s, run + [c] + rest, gap) == Trace(s, run, gap) + Trace(Swap(Apply(s, run, gap), c, gap), rest, gap)
  {
    var e, tail := Apply(s, run, gap), [c] + rest;
    assert InBounds(tail, |s|, gap) && Steps(e, tail, gap) == Trace(Swap(e, c, gap), rest, gap) by {
      StepsCons(e, c, rest, gap);
    }
    assert run + [c] + rest == run + tail;
    assert InBounds(run + tail, |s|, gap) by {
      InBoundsSplit(run, tail, |s|, gap);
    }
    TraceConcat(s, run, tail, gap);
  }

  /** One round: sweep the block across q, then apply the child change r, offset by the block's side. */
  lemma RoundTrace<T>(q: seq<T>, q1: seq<T>, m: nat, x: T, w: nat, atEnd: bool, r: int, rest: seq<int>)
    requires w >= 1 && |q| == m && 0 <= r && r + w < m && q1 == Swap(q, r, w)
    requires InBounds(rest, m + w, w)
    ensures InBounds(Run(m, atEnd) + [r + Offset(w, atEnd)] + rest, m + w, w)
    ensures Trace(Ins(q, Block(x, w), Side(m, atEnd)), Run(m, atEnd) + [r + Offset(w, atEnd)] + rest, w)
            == Sweep(q, Block(x, w), atEnd) + Trace(Ins(q1, Block(x, w), Side(m, !atEnd)), rest, w)
  {
    SweepThenChange(q, m, x, w, atEnd, r);
    TraceRoundWith(Ins(q, Block(x, w), Side(m, atEnd)), m + w, Run(m, atEnd), r + Offset(w, atEnd), rest, w,
                   Sweep(q, Block(x, w), atEnd), Ins(q1, Block(x, w), Side(m, !atEnd)));
  }

  /** TraceRound, with the trace of the run and the state after the extra change named. */
  lemma TraceRoundWith<T>(s: seq<T>, len: nat, run: seq<int>, c: int, rest: seq<int>, gap: nat, sw: seq<seq<T>>, t: seq<T>)
    requires |s| == len && InBounds(run, len, gap) && 0 <= c && c + gap < len && InBounds(rest, len, gap)
    requires Trace(s, run, gap) == sw && Swap(Apply(s, run, gap), c, gap) == t
    ensures InBounds(run + [c] + rest, len, gap)
    ensures Trace(s, run + [c] + rest, gap) == sw + Trace(t, rest, gap)
  {
    var tr, tr' := Trace(s, run, gap), Trace(Swap(Apply(s, run, gap), c, gap), rest, gap);
    TraceRound(s, run, c, rest, gap);
    assert tr == sw && tr' == Trace(t, rest, gap);
  }

  /** The sweep over q, and where the next child change takes the block's row afterwards. */
  lemma SweepThenChange<T>(q: seq<T>, m: nat, x: T, w: nat, atEnd: bool, r: int)
    requires w >= 1 && |q| == m && 0 <= r && r + w < m
    ensures |Ins(q, Block(x, w), Side(m, atEnd))| == m + w
    ensures InBounds(Run(m, atEnd), m + w, w)
    ensures Trace(Ins(q, Block(x, w), Side(m, atEnd)), Run(m, atEnd), w) == Sweep(q, Block(x, w), atEnd)
    ensures 0 <= r + Offset(w, atEnd) && r + Offset(w, atEnd) + w < m + w
    ensures Swap(Apply(Ins(q, Block(x, w), Side(m, atEnd)), Run(m, atEnd), w), r + Offset(w, atEnd), w)
            == Ins(Swap(q, r, w), Block(x, w), Side(m, !atEnd))
  {
    SweepRun(q, m, x, w, atEnd);
    InsSwapSide(q, m, x, w, atEnd, r);
  }

  // ---------------------------------------------------------------------
  // Distinctness and membership of sweeps

  /** No two entries of `ss` are equal. */
  ghost predicate Distinct<T>(ss: seq<T>)
  {
    forall i, j :: 0 <= i < j < |ss| ==> ss[i] != ss[j]
  }

  lemma DistinctConcat<T>(a: seq<T>, b: seq<T>)
    requires Distinct(a) && Distinct(b)
    requires forall i, j :: 0 <= i < |a| && 0 <= j < |b| ==> a[i] != b[j]
    ensures Distinct(a + b)
  {
    forall i, j | 0 <= i < j < |a + b| ensures (a + b)[i] != (a + b)[j] {
      if j < |a| {
      } else if i >= |a| {
        assert (a + b)[i] == b[i - |a|] && (a + b)[j] == b[j - |a|];
      } else {
        assert (a + b)[j] == b[j - |a|];
      }
    }
  }

  /** A block of items absent from `s` marks where it was inserted, so an insertion determines `s` and p. */
  lemma InsInjective<T>(s: seq<T>, s': seq<T>, x: T, w: nat, p: nat, p': nat)
    requires w >= 1 && p <= |s| && p' <= |s'| && |s| == |s'|
    requires x !in s && x !in s'
    requires Ins(s, Block(x, w), p) == Ins(s', Block(x, w), p')
    ensures p == p' && s == s'
  {
    var b := Block(x, w);
    var t := Ins(s, b, p);
    if p < p' {
      InsAt(s, b, p, p);
      InsAt(s', b, p', p);
      assert false;
    } else if p' < p {
      InsAt(s, b, p, p');
      InsAt(s', b, p', p');
      assert false;
    }
    forall i | 0 <= i < |s| ensures s[i] == s'[i] {
      if i < p {
        InsAt(s, b, p, i);
        InsAt(s', b, p', i);
      } else {
        InsAt(s, b, p, i + w);
        InsAt(s', b, p', i + w);
      }
    }
  }

  /** Each entry of a sweep is the block inserted into one child state. */
  lemma {:induction false} SweepAllMember<T>(qs: seq<seq<T>>, b: seq<T>, k: nat, atEnd: bool, t: seq<T>)
    requires k <= |qs|
    requires forall j :: 0 <= j < |qs| ==> |qs[j]| == |qs[0]|
    ensures t in SweepAll(qs, b, k, atEnd) <==>
            exists j, p :: k <= j < |qs| && 0 <= p <= |qs[0]| && t == Ins(qs[j], b, p)
    decreases |qs| - k
  {
    if k < |qs| {
      SweepAllMember(qs, b, k + 1, !atEnd, t);
      var sw := Sweep(qs[k], b, atEnd);
      if t in sw {
        var i :| 0 <= i < |sw| && sw[i] == t;
        SweepAt(qs[k], b, atEnd, i);
      }
      if exists j, p :: k <= j < |qs| && 0 <= p <= |qs[0]| && t == Ins(qs[j], b, p) {
        var j, p :| k <= j < |qs| && 0 <= p <= |qs[0]| && t == Ins(qs[j], b, p);
        if j == k {
          var i := if atEnd then |qs[k]| - p else p;
          SweepAt(qs[k], b, atEnd, i);
          assert sw[i] == t;
        }
      }
    }
  }

  lemma {:induction false} SweepAllLength<T>(qs: seq<seq<T>>, b: seq<T>, k: nat, atEnd: bool, m: nat)
    requires k <= |qs|
    requires forall j :: 0 <= j < |qs| ==> |qs[j]| == m
    ensures |SweepAll(qs, b, k, atEnd)| == (|qs| - k) * (m + 1)
    decreases |qs| - k
  {
    if k < |qs| {
      SweepAllLength(qs, b, k + 1, !atEnd, m);
      SweepAllLengthStep(qs, b, k, atEnd, m);
      MulStep(|SweepAll(qs, b, k, atEnd)|, |SweepAll(qs, b, k + 1, !atEnd)|, |qs| - k, m + 1);
    }
  }

  lemma SweepAllLengthStep<T>(qs: seq<seq<T>>, b: seq<T>, k: nat, atEnd: bool, m: nat)
    requires k < |qs| && |qs[k]| == m
    ensures |SweepAll(qs, b, k, atEnd)| == (m + 1) + |SweepAll(qs, b, k + 1, !atEnd)|
  {
  }

  /** Distinct child states and a block of a fresh item give distinct sweeps. */
  lemma {:induction false} SweepAllDistinct<T>(qs: seq<seq<T>>, x: T, w: nat, k: nat, atEnd: bool)
    requires w >= 1 && k <= |qs| && Distinct(qs)
    requires forall j :: 0 <= j < |qs| ==> |qs[j]| == |qs[0]| && x !in qs[j]
    ensures Distinct(SweepAll(qs, Block(x, w), k, atEnd))
    decreases |qs| - k, 1
  {
    if k < |qs| {
      SweepAllDistinctNext(qs, x, w, k, atEnd);
    }
  }

  lemma {:induction false} SweepAllDistinctNext<T>(qs: seq<seq<T>>, x: T, w: nat, k: nat, atEnd: bool)
    requires w >= 1 && k < |qs| && Distinct(qs)
    requires forall j :: 0 <= j < |qs| ==> |qs[j]| == |qs[0]| && x !in qs[j]
    ensures Distinct(SweepAll(qs, Block(x, w), k, atEnd))
    decreases |qs| - k, 0
  {
    var b := Block(x, w);
    SweepAllDistinct(qs, x, w, k + 1, !atEnd);
    SweepDistinct(qs[k], x, w, atEnd);
    var sw, rest := Sweep(qs[k], b, atEnd), SweepAll(qs, b, k + 1, !atEnd);
    SweepApart(qs, x, w, k, atEnd, sw, rest);
    SweepAllUnfold(qs, b, k, atEnd);
    DistinctConcat(sw, rest);
  }

  /** One sweep of a fresh block has no repeats. */
  lemma SweepDistinct<T>(q: seq<T>, x: T, w: nat, atEnd: bool)
    requires w >= 1 && x !in q
    ensures Distinct(Sweep(q, Block(x, w), atEnd))
  {
    var b, m := Block(x, w), |q|;
    var sw := Sweep(q, b, atEnd);
    forall i, j | 0 <= i < j < |sw| ensures sw[i] != sw[j] {
      SweepAt(q, b, atEnd, i);
      SweepAt(q, b, atEnd, j);
      if sw[i] == sw[j] {
        InsInjective(q, q, x, w, if atEnd then m - i else i, if atEnd then m - j else j);
      }
    }
  }

  /** The sweep over child state k shares no entry with the sweeps over the later child states. */
  lemma SweepApart<T>(qs: seq<seq<T>>, x: T, w: nat, k: nat, atEnd: bool, sw: seq<seq<T>>, rest: seq<seq<T>>)
    requires w >= 1 && k < |qs| && Distinct(qs)
    requires forall j :: 0 <= j < |qs| ==> |qs[j]| == |qs[0]| && x !in qs[j]
    requires sw == Sweep(qs[k], Block(x, w), atEnd) && rest == SweepAll(qs, Block(x, w), k + 1, !atEnd)
    ensures forall i, j :: 0 <= i < |sw| && 0 <= j < |rest| ==> sw[i] != rest[j]
  {
    forall i, j | 0 <= i < |sw| && 0 <= j < |rest| ensures sw[i] != rest[j] {
      SweepPairApart(qs, x, w, k, atEnd, sw, rest, i, j);
    }
  }

  lemma SweepPairApart<T>(qs: seq<seq<T>>, x: T, w: nat, k: nat, atEnd: bool, sw: seq<seq<T>>, rest: seq<seq<T>>, i: int, j: int)
    requires w >= 1 && k < |qs| && Distinct(qs)
    requires forall j :: 0 <= j < |qs| ==> |qs[j]| == |qs[0]| && x !in qs[j]
    requires sw == Sweep(qs[k], Block(x, w), atEnd) && rest == SweepAll(qs, Block(x, w), k + 1, !atEnd)
    requires 0 <= i < |sw| && 0 <= j < |rest|
    ensures sw[i] != rest[j]
  {
    var b, m, r := Block(x, w), |qs[k]|, rest[j];
    assert r in rest;
    var j', p' := SweepAllSource(qs, b, k + 1, !atEnd, r);
    var pos := if atEnd then m - i else i;
    SweepAt(qs[k], b, atEnd, i);
    assert qs[k] != qs[j'];
    InsApart(qs[k], qs[j'], x, w, pos, p');
    Unequal(sw[i], Ins(qs[k], b, pos), r, Ins(qs[j'], b, p'));
  }

  /** Proof step, no property of the model: values equal to two different values differ. */
  lemma Unequal<T>(a: T, a': T, c: T, c': T)
    requires a == a' && c == c' && a' != c'
    ensures a != c
  {
  }

  /** An entry of the sweeps from child state k on, with the state and the position it came from. */
  lemma SweepAllSource<T>(qs: seq<seq<T>>, b: seq<T>, k: nat, atEnd: bool, t: seq<T>) returns (j: nat, p: nat)
    requires k <= |qs| && t in SweepAll(qs, b, k, atEnd)
    requires forall j :: 0 <= j < |qs| ==> |qs[j]| == |qs[0]|
    ensures k <= j < |qs| && p <= |qs[0]| && t == Ins(qs[j], b, p)
  {
    SweepAllMember(qs, b, k, atEnd, t);
    j, p :| k <= j < |qs| && 0 <= p <= |qs[0]| && t == Ins(qs[j], b, p);
  }

  /** Inserting a fresh block into different states never gives the same result. */
  lemma InsApart<T>(s: seq<T>, s': seq<T>, x: T, w: nat, p: nat, p': nat)
    requires w >= 1 && p <= |s| && p' <= |s'| && |s| == |s'|
    requires x !in s && x !in s' && s != s'
    ensures Ins(s, Block(x, w), p) != Ins(s', Block(x, w), p')
  {
    if Ins(s, Block(x, w), p) == Ins(s', Block(x, w), p') {
      InsInjective(s, s', x, w, p, p');
    }
  }

  /** A sequence without repeats holds every value at most once. */
  lemma {:induction false} DistinctCount<T>(t: seq<T>, v: T)
    requires Distinct(t)
    ensures multiset(t)[v] <= 1
    decreases |t|
  {
    if t != [] {
      var u, z := t[..|t| - 1], t[|t| - 1];
      assert t == u + [z];
      assert Distinct(u) by {
        forall i, j | 0 <= i < j < |u| ensures u[i] != u[j] {
          assert u[i] == t[i] && u[j] == t[j];
        }
      }
      DistinctCount(u, v);
      if v == z {
        assert v !in u by {
          forall i | 0 <= i < |u| ensures u[i] != z {
            assert u[i] == t[i];
          }
        }
      }
    }
  }

  /** A repeated value is held at least twice. */
  lemma DuplicateCount<T>(s: seq<T>, i: nat, j: nat)
    requires i < j < |s| && s[i] == s[j]
    ensures multiset(s)[s[i]] >= 2
  {
    var a, b := s[..j], s[j..];
    assert s == a + b;
    assert a[i] == s[i] && b[0] == s[j];
    assert s[i] in multiset(a) && s[i] in multiset(b);
  }

  /** A rearrangement of a sequence without repeats has no repeats. */
  lemma PermutationDistinct<T>(s: seq<T>, t: seq<T>)
    requires multiset(s) == multiset(t) && Distinct(t)
    ensures Distinct(s)
  {
    forall i, j | 0 <= i < j < |s| ensures s[i] != s[j] {
      if s[i] == s[j] {
        DuplicateCount(s, i, j);
        DistinctCount(t, s[i]);
        assert false;
      }
    }
  }

  // ---------------------------------------------------------------------
  // The loop every wrapper runs
  // ---------------------------------------------------------------------

  /**
   * `yield perm`, then for each change c: `perm[c], perm[c+gap] = perm[c+gap], perm[c]`
   * and `yield perm`.  The list of yielded objects is recorded as snapshots.
   */
  method SwapLoop<T>(perm: array<T>, cs: seq<int>, gap: nat) returns (perms: seq<seq<T>>)
    requires InBounds(cs, perm.Length, gap)
    modifies perm
    ensures perms == Trace(old(perm[..]), cs, gap)
    ensures perm[..] == Apply(old(perm[..]), cs, gap)
  {
    ghost var s := perm[..];
    perms := [perm[..]];
    var k := 0;
    while k < |cs|
      invariant 0 <= k <= |cs|
      invariant InBounds(cs[..k], |s|, gap)
      invariant perm[..] == Apply(s, cs[..k], gap)
      invariant perms == Trace(s, cs[..k], gap)
    {
      var c := cs[k];
      assert cs[..k + 1] == cs[..k] + [c];
      InBoundsPrefix(cs, k + 1, |s|, gap);
      TraceSnoc(s, cs[..k], c, gap);
      perm[c], perm[c + gap] := perm[c + gap], perm[c];
      perms := perms + [perm[..]];
      k := k + 1;
    }
    assert cs[..k] == cs;
  }
}
