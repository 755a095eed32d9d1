# Gray-code permutation generators, verified in Dafny

This project models the combinatorial engine of `Permutations.py` (D. Eppstein,
2011) and proves what it yields. The engine has two layers.

* **Change streams.** `PlainChanges`, `DoublePlainChanges`, `StirlingChanges`
  and `InvolutionChanges` are lazy recursive generators of integer positions.
  Each is modelled as a pure recursive function `seq<int>` that returns the
  whole finite stream (module `Changes`). The `while True` / `recur.next()` /
  `StopIteration` loop shared by the first three becomes `Weave`. It walks the
  child stream index by index: the k-th child value comes after the first or
  the second run (k even or odd), as each generator orders them (`down` before
  `up` in `PlainChanges` and `StirlingChanges`, `up` before `down` in
  `DoublePlainChanges`), and is offset by that run's constant. Once the child
  is exhausted, the run already emitted before the failing `next()` closes the
  stream. The loop of `InvolutionChanges` over its n-2 child becomes
  `InvolutionSweep`.
* **Wrappers.** `SteinhausJohnsonTrotter`, `DoubleSteinhausJohnsonTrotter`,
  `StirlingPermutations` and `Involutions` build an initial list and yield it.
  They then change the list in place for every change and yield it again. Each
  wrapper is modelled as a method over an `array` that runs that loop and
  returns the sequence of snapshots:
  * the swap wrappers through the shared method `Sweeps.SwapLoop`;
  * `Involutions` through `InvolutionEdits.EditLoop` and
    `InvolutionEdits.EditInPlace`, which performs the four-case edit of
    Permutations.py:159-173.

Each wrapper method is proved equal to an independent reference order, defined
by recursion on the size:

* `Plain.PermutationOrder`: the last item sweeps back and forth over the order
  of the other items.
* `DoublePermutations.DoubleOrder`: position 0 stays in place, and position 1
  sweeps over the order of positions 2 onwards.
* `Stirling.StirlingOrder`: the pair n-1, n-1 sweeps over the order for n-1,
  moving two positions at a time.
* `InvolutionTraces.InvolutionOrder`: first the involutions that fix n-1, then
  the partner of n-1 sweeps over the order for n-2.

The properties the source's tests and docstrings promise are then proved about
each reference order:

* counts: n!, (2n-1)!! and the telephone numbers;
* every entry is a rearrangement of the input;
* no entry repeats;
* completeness, where the source claims it;
* the first and last entries;
* adjacent-swap steps.

The generic sweep theory in module `Sweeps` is shared by the three swap
wrappers. It covers inserting a block, sweeping it over a sequence of states,
and the trace of a woven stream.

Modules and files:

| module | file | contents |
|---|---|---|
| `Changes` | changes.dfy | the four streams, lengths, bounds, literal values |
| `Sweeps` | sweeps.dfy | swaps, traces, block sweeps, `SwapLoop` |
| `Plain` | plain.dfy | `SteinhausJohnsonTrotter` |
| `DoublePermutations` | double.dfy | `DoubleSteinhausJohnsonTrotter` |
| `Stirling` | stirling.dfy | `StirlingPermutations` |
| `InvolutionEdits` | involution.dfy | the four-case edit and its loop |
| `InvolutionTraces` | involution_trace.dfy | the edit loop driven by `InvolutionChanges(n)` yields `InvolutionOrder(n)` |
| `InvolutionFacts` | involution_facts.dfy | what that order contains; the `Involutions` method |

The docstring of `DoubleSteinhausJohnsonTrotter` (Permutations.py:72) says it
generates all double permutations. The code does not: it yields (2n-1)!!
arrangements, in which position 0 never moves. The model follows the code.
`DoublePermutations.DoubleOrderTwo` shows that for n = 2 the output is 3
arrangements, and that `[1, 1, 0, 0]` is missing.

## Model

| member | source | states |
|---|---|---|
| Changes.PlainChangesSmall | Permutations.py:17-33 | no swaps for 0 or 1 items, `[0]` for 2, and exactly `[1, 0, 1, 0, 1]` for 3 (the value checked at :180) |
| Changes.WeaveLength | Permutations.py:24-33 | the unrolled `while True` loop over a child of length c-1 emits (c-1)·(run+1)+run values |
| Changes.WeaveWithin | Permutations.py:24-33 | the loop's values lie in [lo, hi] when the runs do and the offset child values do |
| Changes.PlainChangesLength | Permutations.py:17-33 | `PlainChanges(n)` has n! - 1 values |
| Changes.PlainChangesWithin | Permutations.py:21-31 | every value x of `PlainChanges(n)` has 0 <= x <= n-2, so the swap of x and x+1 at :50 is in range |
| Changes.DoublePlainChangesLength | Permutations.py:53-69 | `DoublePlainChanges(n)` has (2n-1)!! - 1 values |
| Changes.DoublePlainChangesWithin | Permutations.py:57-67 | every value x has 1 <= x <= 2n-2: position 0 is never swapped |
| Changes.StirlingChangesLength | Permutations.py:83-106 | `StirlingChanges(n)` has (2n-1)!! - 1 values, none for n <= 1 |
| Changes.StirlingChangesWithin | Permutations.py:94-104 | every value x has 0 <= x <= 2n-3, so the swap of x and x+2 at :117 is in range |
| Changes.InvolutionChangesSmall | Permutations.py:127-146 | the literal streams `[]`, `[]`, `[0]`, `[0, 1, 0]` for n = 0..3, and for n = 4 the first recursive case yields `[0, 1, 0, 2, 0, 1, 0, 1, 0]` |
| Changes.InvolutionChangesLength | Permutations.py:120-146 | `InvolutionChanges(n)` has T(n) - 1 values, with T(n) = T(n-1) + (n-1)·T(n-2) |
| Changes.InvolutionChangesWithin | Permutations.py:127-146 | every change c has 0 <= c <= n-2, so `p[c+1]` is in range |
| Changes.TelephoneSmall | Permutations.py:218 | T(0..8) = 1, 1, 2, 4, 10, 26, 76, 232, 764 |
| Sweeps.Swap | Permutations.py:50 | the tuple swap exchanges positions c and c+gap and leaves every other position alone |
| Sweeps.SwapLoop | Permutations.py:47-51 | the snapshots yielded are the initial object followed by the object after each swap, and the array ends as all swaps applied |
| Sweeps.TraceStep | Permutations.py:49-51 | consecutive yielded objects differ by exactly the swap the change names |
| Sweeps.TraceMultiset | Permutations.py:49-51 | every yielded object is a rearrangement of the initial one |
| Sweeps.WeaveTrace | Permutations.py:24-33 | applying a woven stream to an object with a block inserted at one end lists the block swept across each state of the child trace in turn, alternating direction |
| Plain.PlainTrace | Permutations.py:35-51 | applying `PlainChanges(n)` to a list x of length n lists `PermutationOrder(x)` |
| Plain.PermutationOrderEntries | Permutations.py:47-51 | every yielded object is a rearrangement of the input and has its length |
| Plain.PermutationOrderLength | Permutations.py:182-187 | n! objects are yielded |
| Plain.PermutationOrderFirst | Permutations.py:211-214 | the first object yielded is the input list itself |
| Plain.PermutationOrderComplete | Permutations.py:35-38 | t is yielded if and only if t is a rearrangement of the input |
| Plain.PermutationOrderDistinct | Permutations.py:189-197 | for distinct items no object is yielded twice |
| Plain.PermutationOrderAdjacent | Permutations.py:199-209 | consecutive objects differ by exchanging positions c and c+1; for distinct items these are the only two positions that differ |
| Plain.SteinhausJohnsonTrotter | Permutations.py:35-51 | the method copies the list into an array, swaps in place, and yields exactly `PermutationOrder(x)` |
| Plain.SteinhausJohnsonTrotterRange | Permutations.py:41-45 | called with a number n, it yields the permutation order of `range(n)` |
| DoublePermutations.PairsArray | Permutations.py:73-75 | the loop builds `[0, 0, 1, 1, ..., n-1, n-1]` in a fresh array |
| DoublePermutations.PairsCount | Permutations.py:73-75 | the initial object holds each of 0..n-1 exactly twice and nothing else |
| DoublePermutations.DoubleChangesPasses | Permutations.py:53-69 | `DoublePlainChanges(n)` sweeps position 1 over positions 2.., starting from the front, with every value shifted past position 0 |
| DoublePermutations.DoubleTrace | Permutations.py:71-81 | applying `DoublePlainChanges(n)` to any object of length 2n lists `DoubleOrder` of it |
| DoublePermutations.DoubleOrderEntries | Permutations.py:77-81 | every yielded object is a rearrangement of the initial one |
| DoublePermutations.DoubleOrderFixed | Permutations.py:79-80 | position 0 keeps its item in every yielded object |
| DoublePermutations.DoubleOrderLength | Permutations.py:71-81 | (2n-1)!! objects are yielded |
| DoublePermutations.DoubleOrderPairsDistinct | Permutations.py:71-81 | starting from `[0, 0, ..., n-1, n-1]`, no object is yielded twice |
| DoublePermutations.DoubleOrderTwo | Permutations.py:72 | for n = 2 the objects are `[0,0,1,1]`, `[0,1,0,1]`, `[0,1,1,0]`, and `[1,1,0,0]` is not among them |
| DoublePermutations.DoubleSteinhausJohnsonTrotter | Permutations.py:71-81 | the method yields exactly `DoubleOrder([0, 0, ..., n-1, n-1])` |
| Stirling.StirlingTrace | Permutations.py:108-118 | applying `StirlingChanges(n)` with the x, x+2 swap to `[0, 0, ..., n-1, n-1]` lists `StirlingOrder(n)` |
| Stirling.StirlingOrderEntries | Permutations.py:114-118 | every yielded object holds each of 0..n-1 exactly twice |
| Stirling.StirlingOrderLength | Permutations.py:83-118 | (2n-1)!! objects are yielded |
| Stirling.StirlingOrderDistinct | Permutations.py:108-118 | no object is yielded twice |
| Stirling.StirlingOrderStirling | Permutations.py:84-86 | every yielded object is a Stirling permutation: only values at least as large lie between two equal values |
| Stirling.StirlingOrderComplete | Permutations.py:108-109 | t is yielded if and only if t is a Stirling permutation of `[0, 0, ..., n-1, n-1]` |
| Stirling.StirlingPermutations | Permutations.py:108-118 | the method yields exactly `StirlingOrder(n)` |
| InvolutionEdits.Identity | Permutations.py:156 | `range(n)` maps every i to itself and is an involution |
| InvolutionEdits.EditInvolution | Permutations.py:159-173 | the four-case edit keeps p[p[i]] == i; it adds the pair (c c+1) when both are fixed, removes it when they are partners, and otherwise conjugates p by the transposition of c and c+1, the kinds of change listed at :153-155 |
| InvolutionEdits.EditInPlace | Permutations.py:159-173 | the in-place tuple assignments on the array compute the edit and leave an involution |
| InvolutionEdits.EditAll | Permutations.py:158-173 | after any sequence of fitting changes the object is still an involution of the same size |
| InvolutionEdits.EditTraceStep | Permutations.py:158-174 | each yielded object is an involution, and the next one is its edit by the next change |
| InvolutionEdits.EditLoop | Permutations.py:156-174 | the loop starts from `range(n)`, edits in place, and yields initial object plus the object after each change |
| InvolutionTraces.InvolutionSmall | Permutations.py:127-130 | for n <= 3 the literal streams drive the identity through `InvolutionOrder(n)` |
| InvolutionTraces.FixedPhase | Permutations.py:131-132 | the n-1 stream runs through the involutions that fix n-1, in the order for n-1 |
| InvolutionTraces.PairPhaseTrace | Permutations.py:133-146 | `n-2`, the run `n-4..0`, the interleave over the n-2 stream and the final `n-4` run through the involutions that pair n-1 |
| InvolutionTraces.InvolutionTrace | Permutations.py:148-174 | the edits driven by `InvolutionChanges(n)` from the identity yield exactly `InvolutionOrder(n)` |
| InvolutionTraces.InvolutionOrderFirst | Permutations.py:150-151 | the first involution is the identity |
| InvolutionTraces.InvolutionOrderLast | Permutations.py:151-152 | for n >= 2 the last involution exchanges only the final two items |
| InvolutionFacts.InvolutionOrderInvolutions | Permutations.py:223-224 | every yielded object p has n items and satisfies p[p[i]] == i |
| InvolutionFacts.InvolutionOrderLength | Permutations.py:226-228 | T(n) objects are yielded |
| InvolutionFacts.InvolutionOrderDistinct | Permutations.py:222-227 | no involution is yielded twice |
| InvolutionFacts.InvolutionOrderComplete | Permutations.py:148-149 | t is yielded if and only if t is an involution on n items |
| InvolutionFacts.Involutions | Permutations.py:148-174 | the method yields exactly `InvolutionOrder(n)` |

## Left out

- StrongConnectivity.py: it subclasses a depth-first-search framework that is not part of this model. That framework decides when its callbacks run, so the module's behaviour cannot be stated on its own.
- Laziness: `StopIteration`, `.next()`, suspension and the O(1) amortised time per swap (Permutations.py:6-12). The streams are modelled as finite sequences, and time complexity is not a functional property.
- Runtime type probing in `SteinhausJohnsonTrotter` (`list(x)`, else `range(x)`). The model has one method for a sequence input and one for an integer input.
- Aliasing: the wrappers yield the same list object every time, and a consumer that keeps the references sees only the final state. The model returns one snapshot per yield, which is what a consumer that copies or reads each object before resuming observes.
- Negative sizes: the change streams and the wrappers other than `SteinhausJohnsonTrotterRange` take a `nat`, so Python's negative indexing into the base-case table of `InvolutionChanges` is not modelled. That method takes any `int`, since `range(n)` is empty for negative n.
- The `unittest` harness and the `__main__` block. Their assertions are stated as properties instead: `PlainChangesSmall`, `PermutationOrderLength`, `PermutationOrderDistinct`, `PermutationOrderAdjacent`, `PermutationOrderFirst`, `InvolutionOrderInvolutions`, `InvolutionOrderDistinct`, `InvolutionOrderLength` and `TelephoneSmall`.
- The docstring claim that `DoubleSteinhausJohnsonTrotter` generates all double permutations: the model states what the code yields. `DoubleOrderTwo` exhibits an arrangement it never yields.
