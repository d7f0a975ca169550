# Steel cut optimizer: the `find_best_cut` search in Dafny

This project models `find_best_cut` from `pythonProject7/main.py`. The function
plans how to cut a list of required lengths out of stock pieces of one fixed
length. It works in four steps:

- It adds a buffer (the kerf lost to the saw) to every cut.
- It sorts the cuts longest first.
- It searches every way of placing each cut, in turn, either into an open piece
  that still has room or into a new piece.
- It returns the partition with the fewest pieces and its piece count.

Lengths are exact integers, for example hundredths of a centimetre.

Modules, one per concern of that one function:

- `CutSeq` (`sequences.dfy`): bins, partitions, `Sum` (Python's `sum`),
  `Flatten`, and the facts about them that the proofs use.
- `Preprocess` (`preprocess.dfy`): `Buffered` is the comprehension at line 7.
  `SortDesc` is `sort(reverse=True)` at line 8. `Prepare` combines the two.
- `CutSearch` (`search.dfy`): `IsValidCombination`, the selection rule `Better`,
  and the nested `search` as the function `Search`. The loop over open pieces is
  the fold `TryBins`. `Leaves` lists every finished partition of the search tree
  in depth-first order. `FirstMinimal` is the same strict-`<` scan run over a
  list. `IsFirstMinimalAt` describes "the first one of least count" without any
  scan, and `FirstMinimalSpec` connects the two.
- `SearchInvariants` (`invariants.dfy`): what every leaf shares with the state
  it grew from. This covers the count, the coverage of the cuts and the capacity.
- `Optimality` (`optimality.dfy`): the search is exhaustive. No capacity-respecting
  partition uses fewer pieces.
- `FindBestCut` (`find_best_cut.dfy`): the imperative `search`, a recursive
  method with the source's `for i` loop. Also `find_best_cut` itself and the
  properties of its answer (`BestCut`).

Where the code behaves differently from what a reader might expect, the model
follows the code:

- No cuts gives `([[]], 1)`: one empty piece, counted. It does not give an empty
  partition with count 0.
- Buffered lengths are not rounded.
- A cut longer than the stock is not rejected. It is placed alone in a new piece
  without a capacity check. The starting piece stays in the answer even when it
  is empty. That happens only when no later cut fits into it: with stock 10,
  cuts 15 and 5 give `([[5], [15]], 2)`, but a cut of 15 alone gives
  `([[], [15]], 2)`.

## Model

| member | source | states |
|---|---|---|
| `Preprocess.PrepareSpec` | pythonProject7/main.py:7-8 | The list the search starts from has one entry per cut. It is a permutation of the cuts plus the buffer, in non-increasing order, and it is the only list with both properties. |
| `Preprocess.SortDescSpec` | pythonProject7/main.py:8 | Sorting in reverse gives a non-increasing permutation of its input. |
| `Preprocess.SortedIsUnique` | pythonProject7/main.py:8 | Two non-increasing lists with the same multiset are equal. So how the library sort works does not matter, and neither does its stability. |
| `CutSearch.FirstMinimalSpec` | pythonProject7/main.py:30-38 | The strict `<` selection over a list of candidates keeps an element of least count. Every element before it has a larger count, so ties go to the earliest. |
| `CutSearch.PickFromIncumbent` | pythonProject7/main.py:22-38 | Starting the selection from a kept result is the same as comparing that result once with the winner of a fresh selection. This is why the loop and the new-piece branch can share one `best`. |
| `CutSearch.TryBinsIsPick` | pythonProject7/main.py:25-32 | The `for i` loop over open pieces, started from any kept result, gives the selection over the leaves below the fit attempts from piece `i` on. |
| `CutSearch.SearchIsFirstMinimal` | pythonProject7/main.py:15-40 | `search` returns exactly the first leaf of least count among all leaves of its tree, in depth-first order. The order is fit attempts into pieces 0, 1, … and then the new piece. |
| `CutSearch.SearchMinimalLeaf` | pythonProject7/main.py:15-40 | The result of `search` is one of its leaves, and no leaf has a smaller count. |
| `CutSearch.LeavesNonEmpty` | pythonProject7/main.py:34-38 | Every state has at least one leaf, because the new-piece branch always runs. So `best_cuts` is never left `None`. |
| `SearchInvariants.ReachesThroughFit` | pythonProject7/main.py:26-29 | Appending a cut to piece `i` after the capacity check keeps the invariant. The count stays equal to the number of pieces plus an offset, old pieces only grow at their end, and every cut is placed once. A piece within the stock length stays within it. A piece holding two or more cuts is within the stock length. |
| `SearchInvariants.ReachesThroughNewBin` | pythonProject7/main.py:34-35 | Opening a new piece with the cut alone, and adding one to the count, keeps the same invariant. |
| `SearchInvariants.LeavesReach` | pythonProject7/main.py:15-40 | Every leaf of the search tree satisfies that invariant relative to the state it grew from. |
| `SearchInvariants.SearchReaches` | pythonProject7/main.py:15-40 | So does the result of `search`. |
| `Optimality.SearchAtMostFit` | pythonProject7/main.py:25-32 | The count `search` returns is at most the count reached after any fit attempt that passes the capacity check. |
| `Optimality.SearchAtMostNewBin` | pythonProject7/main.py:34-38 | The count `search` returns is at most the count reached after opening a new piece. |
| `Optimality.SearchOptimal` | pythonProject7/main.py:15-40 | Take a state that can still be finished with `n` pieces in all, with non-negative cuts and no piece overflowing. From that state, `search` returns a count of at most `n` (plus the state's count offset). |
| `FindBestCut.SearchCuts` | pythonProject7/main.py:15-40 | The recursive method with the `for i` loop and the `best_cuts`/`min_used_lengths` updates returns exactly `Search`. |
| `FindBestCut.FindBestCut` | pythonProject7/main.py:4-43 | `find_best_cut` buffers the cuts, sorts them and searches from `[[]]` with count 1. It returns `BestCut`, with count equal to the number of pieces (at least 1) and every buffered cut placed exactly once. |
| `FindBestCut.BestCutCount` | pythonProject7/main.py:34-42 | The count returned equals the number of pieces in the partition, and is at least 1. |
| `FindBestCut.BestCutCoverage` | pythonProject7/main.py:19-34 | The pieces together hold exactly the buffered cuts, each once. |
| `FindBestCut.BestCutCapacity` | pythonProject7/main.py:11-34 | Take a non-negative stock length. The starting piece only grows through checked fits, so it is always within it. Every other piece is within it, or holds a single cut placed by the new-piece branch. When every buffered cut fits the stock, every piece is within it. |
| `FindBestCut.AdmissibleWithinTotal` | pythonProject7/main.py:11-34 | Take a partition of cuts none of which is longer than the stock. If every piece is within the stock length or holds a single cut, then every piece is within the stock length. |
| `FindBestCut.BestCutMinimal` | pythonProject7/main.py:15-42 | No partition of the buffered cuts into pieces within the stock length has fewer pieces than the answer, counting at least one. This assumes non-negative buffered cuts. |
| `FindBestCut.BestCutFirstMinimalLeaf` | pythonProject7/main.py:25-42 | The answer is the first leaf of least count, in the depth-first order of the search tree started from `[[]]` with count 1. |
| `FindBestCut.BestCutEmpty` | pythonProject7/main.py:16-43 | No cuts gives `([[]], 1)`. |
| `FindBestCut.BestCutExample` | pythonProject7/main.py:4-43 | Stock 10, cuts 6, 5, 5, 4 and no buffer give `([[6, 4], [5, 5]], 2)`. |
| `FindBestCut.BestCutOversized` | pythonProject7/main.py:26-42 | Stock 10 and one cut of 15 give `([[], [15]], 2)`. The oversized cut gets a piece of its own, and with no later cut to fill it, the empty starting piece is kept and counted. |
| `FindBestCut.BestCutLaterFit` | pythonProject7/main.py:25-38 | Stock 10 and cuts 15, 5 give `([[5], [15]], 2)`. The 15 opens a second piece, and the 5 still fits into the starting piece. |
| `FindBestCut.SearchAtLeastUsed` | pythonProject7/main.py:15-40 | The count `search` returns is never below the count it was called with. |

## Left out

- `main` and the Streamlit user interface (`main.py` lines 1 and 46-78) are not
  modelled. That code collects the inputs and prints each piece with its unused
  length.
- Floating point is not modelled. Lengths are exact integers, so `cut + buffer_length`
  and `sum(cuts) <= piece_length` have no rounding error.
- `num_pieces` (`main.py` line 5) is computed and never used.
- Copying each inner list before appending (lines 27 and 34) is not modelled as
  separate objects. Dafny sequences are values, so a recursive call cannot change
  its caller's partition, and sibling branches cannot interfere.
- Python's `list.sort` is a library routine, modelled by an insertion sort.
  `SortedIsUnique` shows that any correct sort gives the same list.
- Running time and recursion depth of the exponential search are not modelled.
- `FindBestCut.BestCutMinimal` requires every buffered cut to be non-negative.
  With negative lengths, the capacity check on a partly filled piece can reject a
  piece that would end within the stock length. The source does not validate its
  inputs, and its user interface only accepts non-negative numbers.
- `FindBestCut.BestCutCapacity` requires a non-negative stock length. With a
  negative one, the empty starting piece could itself be over-length.
