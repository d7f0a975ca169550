/** `find_best_cut(total_length, cut_lengths, buffer_length)`: buffer and
    sort the cuts, then search from one empty stock piece, counted as one
    piece used. The search is a recursive method with the source's loop over
    the open pieces, proved equal to the functional `Search`; the properties
    of the answer are proved about `BestCut`. */
module FindBestCut {
  import opened CutSeq
  import opened Preprocess
  import opened CutSearch
  import opened SearchInvariants
  import opened Optimality

  /** The answer of `find_best_cut`. */
  function BestCut(total: int, cuts: seq<int>, buffer: int): (r: Outcome)
  {
    Search(total, Prepare(cuts, buffer), [[]], 1)
  }

  /** The nested `search`: the first remaining cut is tried in every open
      piece it fits into, in order, and then in a new piece; the result with
      strictly fewer pieces replaces the one kept so far. `best == None`
      stands for `best_cuts = None` with `min_used_lengths = inf`. */
  method SearchCuts(total: int, remaining: seq<int>, current: Partition, used: int) returns (r: Outcome)
    ensures r == Search(total, remaining, current, used)
    decreases |remaining|
  {
    if remaining == [] {
      return Outcome(current, used);
    }
    var cut := remaining[0];
    var rest := remaining[1..];
    var best: Option<Outcome> := None;
    for i := 0 to |current|
      invariant TryBins(total, cut, rest, current, used, 0, None) == TryBins(total, cut, rest, current, used, i, best)
    {
      if IsValidCombination(current[i] + [cut], total) {
        var newCuts := current[i := current[i] + [cut]];
        var found := SearchCuts(total, rest, newCuts, used);
        if best.None? || found.used < best.value.used {
          best := Some(found);
        }
      }
    }
    var newCuts := current + [[cut]];
    var found := SearchCuts(total, rest, newCuts, used + 1);
    if best.None? || found.used < best.value.used {
      best := Some(found);
    }
    return best.value;
  }

  method FindBestCut(totalLength: int, cutLengths: seq<int>, bufferLength: int)
    returns (bestCuts: Partition, usedLengths: int)
    ensures Outcome(bestCuts, usedLengths) == BestCut(totalLength, cutLengths, bufferLength)
    ensures usedLengths == |bestCuts| >= 1
    ensures multiset(Flatten(bestCuts)) == multiset(Buffered(cutLengths, bufferLength))
  {
    var lengths := Buffered(cutLengths, bufferLength);
    lengths := SortDesc(lengths);
    var r := SearchCuts(totalLength, lengths, [[]], 1);
    BestCutCount(totalLength, cutLengths, bufferLength);
    BestCutCoverage(totalLength, cutLengths, bufferLength);
    bestCuts, usedLengths := r.cuts, r.used;
  }

  /* ---------- properties of the answer ---------- */

  /** The count returned is the number of pieces in the partition, and at
      least one: the search starts from one piece counted as one, and only
      the new-piece branch adds a piece and increments the count. */
  lemma BestCutCount(total: int, cuts: seq<int>, buffer: int)
    ensures BestCut(total, cuts, buffer).used == |BestCut(total, cuts, buffer).cuts|
    ensures BestCut(total, cuts, buffer).used >= 1
  {
    SearchReaches(total, Prepare(cuts, buffer), [[]], 1);
  }

  /** Every buffered cut is placed exactly once. */
  lemma BestCutCoverage(total: int, cuts: seq<int>, buffer: int)
    ensures multiset(Flatten(BestCut(total, cuts, buffer).cuts)) == multiset(Buffered(cuts, buffer))
  {
    SearchReaches(total, Prepare(cuts, buffer), [[]], 1);
    PrepareSpec(cuts, buffer);
    assert Flatten([[]]) == [];
  }

  /** The starting piece only ever receives cuts through the capacity
      check, so it respects the length. Every other piece respects it too,
      except one the search opened for a single cut longer than the stock;
      when every buffered cut fits the stock, every piece respects it. */
  lemma BestCutCapacity(total: int, cuts: seq<int>, buffer: int)
    requires total >= 0
    ensures |BestCut(total, cuts, buffer).cuts| >= 1 && Sum(BestCut(total, cuts, buffer).cuts[0]) <= total
    ensures AllAdmissible(BestCut(total, cuts, buffer).cuts, total)
    ensures (forall k :: 0 <= k < |cuts| ==> cuts[k] + buffer <= total) ==>
              forall b :: 0 <= b < |BestCut(total, cuts, buffer).cuts| ==> Sum(BestCut(total, cuts, buffer).cuts[b]) <= total
  {
    var r := BestCut(total, cuts, buffer);
    SearchReaches(total, Prepare(cuts, buffer), [[]], 1);
    assert AllAdmissible([[]], total);
    assert Sum([[]][0]) == 0;
    if forall k :: 0 <= k < |cuts| ==> cuts[k] + buffer <= total {
      BestCutCoverage(total, cuts, buffer);
      AdmissibleWithinTotal(r.cuts, Buffered(cuts, buffer), total);
    }
  }

  /** A partition of cuts none of which exceeds the stock length, whose
      bins are all admissible, has every bin within the stock length. */
  lemma AdmissibleWithinTotal(p: Partition, items: seq<int>, total: int)
    requires AllAdmissible(p, total)
    requires multiset(Flatten(p)) == multiset(items)
    requires forall k :: 0 <= k < |items| ==> items[k] <= total
    ensures forall b :: 0 <= b < |p| ==> Sum(p[b]) <= total
  {
    forall b | 0 <= b < |p| ensures Sum(p[b]) <= total {
      if |p[b]| == 1 {
        InBin(p, b, 0);
        var y := p[b][0];
        assert y in items;
        assert p[b] == [] + [y];
        SumAppend([], y);
      }
    }
  }

  /** No partition of the buffered cuts into pieces of the stock length
      uses fewer pieces than the answer (counting at least one piece), as
      long as no buffered cut is negative. */
  lemma BestCutMinimal(total: int, cuts: seq<int>, buffer: int, packing: Partition)
    requires forall k :: 0 <= k < |cuts| ==> cuts[k] + buffer >= 0
    requires multiset(Flatten(packing)) == multiset(Buffered(cuts, buffer))
    requires forall b :: 0 <= b < |packing| ==> Sum(packing[b]) <= total
    ensures BestCut(total, cuts, buffer).used <= if packing == [] then 1 else |packing|
  {
    var items := Prepare(cuts, buffer);
    PrepareSpec(cuts, buffer);
    if packing == [] {
      assert |Buffered(cuts, buffer)| == |multiset(Buffered(cuts, buffer))| == 0;
      assert items == [];
    } else {
      PackingNonNegative(cuts, buffer, packing);
      forall b | 0 <= b < |packing| ensures Load([[]], b) + Sum(packing[b]) <= total {
        assert Load([[]], b) == 0;
      }
      assert Completes(total, items, [[]], packing);
      SearchOptimal(total, items, [[]], 1, packing);
    }
  }

  lemma PackingNonNegative(cuts: seq<int>, buffer: int, packing: Partition)
    requires forall k :: 0 <= k < |cuts| ==> cuts[k] + buffer >= 0
    requires multiset(Flatten(packing)) == multiset(Buffered(cuts, buffer))
    ensures forall b :: 0 <= b < |packing| ==> NonNegative(packing[b])
  {
    forall b | 0 <= b < |packing| ensures NonNegative(packing[b]) {
      forall k | 0 <= k < |packing[b]| ensures packing[b][k] >= 0 {
        InBin(packing, b, k);
        assert packing[b][k] in Buffered(cuts, buffer);
      }
    }
  }

  /** The answer is the first leaf of least count in the depth-first order
      of the search tree: fit attempts into pieces 0, 1, ... before the new
      piece, cuts longest first. */
  lemma BestCutFirstMinimalLeaf(total: int, cuts: seq<int>, buffer: int)
    ensures var leaves := Leaves(total, Prepare(cuts, buffer), [[]], 1);
            exists j :: 0 <= j < |leaves| && leaves[j] == BestCut(total, cuts, buffer)
              && (forall k :: 0 <= k < |leaves| ==> leaves[j].used <= leaves[k].used)
              && (forall k :: 0 <= k < j ==> leaves[k].used > leaves[j].used)
  {
    var leaves := Leaves(total, Prepare(cuts, buffer), [[]], 1);
    LeavesNonEmpty(total, Prepare(cuts, buffer), [[]], 1);
    SearchIsFirstMinimal(total, Prepare(cuts, buffer), [[]], 1);
    FirstMinimalSpec(leaves);
  }

  /** No cuts: the answer is the single empty starting piece, counted as
      one. */
  lemma BestCutEmpty(total: int, buffer: int)
    ensures BestCut(total, [], buffer) == Outcome([[]], 1)
  {
    assert Buffered([], buffer) == [];
  }

  /** Stock of length 10 and cuts 6, 5, 5, 4 with no buffer: two pieces,
      6 + 4 and 5 + 5. */
  lemma BestCutExample()
    ensures BestCut(10, [6, 5, 5, 4], 0) == Outcome([[6, 4], [5, 5]], 2)
  {
    assert Prepare([6, 5, 5, 4], 0) == [6, 5, 5, 4];
    var leaf := Outcome([[6, 4], [5, 5]], 2);
    ExampleAfterSix();
    // First cut, 6: into the starting piece; any answer below a second
    // starting piece counts at least two, so it does not replace this one.
    assert Sum([6]) == 6 && [] + [6] == [6] && [[]][0 := [6]] == [[6]];
    assert TryBins(10, 6, [5, 5, 4], [[]], 1, 0, None) == Some(leaf);
    assert [6, 5, 5, 4][1..] == [5, 5, 4] && [[]] + [[6]] == [[], [6]];
    SearchAtLeastUsed(10, [5, 5, 4], [[], [6]], 2);
  }

  /** The example once 6 is in the starting piece. */
  lemma ExampleAfterSix()
    ensures Search(10, [5, 5, 4], [[6]], 1) == Outcome([[6, 4], [5, 5]], 2)
  {
    var leaf := Outcome([[6, 4], [5, 5]], 2);
    ExampleLastCut();
    // Third cut, 5: not beside the 6, but beside the other 5.
    assert [6] + [5] == [6, 5] && [5] + [5] == [5, 5];
    assert Sum([6, 5]) == 11 && Sum([5, 5]) == 10;
    assert [[6], [5]][1 := [5, 5]] == [[6], [5, 5]];
    assert TryBins(10, 5, [4], [[6], [5]], 2, 0, None) == Some(leaf);
    assert [5, 4][1..] == [4] && [[6], [5]] + [[5]] == [[6], [5], [5]];
    SearchAtLeastUsed(10, [4], [[6], [5], [5]], 3);
    assert Search(10, [5, 4], [[6], [5]], 2) == leaf;
    // Second cut, 5: it does not fit beside the 6, so it opens a piece.
    assert !IsValidCombination([6] + [5], 10);
    assert TryBins(10, 5, [5, 4], [[6]], 1, 0, None) == None;
    assert [5, 5, 4][1..] == [5, 4] && [[6]] + [[5]] == [[6], [5]];
  }

  /** Last cut, 4: it fits beside the 6 (10 <= 10) but not beside 5 + 5. */
  lemma ExampleLastCut()
    ensures Search(10, [4], [[6], [5, 5]], 2) == Outcome([[6, 4], [5, 5]], 2)
  {
    var leaf := Outcome([[6, 4], [5, 5]], 2);
    assert Search(10, [], [[6, 4], [5, 5]], 2) == leaf;
    assert Sum([6, 4]) == 10 && Sum([5, 5, 4]) == 14;
    assert [6] + [4] == [6, 4];
    assert [[6], [5, 5]][0 := [6, 4]] == [[6, 4], [5, 5]];
    assert TryBins(10, 4, [], [[6], [5, 5]], 2, 0, None) == Some(leaf);
  }

  /** A cut longer than the stock is not rejected: it cannot go into the
      starting piece, so it gets a new piece of its own. With no later cut
      to fill it, the empty starting piece stays in the answer and in the
      count. */
  lemma BestCutOversized()
    ensures BestCut(10, [15], 0) == Outcome([[], [15]], 2)
  {
    assert Prepare([15], 0) == [15];
    assert [] + [15] == [15] && !IsValidCombination([15], 10);
    assert [15][1..] == [] && [[]] + [[15]] == [[], [15]];
  }

  /** An oversized cut does not keep the starting piece empty for good: a
      later cut that fits still goes into it. Stock 10, cuts 15 and 5: the
      15 opens a second piece and the 5 joins the starting piece. */
  lemma BestCutLaterFit()
    ensures BestCut(10, [15, 5], 0) == Outcome([[5], [15]], 2)
  {
    var leaf := Outcome([[5], [15]], 2);
    assert Buffered([15, 5], 0) == [15, 5];
    assert Insert(5, []) == [5] && SortDesc([5]) == [5];
    assert Prepare([15, 5], 0) == [15, 5];
    // 15 does not fit into the starting piece, so it opens a new one.
    assert [] + [15] == [15] && !IsValidCombination([15], 10);
    assert TryBins(10, 15, [5], [[]], 1, 0, None) == None;
    assert [15, 5][1..] == [5] && [[]] + [[15]] == [[], [15]];
    // 5 fits into the empty starting piece but not beside the 15.
    assert [] + [5] == [5] && Sum([5]) == 5;
    assert [15] + [5] == [15, 5] && Sum([15, 5]) == 20;
    assert [[], [15]][0 := [5]] == [[5], [15]];
    assert Search(10, [], [[5], [15]], 2) == leaf;
    assert TryBins(10, 5, [], [[], [15]], 2, 0, None) == Some(leaf);
    assert [5][1..] == [] && [[], [15]] + [[5]] == [[], [15], [5]];
    assert Search(10, [], [[], [15], [5]], 3).used == 3;
  }

  /** The count never falls below the count of the state searched from. */
  lemma SearchAtLeastUsed(total: int, remaining: seq<int>, current: Partition, used: int)
    ensures Search(total, remaining, current, used).used >= used
  {
    SearchReaches(total, remaining, current, used);
  }
}
