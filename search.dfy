/** The recursive `search` inside `find_best_cut` (main.py lines 11-40),
    written as functions, and the search tree it walks.

    A search state is the list of cuts still to place, the partial partition
    built so far and the number of stock pieces that partition counts. Each
    level takes the first remaining cut and tries, in this order, every
    existing bin it fits into (`for i in range(len(current_cuts))`) and then
    a freshly opened bin; of the finished partitions it keeps one with the
    fewest pieces, the first one met on a tie. */
module CutSearch {
  import opened CutSeq

  datatype Option<T> = None | Some(value: T)

  /** What `search` returns: the partition and its piece count. */
  datatype Outcome = Outcome(cuts: Partition, used: int)

  /** `is_valid_combination`: the cuts fit into one piece of length
      `pieceLength`. */
  predicate IsValidCombination(cuts: seq<int>, pieceLength: int)
  {
    Sum(cuts) <= pieceLength
  }

  /** The update at main.py lines 30-32 and 36-38: a candidate replaces the
      incumbent only when it uses strictly fewer pieces. `None` is the state
      before any candidate, when `min_used_lengths` is infinity. */
  function Better(best: Option<Outcome>, candidate: Outcome): (r: Outcome)
  {
    if best.None? || candidate.used < best.value.used then candidate else best.value
  }

  /** `search(remaining_lengths, current_cuts, used_lengths)`. */
  function Search(total: int, remaining: seq<int>, current: Partition, used: int): (r: Outcome)
    decreases |remaining|, |current| + 1
  {
    if remaining == [] then Outcome(current, used)
    else
      var cut, rest := remaining[0], remaining[1..];
      var best := TryBins(total, cut, rest, current, used, 0, None);
      Better(best, Search(total, rest, current + [[cut]], used + 1))
  }

  /** The `for i` loop of main.py lines 25-32 from index `i` on, with `best`
      the result of the iterations before `i`. */
  function TryBins(total: int, cut: int, rest: seq<int>, current: Partition, used: int,
                   i: nat, best: Option<Outcome>): (r: Option<Outcome>)
    requires i <= |current|
    decreases |rest| + 1, |current| - i
  {
    if i == |current| then best
    else if IsValidCombination(current[i] + [cut], total) then
      var found := Search(total, rest, current[i := current[i] + [cut]], used);
      TryBins(total, cut, rest, current, used, i + 1, Some(Better(best, found)))
    else
      TryBins(total, cut, rest, current, used, i + 1, best)
  }

  /** Every finished partition the search reaches from a state, in the
      order the depth-first traversal reaches them. */
  function Leaves(total: int, remaining: seq<int>, current: Partition, used: int): (r: seq<Outcome>)
    decreases |remaining|, |current| + 1
  {
    if remaining == [] then [Outcome(current, used)]
    else
      var cut, rest := remaining[0], remaining[1..];
      FitLeaves(total, cut, rest, current, used, 0) + Leaves(total, rest, current + [[cut]], used + 1)
  }

  /** The leaves below the fit attempts into bins `i` and after. */
  function FitLeaves(total: int, cut: int, rest: seq<int>, current: Partition, used: int, i: nat): (r: seq<Outcome>)
    requires i <= |current|
    decreases |rest| + 1, |current| - i
  {
    if i == |current| then []
    else
      (if IsValidCombination(current[i] + [cut], total)
       then Leaves(total, rest, current[i := current[i] + [cut]], used)
       else [])
      + FitLeaves(total, cut, rest, current, used, i + 1)
  }

  /** Scans candidates left to right with the strict-improvement rule. */
  function Pick(best: Option<Outcome>, candidates: seq<Outcome>): (r: Option<Outcome>)
    decreases |candidates|
  {
    if candidates == [] then best else Pick(Some(Better(best, candidates[0])), candidates[1..])
  }

  /** The strict-`<` scan over a list of candidates, started from nothing.
      It is the same fold as the search's selection; the independent
      description of its result is IsFirstMinimalAt, and FirstMinimalSpec
      connects the two. */
  function FirstMinimal(candidates: seq<Outcome>): (r: Option<Outcome>)
  {
    Pick(None, candidates)
  }

  /* ---------- the selection rule ---------- */

  lemma {:induction false} PickAppend(best: Option<Outcome>, s: seq<Outcome>, t: seq<Outcome>)
    ensures Pick(best, s + t) == Pick(Pick(best, s), t)
    decreases |s|
  {
    if s == [] {
      assert s + t == t;
    } else {
      assert (s + t)[0] == s[0] && (s + t)[1..] == s[1..] + t;
      PickAppend(Some(Better(best, s[0])), s[1..], t);
    }
  }

  /** Scanning from an incumbent is comparing the incumbent with the winner
      of a scan started from nothing. */
  lemma {:induction false} PickFromIncumbent(best: Option<Outcome>, s: seq<Outcome>)
    ensures s != [] ==> FirstMinimal(s).Some?
    ensures Pick(best, s) == if s == [] then best else Some(Better(best, FirstMinimal(s).value))
    decreases |s|
  {
    if s != [] {
      var x := s[0];
      PickFromIncumbent(Some(Better(best, x)), s[1..]);
      PickFromIncumbent(Some(x), s[1..]);
      if s[1..] != [] {
        PickFromIncumbent(None, s[1..]);
      }
    }
  }

  /** `s[j]` has the least count in `s`, and every element before it has a
      larger count. */
  predicate IsFirstMinimalAt(s: seq<Outcome>, j: nat)
  {
    && j < |s|
    && (forall k :: 0 <= k < |s| ==> s[j].used <= s[k].used)
    && (forall k :: 0 <= k < j ==> s[k].used > s[j].used)
  }

  lemma ExtendFirstMinimal(front: seq<Outcome>, x: Outcome, j: nat)
    requires IsFirstMinimalAt(front, j)
    ensures IsFirstMinimalAt(front + [x], if x.used < front[j].used then |front| else j)
  {
    var s := front + [x];
    forall k | 0 <= k < |front| ensures s[k] == front[k] { }
  }

  /** FirstMinimal picks an element of least count, and no element before
      it has that count: ties go to the earliest. */
  lemma {:induction false} FirstMinimalSpec(s: seq<Outcome>)
    requires s != []
    ensures FirstMinimal(s).Some?
    ensures exists j: nat :: IsFirstMinimalAt(s, j) && FirstMinimal(s).value == s[j]
    decreases |s|
  {
    var n := |s| - 1;
    var front, x := s[..n], s[n];
    assert s == front + [x];
    PickAppend(None, front, [x]);
    if front == [] {
      assert FirstMinimal(s) == Some(x);
      assert IsFirstMinimalAt(s, 0);
    } else {
      FirstMinimalSpec(front);
      var j: nat :| IsFirstMinimalAt(front, j) && FirstMinimal(front).value == front[j];
      assert FirstMinimal(s) == Some(Better(FirstMinimal(front), x));
      ExtendFirstMinimal(front, x, j);
      var j' := if x.used < front[j].used then n else j;
      assert FirstMinimal(s).value == s[j'];
    }
  }

  /* ---------- the search computes the first minimal leaf ---------- */

  /** `search` returns exactly the first leaf of least piece count in
      depth-first order. */
  lemma {:induction false} SearchIsFirstMinimal(total: int, remaining: seq<int>, current: Partition, used: int)
    ensures FirstMinimal(Leaves(total, remaining, current, used)) == Some(Search(total, remaining, current, used))
    decreases |remaining|, |current| + 1
  {
    if remaining != [] {
      var cut, rest := remaining[0], remaining[1..];
      var fits := FitLeaves(total, cut, rest, current, used, 0);
      var newBin := Leaves(total, rest, current + [[cut]], used + 1);
      assert Leaves(total, remaining, current, used) == fits + newBin;
      PickAppend(None, fits, newBin);
      TryBinsIsPick(total, cut, rest, current, used, 0, None);
      SearchIsFirstMinimal(total, rest, current + [[cut]], used + 1);
      LeavesNonEmpty(total, rest, current + [[cut]], used + 1);
      PickFromIncumbent(Pick(None, fits), newBin);
    } else {
      var leaf := Outcome(current, used);
      assert Pick(None, [leaf]) == Pick(Some(leaf), []);
    }
  }

  lemma {:induction false} TryBinsIsPick(total: int, cut: int, rest: seq<int>, current: Partition, used: int,
                                         i: nat, best: Option<Outcome>)
    requires i <= |current|
    ensures TryBins(total, cut, rest, current, used, i, best) == Pick(best, FitLeaves(total, cut, rest, current, used, i))
    decreases |rest| + 1, |current| - i
  {
    if i < |current| {
      var later := FitLeaves(total, cut, rest, current, used, i + 1);
      if IsValidCombination(current[i] + [cut], total) {
        var child := current[i := current[i] + [cut]];
        var here := Leaves(total, rest, child, used);
        PickAppend(best, here, later);
        SearchIsFirstMinimal(total, rest, child, used);
        PickFromIncumbent(best, here);
        TryBinsIsPick(total, cut, rest, current, used, i + 1, Some(Better(best, Search(total, rest, child, used))));
      } else {
        assert FitLeaves(total, cut, rest, current, used, i) == [] + later == later;
        assert TryBins(total, cut, rest, current, used, i, best) == TryBins(total, cut, rest, current, used, i + 1, best);
        TryBinsIsPick(total, cut, rest, current, used, i + 1, best);
      }
    }
  }

  /** The result of `search` is one of the leaves, and no leaf uses fewer
      pieces. */
  lemma SearchMinimalLeaf(total: int, remaining: seq<int>, current: Partition, used: int)
    ensures Search(total, remaining, current, used) in Leaves(total, remaining, current, used)
    ensures forall l :: l in Leaves(total, remaining, current, used) ==> Search(total, remaining, current, used).used <= l.used
  {
    var leaves := Leaves(total, remaining, current, used);
    LeavesNonEmpty(total, remaining, current, used);
    SearchIsFirstMinimal(total, remaining, current, used);
    FirstMinimalSpec(leaves);
    var j: nat :| IsFirstMinimalAt(leaves, j) && FirstMinimal(leaves).value == leaves[j];
    assert leaves[j] == Search(total, remaining, current, used);
    forall l | l in leaves ensures leaves[j].used <= l.used {
      var k :| 0 <= k < |leaves| && leaves[k] == l;
    }
  }

  /** The new-bin branch always runs, so every state has a leaf and
      `best_cuts` is never left as `None`. */
  lemma {:induction false} LeavesNonEmpty(total: int, remaining: seq<int>, current: Partition, used: int)
    ensures |Leaves(total, remaining, current, used)| >= 1
    decreases |remaining|
  {
    if remaining != [] {
      LeavesNonEmpty(total, remaining[1..], current + [[remaining[0]]], used + 1);
    }
  }
}
