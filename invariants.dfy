/** What every finished partition of the search tree has in common with the
    state it was reached from: the piece count moves with the number of
    bins, existing bins only grow at their ends, every remaining cut lands
    in exactly one bin, a bin within the piece length stays within it, and
    bins respect the piece length except for a cut placed alone in a bin
    the search opened for it. */
module SearchInvariants {
  import opened CutSeq
  import opened CutSearch

  /** A bin the search can produce: within the piece length, or a single
      cut placed by the new-bin branch (main.py line 34), which is never
      checked against the piece length. */
  predicate Admissible(bin: Bin, total: int)
  {
    Sum(bin) <= total || |bin| == 1
  }

  predicate AllAdmissible(p: Partition, total: int)
  {
    forall k :: 0 <= k < |p| ==> Admissible(p[k], total)
  }

  predicate IsPrefix(a: seq<int>, b: seq<int>)
  {
    |a| <= |b| && a == b[..|a|]
  }

  /** `leaf` is a finished partition that agrees with the state
      (`remaining`, `current`, `used`) it descends from. */
  predicate Reaches(total: int, remaining: seq<int>, current: Partition, used: int, leaf: Outcome)
  {
    && leaf.used - |leaf.cuts| == used - |current|
    && |current| <= |leaf.cuts|
    && (forall k :: 0 <= k < |current| ==> IsPrefix(current[k], leaf.cuts[k]))
    && multiset(Flatten(leaf.cuts)) == multiset(Flatten(current)) + multiset(remaining)
    && (AllAdmissible(current, total) ==> AllAdmissible(leaf.cuts, total))
    && (forall k :: 0 <= k < |current| && Sum(current[k]) <= total ==> Sum(leaf.cuts[k]) <= total)
  }

  /** A leaf of a child state is a leaf of the parent when the child is the
      parent with `cut` appended to bin `i` after the capacity check. */
  lemma ReachesThroughFit(total: int, cut: int, rest: seq<int>, current: Partition, used: int, i: nat, leaf: Outcome)
    requires i < |current|
    requires IsValidCombination(current[i] + [cut], total)
    requires Reaches(total, rest, current[i := current[i] + [cut]], used, leaf)
    ensures Reaches(total, [cut] + rest, current, used, leaf)
  {
    var child := current[i := current[i] + [cut]];
    FitCovers(cut, current, i);
    assert multiset([cut] + rest) == multiset{cut} + multiset(rest);
    FitKeepsBins(total, cut, current, i, leaf.cuts);
    if AllAdmissible(current, total) {
      assert AllAdmissible(child, total);
    }
  }

  /** Appending `cut` to bin `i` adds exactly that cut to the flattened
      partition. */
  lemma FitCovers(cut: int, current: Partition, i: nat)
    requires i < |current|
    ensures multiset(Flatten(current[i := current[i] + [cut]])) == multiset(Flatten(current)) + multiset{cut}
  {
    var child := current[i := current[i] + [cut]];
    FlattenUpdate(current, i, current[i] + [cut]);
    assert multiset(current[i] + [cut]) == multiset(current[i]) + multiset{cut};
    calc {
      multiset(Flatten(child)) + multiset(current[i]);
      multiset(Flatten(current)) + (multiset(current[i]) + multiset{cut});
      (multiset(Flatten(current)) + multiset{cut}) + multiset(current[i]);
    }
    MultisetCancel(multiset(Flatten(child)), multiset(Flatten(current)) + multiset{cut}, multiset(current[i]));
  }

  /** What the leaf's bins owe the child's bins they also owe the parent's:
      they extend them, and stay within the piece length where those are. */
  lemma FitKeepsBins(total: int, cut: int, current: Partition, i: nat, cuts: Partition)
    requires i < |current| <= |cuts|
    requires IsValidCombination(current[i] + [cut], total)
    requires var child := current[i := current[i] + [cut]];
             forall k :: 0 <= k < |child| ==> IsPrefix(child[k], cuts[k])
    requires var child := current[i := current[i] + [cut]];
             forall k :: 0 <= k < |child| && Sum(child[k]) <= total ==> Sum(cuts[k]) <= total
    ensures forall k :: 0 <= k < |current| ==> IsPrefix(current[k], cuts[k])
    ensures forall k :: 0 <= k < |current| && Sum(current[k]) <= total ==> Sum(cuts[k]) <= total
  {
    var child := current[i := current[i] + [cut]];
    forall k | 0 <= k < |current| ensures IsPrefix(current[k], cuts[k]) {
      assert IsPrefix(child[k], cuts[k]);
      if k == i {
        assert current[k] == child[k][..|current[k]|];
      }
    }
    forall k | 0 <= k < |current| && Sum(current[k]) <= total ensures Sum(cuts[k]) <= total {
      if k != i {
        assert child[k] == current[k];
      }
    }
  }

  /** The same for the child that opens a new bin holding `cut` alone. */
  lemma ReachesThroughNewBin(total: int, cut: int, rest: seq<int>, current: Partition, used: int, leaf: Outcome)
    requires Reaches(total, rest, current + [[cut]], used + 1, leaf)
    ensures Reaches(total, [cut] + rest, current, used, leaf)
  {
    var child := current + [[cut]];
    FlattenAppend(current, [cut]);
    assert multiset([cut] + rest) == multiset{cut} + multiset(rest);
    forall k | 0 <= k < |current| ensures IsPrefix(current[k], leaf.cuts[k]) {
      assert child[k] == current[k];
    }
    if AllAdmissible(current, total) {
      assert AllAdmissible(child, total) by {
        forall k | 0 <= k < |child| ensures Admissible(child[k], total) {
          if k < |current| { assert child[k] == current[k]; }
        }
      }
    }
    forall k | 0 <= k < |current| && Sum(current[k]) <= total ensures Sum(leaf.cuts[k]) <= total {
      assert child[k] == current[k];
    }
  }

  lemma {:induction false} LeavesReach(total: int, remaining: seq<int>, current: Partition, used: int)
    ensures forall l :: l in Leaves(total, remaining, current, used) ==> Reaches(total, remaining, current, used, l)
    decreases |remaining|, |current| + 1
  {
    if remaining == [] {
      forall l | l in Leaves(total, remaining, current, used) ensures Reaches(total, remaining, current, used, l) {
        assert l == Outcome(current, used);
        assert Flatten(current) + [] == Flatten(current);
      }
    } else {
      var cut, rest := remaining[0], remaining[1..];
      assert remaining == [cut] + rest;
      FitLeavesReach(total, cut, rest, current, used, 0);
      LeavesReach(total, rest, current + [[cut]], used + 1);
      forall l | l in Leaves(total, rest, current + [[cut]], used + 1) ensures Reaches(total, remaining, current, used, l) {
        ReachesThroughNewBin(total, cut, rest, current, used, l);
      }
    }
  }

  lemma {:induction false} FitLeavesReach(total: int, cut: int, rest: seq<int>, current: Partition, used: int, i: nat)
    requires i <= |current|
    ensures forall l :: l in FitLeaves(total, cut, rest, current, used, i) ==> Reaches(total, [cut] + rest, current, used, l)
    decreases |rest| + 1, |current| - i
  {
    if i < |current| {
      FitLeavesReach(total, cut, rest, current, used, i + 1);
      if IsValidCombination(current[i] + [cut], total) {
        var child := current[i := current[i] + [cut]];
        LeavesReach(total, rest, child, used);
        forall l | l in Leaves(total, rest, child, used) ensures Reaches(total, [cut] + rest, current, used, l) {
          ReachesThroughFit(total, cut, rest, current, used, i, l);
        }
      }
    }
  }

  /** The result of `search` keeps the count equal to the number of bins
      plus the offset it started with, covers every remaining cut exactly
      once, only extends the bins it was given, and keeps every bin
      admissible. */
  lemma SearchReaches(total: int, remaining: seq<int>, current: Partition, used: int)
    ensures Reaches(total, remaining, current, used, Search(total, remaining, current, used))
  {
    SearchMinimalLeaf(total, remaining, current, used);
    LeavesReach(total, remaining, current, used);
  }
}
