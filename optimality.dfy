/** The search is exhaustive: when all cuts are non-negative, no partition
    of the remaining cuts that respects the piece length uses fewer pieces
    than the partition `search` returns. */
module Optimality {
  import opened CutSeq
  import opened CutSearch

  /** The length already taken from piece `b`; a bin not yet opened holds
      nothing. */
  function Load(current: Partition, b: nat): (r: int)
  {
    if b < |current| then Sum(current[b]) else 0
  }

  /** `packing` is a way to finish the state: bin `b` of it is added on top
      of bin `b` of `current` (or makes up a new bin when there is no such
      bin yet), it holds exactly the remaining cuts, and no piece overflows. */
  predicate Completes(total: int, remaining: seq<int>, current: Partition, packing: Partition)
  {
    && |current| <= |packing|
    && multiset(Flatten(packing)) == multiset(remaining)
    && (forall b :: 0 <= b < |packing| ==> Load(current, b) + Sum(packing[b]) <= total)
    && (forall b :: 0 <= b < |packing| ==> NonNegative(packing[b]))
  }

  /** The leaves below a successful fit attempt into bin `j` are among the
      leaves of the fit attempts from bin `i` on. */
  lemma {:induction false} FitChildLeaf(total: int, cut: int, rest: seq<int>, current: Partition, used: int,
                                        i: nat, j: nat, leaf: Outcome)
    requires i <= j < |current|
    requires IsValidCombination(current[j] + [cut], total)
    requires leaf in Leaves(total, rest, current[j := current[j] + [cut]], used)
    ensures leaf in FitLeaves(total, cut, rest, current, used, i)
    decreases j - i
  {
    var here := if IsValidCombination(current[i] + [cut], total)
                then Leaves(total, rest, current[i := current[i] + [cut]], used) else [];
    var later := FitLeaves(total, cut, rest, current, used, i + 1);
    assert FitLeaves(total, cut, rest, current, used, i) == here + later;
    if i < j {
      FitChildLeaf(total, cut, rest, current, used, i + 1, j, leaf);
    }
  }

  /** Placing the first cut into bin `b` (after the capacity check) or
      into a new bin can only lead to a count no smaller than the one
      `search` returns. */
  lemma SearchAtMostFit(total: int, remaining: seq<int>, current: Partition, used: int, b: nat)
    requires remaining != [] && b < |current|
    requires IsValidCombination(current[b] + [remaining[0]], total)
    ensures Search(total, remaining, current, used).used
            <= Search(total, remaining[1..], current[b := current[b] + [remaining[0]]], used).used
  {
    var cut, rest := remaining[0], remaining[1..];
    var child := current[b := current[b] + [cut]];
    SearchMinimalLeaf(total, remaining, current, used);
    SearchMinimalLeaf(total, rest, child, used);
    FitChildLeaf(total, cut, rest, current, used, 0, b, Search(total, rest, child, used));
  }

  lemma SearchAtMostNewBin(total: int, remaining: seq<int>, current: Partition, used: int)
    requires remaining != []
    ensures Search(total, remaining, current, used).used
            <= Search(total, remaining[1..], current + [[remaining[0]]], used + 1).used
  {
    var cut, rest := remaining[0], remaining[1..];
    SearchMinimalLeaf(total, remaining, current, used);
    SearchMinimalLeaf(total, rest, current + [[cut]], used + 1);
  }

  /** Removing the cut at `packing[b][k]` from a completion of a state
      whose next cut it is. */
  lemma TakeFromPacking(remaining: seq<int>, packing: Partition, b: nat, k: nat)
    returns (shrunk: Bin)
    requires remaining != []
    requires b < |packing| && k < |packing[b]| && packing[b][k] == remaining[0]
    requires multiset(Flatten(packing)) == multiset(remaining)
    requires NonNegative(packing[b])
    ensures Sum(shrunk) + remaining[0] == Sum(packing[b]) && Sum(shrunk) >= 0
    ensures multiset(shrunk) + multiset{remaining[0]} == multiset(packing[b])
    ensures NonNegative(shrunk)
    ensures multiset(Flatten(packing[b := shrunk])) == multiset(remaining[1..])
  {
    var x := remaining[0];
    shrunk := packing[b][..k] + packing[b][k + 1..];
    RemoveAt(packing[b], k);
    SumNonNegative(shrunk);
    FlattenUpdate(packing, b, shrunk);
    assert remaining == [x] + remaining[1..];
    calc {
      multiset(Flatten(packing[b := shrunk])) + (multiset(shrunk) + multiset{x});
      multiset(Flatten(packing)) + multiset(shrunk);
      (multiset(remaining[1..]) + multiset{x}) + multiset(shrunk);
      multiset(remaining[1..]) + (multiset(shrunk) + multiset{x});
    }
    MultisetCancel(multiset(Flatten(packing[b := shrunk])), multiset(remaining[1..]), multiset(shrunk) + multiset{x});
  }

  /** After the first cut goes into existing bin `b`, what is left of the
      completion finishes the new state. */
  lemma CompletesAfterFit(total: int, remaining: seq<int>, current: Partition, packing: Partition,
                          b: nat, k: nat) returns (rest': Partition)
    requires Completes(total, remaining, current, packing)
    requires remaining != [] && b < |current| && k < |packing[b]| && packing[b][k] == remaining[0]
    ensures IsValidCombination(current[b] + [remaining[0]], total)
    ensures |rest'| == |packing|
    ensures Completes(total, remaining[1..], current[b := current[b] + [remaining[0]]], rest')
  {
    var x := remaining[0];
    var shrunk := TakeFromPacking(remaining, packing, b, k);
    SumAppend(current[b], x);
    var child := current[b := current[b] + [x]];
    rest' := packing[b := shrunk];
    forall d | 0 <= d < |rest'| ensures Load(child, d) + Sum(rest'[d]) <= total {
      if d != b {
        assert Load(child, d) == Load(current, d);
      }
    }
  }

  /** Moving bin `c` to position `b` and putting `shrunk` at position `c`
      trades bin `b` for `shrunk` in the flattened multiset. */
  lemma FlattenExchange(packing: Partition, b: nat, c: nat, shrunk: Bin)
    requires c <= b < |packing|
    ensures multiset(Flatten(packing[b := packing[c]][c := shrunk])) + multiset(packing[b])
            == multiset(Flatten(packing)) + multiset(shrunk)
  {
    var swapped := packing[b := packing[c]];
    var result := swapped[c := shrunk];
    assert swapped[c] == packing[c];
    FlattenUpdate(packing, b, packing[c]);
    FlattenUpdate(swapped, c, shrunk);
    calc {
      multiset(Flatten(result)) + multiset(packing[b]) + multiset(packing[c]);
      (multiset(Flatten(result)) + multiset(swapped[c])) + multiset(packing[b]);
      (multiset(Flatten(swapped)) + multiset(packing[b])) + multiset(shrunk);
      (multiset(Flatten(packing)) + multiset(shrunk)) + multiset(packing[c]);
    }
    MultisetCancel(multiset(Flatten(result)) + multiset(packing[b]), multiset(Flatten(packing)) + multiset(shrunk),
                   multiset(packing[c]));
  }

  /** After the first cut opens bin `|current|`, the completion with its
      bin `b` (the one holding that cut) and bin `|current|` exchanged, and
      the cut taken out, finishes the new state. */
  lemma CompletesAfterNewBin(total: int, remaining: seq<int>, current: Partition, packing: Partition,
                             b: nat, k: nat) returns (rest': Partition)
    requires Completes(total, remaining, current, packing)
    requires remaining != [] && |current| <= b < |packing| && k < |packing[b]| && packing[b][k] == remaining[0]
    ensures |rest'| == |packing|
    ensures Completes(total, remaining[1..], current + [[remaining[0]]], rest')
  {
    var x := remaining[0];
    var shrunk := TakeFromPacking(remaining, packing, b, k);
    var c := |current|;
    rest' := packing[b := packing[c]][c := shrunk];
    ExchangeCovers(remaining, packing, b, c, shrunk);
    LoadsAfterNewBin(total, current, packing, b, x, shrunk);
    forall d | 0 <= d < |rest'| ensures NonNegative(rest'[d]) {
      if d != c && d != b {
        assert rest'[d] == packing[d];
      }
    }
  }

  lemma ExchangeCovers(remaining: seq<int>, packing: Partition, b: nat, c: nat, shrunk: Bin)
    requires remaining != [] && c <= b < |packing|
    requires multiset(Flatten(packing)) == multiset(remaining)
    requires multiset(shrunk) + multiset{remaining[0]} == multiset(packing[b])
    ensures multiset(Flatten(packing[b := packing[c]][c := shrunk])) == multiset(remaining[1..])
  {
    var x, rest := remaining[0], remaining[1..];
    var rest' := packing[b := packing[c]][c := shrunk];
    FlattenExchange(packing, b, c, shrunk);
    assert remaining == [x] + rest;
    calc {
      multiset(Flatten(rest')) + (multiset(shrunk) + multiset{x});
      multiset(Flatten(packing)) + multiset(shrunk);
      (multiset(rest) + multiset{x}) + multiset(shrunk);
      multiset(rest) + (multiset(shrunk) + multiset{x});
    }
    MultisetCancel(multiset(Flatten(rest')), multiset(rest), multiset(shrunk) + multiset{x});
  }

  lemma LoadsAfterNewBin(total: int, current: Partition, packing: Partition, b: nat, x: int, shrunk: Bin)
    requires |current| <= b < |packing|
    requires forall d :: 0 <= d < |packing| ==> Load(current, d) + Sum(packing[d]) <= total
    requires Sum(shrunk) + x == Sum(packing[b])
    ensures var rest' := packing[b := packing[|current|]][|current| := shrunk];
            forall d :: 0 <= d < |rest'| ==> Load(current + [[x]], d) + Sum(rest'[d]) <= total
  {
    var c := |current|;
    var rest' := packing[b := packing[c]][c := shrunk];
    var child := current + [[x]];
    SumAppend([], x);
    forall d | 0 <= d < |rest'| ensures Load(child, d) + Sum(rest'[d]) <= total {
      if d == c {
        assert Load(child, d) == x && rest'[d] == shrunk;
        assert Load(current, b) == 0;
      } else if d == b {
        assert Load(child, d) == 0 && rest'[d] == packing[c] && Load(current, c) == 0;
      } else {
        assert Load(child, d) == Load(current, d) && rest'[d] == packing[d];
      }
    }
  }

  /** The heart of the optimality proof: from any state that can still be
      finished with `|packing|` bins in all, `search` needs no more. */
  lemma {:induction false} SearchOptimal(total: int, remaining: seq<int>, current: Partition, used: int,
                                         packing: Partition)
    requires Completes(total, remaining, current, packing)
    ensures Search(total, remaining, current, used).used <= used - |current| + |packing|
    decreases |remaining|
  {
    if remaining != [] {
      var x, rest := remaining[0], remaining[1..];
      assert x in multiset(Flatten(packing));
      var b, k := InFlatten(packing, x);
      if b < |current| {
        var rest' := CompletesAfterFit(total, remaining, current, packing, b, k);
        SearchOptimal(total, rest, current[b := current[b] + [x]], used, rest');
        SearchAtMostFit(total, remaining, current, used, b);
      } else {
        var rest' := CompletesAfterNewBin(total, remaining, current, packing, b, k);
        SearchOptimal(total, rest, current + [[x]], used + 1, rest');
        SearchAtMostNewBin(total, remaining, current, used);
      }
    }
  }
}
