/** Lengths, bins and partitions, and the facts about sums and flattening
    that the search and its proofs rely on. A length is an exact integer
    (for example hundredths of a centimetre). */
module CutSeq {

  /** The cuts assigned to one stock piece, in the order they were added. */
  type Bin = seq<int>

  /** One bin per stock piece, in the order the pieces were opened. */
  type Partition = seq<Bin>

  /** Python's `sum(cuts)`, accumulated from the left. */
  function Sum(s: seq<int>): (r: int)
  {
    if s == [] then 0 else Sum(s[..|s| - 1]) + s[|s| - 1]
  }

  predicate NonNegative(s: seq<int>)
  {
    forall k :: 0 <= k < |s| ==> s[k] >= 0
  }

  /** All cuts of a partition, bin after bin. */
  function Flatten(p: Partition): (r: seq<int>)
  {
    if p == [] then [] else p[0] + Flatten(p[1..])
  }

  lemma SumAppend(s: seq<int>, x: int)
    ensures Sum(s + [x]) == Sum(s) + x
  {
    assert (s + [x])[..|s|] == s;
  }

  lemma {:induction false} SumConcat(a: seq<int>, b: seq<int>)
    ensures Sum(a + b) == Sum(a) + Sum(b)
    decreases |b|
  {
    if b == [] {
      assert a + b == a;
    } else {
      var b' := b[..|b| - 1];
      var x := b[|b| - 1];
      assert b == b' + [x];
      assert a + b == (a + b') + [x];
      SumConcat(a, b');
      SumAppend(a + b', x);
      SumAppend(b', x);
    }
  }

  lemma {:induction false} SumNonNegative(s: seq<int>)
    requires NonNegative(s)
    ensures Sum(s) >= 0
    decreases |s|
  {
    if s != [] {
      SumNonNegative(s[..|s| - 1]);
    }
  }

  /** Taking the cut at index `k` out of a bin lowers its sum by that cut
      and its multiset by that one occurrence. */
  lemma RemoveAt(s: seq<int>, k: nat)
    requires k < |s|
    ensures Sum(s[..k] + s[k + 1..]) + s[k] == Sum(s)
    ensures multiset(s[..k] + s[k + 1..]) + multiset{s[k]} == multiset(s)
    ensures NonNegative(s) ==> NonNegative(s[..k] + s[k + 1..])
  {
    var front, back := s[..k], s[k + 1..];
    SplitAt(s, k);
    SumConcat(front + [s[k]], back);
    SumAppend(front, s[k]);
    SumConcat(front, back);
  }

  lemma SplitAt(s: seq<int>, k: nat)
    requires k < |s|
    ensures s == (s[..k] + [s[k]]) + s[k + 1..]
    ensures multiset(s) == multiset(s[..k]) + multiset{s[k]} + multiset(s[k + 1..])
    ensures NonNegative(s) ==> NonNegative(s[..k] + s[k + 1..])
  {
    var rest := s[..k] + s[k + 1..];
    assert s == (s[..k] + [s[k]]) + s[k + 1..];
    if NonNegative(s) {
      forall j | 0 <= j < |rest| ensures rest[j] >= 0 {
        if j < k { assert rest[j] == s[j]; } else { assert rest[j] == s[j + 1]; }
      }
    }
  }

  lemma MultisetCancel(a: multiset<int>, b: multiset<int>, c: multiset<int>)
    requires a + c == b + c
    ensures a == b
  {
    forall x ensures a[x] == b[x] {
      assert (a + c)[x] == (b + c)[x];
    }
  }

  lemma {:induction false} FlattenAppend(p: Partition, b: Bin)
    ensures Flatten(p + [b]) == Flatten(p) + b
    decreases |p|
  {
    if p == [] {
      assert Flatten([b]) == b + Flatten([]);
    } else {
      assert (p + [b])[1..] == p[1..] + [b];
      FlattenAppend(p[1..], b);
    }
  }

  /** Replacing one bin changes the flattened multiset by exactly the
      difference between the old and the new bin. */
  lemma {:induction false} FlattenUpdate(p: Partition, i: nat, b: Bin)
    requires i < |p|
    ensures multiset(Flatten(p[i := b])) + multiset(p[i]) == multiset(Flatten(p)) + multiset(b)
    decreases i
  {
    var q := p[i := b];
    assert multiset(Flatten(q)) == multiset(q[0]) + multiset(Flatten(q[1..]));
    assert multiset(Flatten(p)) == multiset(p[0]) + multiset(Flatten(p[1..]));
    if i == 0 {
      assert q[1..] == p[1..];
    } else {
      var tail := p[1..];
      assert q[0] == p[0] && q[1..] == tail[i - 1 := b] && tail[i - 1] == p[i];
      FlattenUpdate(tail, i - 1, b);
      calc {
        multiset(Flatten(q)) + multiset(p[i]);
        multiset(p[0]) + (multiset(Flatten(q[1..])) + multiset(p[i]));
        multiset(p[0]) + (multiset(Flatten(tail)) + multiset(b));
        multiset(Flatten(p)) + multiset(b);
      }
    }
  }

  /** A cut that occurs in the flattened partition occurs in some bin. */
  lemma {:induction false} InFlatten(p: Partition, x: int) returns (b: nat, k: nat)
    requires x in Flatten(p)
    ensures b < |p| && k < |p[b]| && p[b][k] == x
    decreases |p|
  {
    if x in p[0] {
      b := 0;
      k :| 0 <= k < |p[0]| && p[0][k] == x;
    } else {
      assert x in Flatten(p[1..]);
      var b', k' := InFlatten(p[1..], x);
      b, k := b' + 1, k';
    }
  }

  /** Every cut held by a bin occurs in the flattened partition. */
  lemma {:induction false} InBin(p: Partition, b: nat, k: nat)
    requires b < |p| && k < |p[b]|
    ensures p[b][k] in multiset(Flatten(p))
    decreases b
  {
    if b > 0 {
      InBin(p[1..], b - 1, k);
    }
  }
}
