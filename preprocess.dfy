/** The preprocessing at the top of `find_best_cut`: every requested cut is
    lengthened by the buffer (the kerf lost to the saw), and the list is
    then sorted longest first. */
module Preprocess {
  import opened CutSeq

  /** The comprehension `[cut + buffer_length for cut in cut_lengths]`. */
  function Buffered(cuts: seq<int>, buffer: int): (r: seq<int>)
  {
    seq(|cuts|, k requires 0 <= k < |cuts| => cuts[k] + buffer)
  }

  predicate NonIncreasing(s: seq<int>)
  {
    forall i, j :: 0 <= i < j < |s| ==> s[i] >= s[j]
  }

  /** Inserts `x` into a non-increasing list before the first element it is
      at least as long as. */
  function Insert(x: int, s: seq<int>): (r: seq<int>)
  {
    if s == [] || x >= s[0] then [x] + s else [s[0]] + Insert(x, s[1..])
  }

  /** `list.sort(reverse=True)` on integers. Python's sort is a library
      routine; it is written here as an insertion sort, and SortedIsUnique
      shows that any sort yielding a non-increasing permutation gives this
      same list. */
  function SortDesc(s: seq<int>): (r: seq<int>)
  {
    if s == [] then [] else Insert(s[0], SortDesc(s[1..]))
  }

  /** The list `search` starts from (main.py lines 7-8). */
  function Prepare(cuts: seq<int>, buffer: int): (r: seq<int>)
  {
    SortDesc(Buffered(cuts, buffer))
  }

  /** Prepending an element no smaller than any other keeps the order. */
  lemma PrependSorted(h: int, s: seq<int>)
    requires NonIncreasing(s)
    requires forall j :: 0 <= j < |s| ==> h >= s[j]
    ensures NonIncreasing([h] + s)
  {
    var t := [h] + s;
    forall i, j | 0 <= i < j < |t| ensures t[i] >= t[j] {
      assert t[j] == s[j - 1];
      if i > 0 {
        assert t[i] == s[i - 1];
      }
    }
  }

  lemma {:induction false} InsertPermutes(x: int, s: seq<int>)
    ensures multiset(Insert(x, s)) == multiset(s) + multiset{x}
    decreases |s|
  {
    if s != [] && x < s[0] {
      assert s == [s[0]] + s[1..];
      InsertPermutes(x, s[1..]);
    }
  }

  lemma {:induction false} InsertSorted(x: int, s: seq<int>)
    requires NonIncreasing(s)
    ensures NonIncreasing(Insert(x, s))
    ensures multiset(Insert(x, s)) == multiset(s) + multiset{x}
    decreases |s|
  {
    InsertPermutes(x, s);
    if s == [] || x >= s[0] {
      PrependSorted(x, s);
    } else {
      var tail := s[1..];
      SortedTail(s);
      InsertSorted(x, tail);
      var r := Insert(x, tail);
      forall j | 0 <= j < |r| ensures s[0] >= r[j] {
        assert r[j] in multiset(tail) + multiset{x};
        if r[j] != x {
          var k :| 0 <= k < |tail| && tail[k] == r[j];
          assert s[0] >= s[k + 1];
        }
      }
      PrependSorted(s[0], r);
    }
  }

  lemma {:induction false} SortDescSpec(s: seq<int>)
    ensures NonIncreasing(SortDesc(s))
    ensures multiset(SortDesc(s)) == multiset(s)
    decreases |s|
  {
    if s != [] {
      SortDescSpec(s[1..]);
      InsertSorted(s[0], SortDesc(s[1..]));
      assert s == [s[0]] + s[1..];
    }
  }

  lemma SortedHeadIsLargest(s: seq<int>, y: int)
    requires NonIncreasing(s) && y in s
    ensures s[0] >= y
  {
    var k :| 0 <= k < |s| && s[k] == y;
    if k > 0 {
      assert s[0] >= s[k];
    }
  }

  lemma SortedTail(s: seq<int>)
    requires NonIncreasing(s) && s != []
    ensures NonIncreasing(s[1..])
  {
    var tail := s[1..];
    forall i, j | 0 <= i < j < |tail| ensures tail[i] >= tail[j] {
      assert tail[i] == s[i + 1] && tail[j] == s[j + 1];
    }
  }

  /** A non-increasing arrangement of a multiset of lengths is unique, so
      the search input does not depend on how the sort is carried out. */
  lemma {:induction false} SortedIsUnique(a: seq<int>, b: seq<int>)
    requires NonIncreasing(a) && NonIncreasing(b)
    requires multiset(a) == multiset(b)
    ensures a == b
    decreases |a|
  {
    assert |a| == |multiset(a)| == |multiset(b)| == |b|;
    if a != [] {
      assert a[0] in multiset(b) && b[0] in multiset(a);
      SortedHeadIsLargest(a, b[0]);
      SortedHeadIsLargest(b, a[0]);
      var h := a[0];
      assert a == [h] + a[1..] && b == [h] + b[1..];
      assert multiset(a) == multiset(a[1..]) + multiset{h};
      assert multiset(b) == multiset(b[1..]) + multiset{h};
      MultisetCancel(multiset(a[1..]), multiset(b[1..]), multiset{h});
      SortedTail(a);
      SortedTail(b);
      SortedIsUnique(a[1..], b[1..]);
    }
  }

  /** After preprocessing the cuts are the buffered cuts, each exactly once,
      longest first; and that list is the only one with both properties. */
  lemma PrepareSpec(cuts: seq<int>, buffer: int)
    ensures |Prepare(cuts, buffer)| == |cuts|
    ensures multiset(Prepare(cuts, buffer)) == multiset(Buffered(cuts, buffer))
    ensures NonIncreasing(Prepare(cuts, buffer))
    ensures forall s :: NonIncreasing(s) && multiset(s) == multiset(Buffered(cuts, buffer)) ==> s == Prepare(cuts, buffer)
  {
    SortDescSpec(Buffered(cuts, buffer));
    var p := Prepare(cuts, buffer);
    assert |p| == |multiset(p)| == |multiset(Buffered(cuts, buffer))| == |cuts|;
    forall s | NonIncreasing(s) && multiset(s) == multiset(Buffered(cuts, buffer))
      ensures s == p
    {
      SortedIsUnique(s, p);
    }
  }
}
