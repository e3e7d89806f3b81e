/** The board of blocks the sorting drivers work on: a sequence of integer
    values, the order predicates the drivers establish, and the one mutation
    they share, the exchange of two blocks. */
module Blocks {

  /** The slots `lo .. hi-1` of `s` hold non-decreasing values. */
  predicate SortedBetween(s: seq<int>, lo: int, hi: int)
    requires 0 <= lo <= hi <= |s|
  {
    forall p, q :: lo <= p < q < hi ==> s[p] <= s[q]
  }

  predicate Sorted(s: seq<int>)
  {
    SortedBetween(s, 0, |s|)
  }

  /** `r` is what a correct sort of `a` must produce: ascending, and the same
      values with the same multiplicities. */
  predicate IsSortOf(a: seq<int>, r: seq<int>)
  {
    Sorted(r) && multiset(r) == multiset(a)
  }

  /** `t` differs from `s` at most in the slots `lo .. hi-1`. */
  predicate SameOutside(s: seq<int>, t: seq<int>, lo: int, hi: int)
  {
    |t| == |s| && forall k :: 0 <= k < |s| && (k < lo || hi <= k) ==> t[k] == s[k]
  }

  /** The exchange at the end of the swap animation: the values in slots `i`
      and `j` trade places and nothing else moves. */
  function SwapAt(s: seq<int>, i: int, j: int): (r: seq<int>)
    requires 0 <= i < |s| && 0 <= j < |s|
    ensures |r| == |s| && r[i] == s[j] && r[j] == s[i]
    ensures forall k :: 0 <= k < |s| && k != i && k != j ==> r[k] == s[k]
    ensures multiset(r) == multiset(s)
  {
    s[i := s[j]][j := s[i]]
  }

  /** Exchanging the same two slots twice restores the board. */
  lemma SwapTwice(s: seq<int>, i: int, j: int)
    requires 0 <= i < |s| && 0 <= j < |s|
    ensures SwapAt(SwapAt(s, i, j), i, j) == s
  {
    var r := SwapAt(SwapAt(s, i, j), i, j);
    assert forall k :: 0 <= k < |s| ==> r[k] == s[k];
  }

  /** When two boards agree outside `lo .. hi-1`, they are permutations of each
      other exactly when their windows `lo .. hi-1` are. */
  lemma RangePermutation(s: seq<int>, t: seq<int>, lo: int, hi: int)
    requires 0 <= lo <= hi <= |s|
    requires SameOutside(s, t, lo, hi)
    ensures multiset(s[lo..hi]) == multiset(t[lo..hi]) <==> multiset(s) == multiset(t)
  {
    assert s == s[..lo] + s[lo..hi] + s[hi..];
    assert t == t[..lo] + t[lo..hi] + t[hi..];
    assert s[..lo] == t[..lo];
    assert s[hi..] == t[hi..];
    var before, after := multiset(s[..lo]), multiset(s[hi..]);
    var x, y := multiset(s[lo..hi]), multiset(t[lo..hi]);
    assert multiset(s) == before + x + after;
    assert multiset(t) == before + y + after;
    if multiset(s) == multiset(t) {
      assert x == multiset(s) - before - after;
      assert y == multiset(t) - before - after;
    }
  }

  /** Every value in a permuted window came from the same window of the original. */
  lemma ValueFromRange(s: seq<int>, t: seq<int>, lo: int, hi: int, k: int)
    requires 0 <= lo <= hi <= |s| && hi <= |t|
    requires multiset(s[lo..hi]) == multiset(t[lo..hi])
    requires lo <= k < hi
    ensures exists p :: lo <= p < hi && s[p] == t[k]
  {
    assert t[lo..hi][k - lo] == t[k];
    assert t[k] in multiset(t[lo..hi]);
    assert t[k] in s[lo..hi];
    var q :| 0 <= q < hi - lo && s[lo..hi][q] == t[k];
    assert s[lo + q] == t[k];
  }

  /** The first value of a non-empty sorted board is its least value. */
  lemma HeadIsLeast(x: seq<int>, v: int)
    requires Sorted(x) && v in multiset(x)
    ensures |x| > 0 && x[0] <= v
  {
    assert v in x;
    var k :| 0 <= k < |x| && x[k] == v;
  }

  /** A sorted permutation is unique, so any two drivers that each deliver a
      sorted permutation of the same input deliver the same board. */
  lemma {:induction false} SortedPermutationUnique(x: seq<int>, y: seq<int>)
    requires Sorted(x) && Sorted(y)
    requires multiset(x) == multiset(y)
    ensures x == y
    decreases |x|
  {
    if |x| == 0 {
      assert |multiset(y)| == 0;
    } else {
      assert x[0] in multiset(y);
      HeadIsLeast(y, x[0]);
      assert y[0] in multiset(x);
      HeadIsLeast(x, y[0]);
      assert x[0] == y[0];
      assert x == [x[0]] + x[1..];
      assert y == [y[0]] + y[1..];
      assert multiset(x) == multiset{x[0]} + multiset(x[1..]);
      assert multiset(y) == multiset{y[0]} + multiset(y[1..]);
      assert multiset(x[1..]) == multiset(x) - multiset{x[0]};
      assert multiset(y[1..]) == multiset(y) - multiset{y[0]};
      assert Sorted(x[1..]) && Sorted(y[1..]);
      SortedPermutationUnique(x[1..], y[1..]);
    }
  }

  /** The number of values of `s` that satisfy `f`. */
  function Count(s: seq<int>, f: int -> bool): (c: nat)
    ensures c <= |s|
  {
    if s == [] then 0 else Count(s[..|s| - 1], f) + (if f(s[|s| - 1]) then 1 else 0)
  }

  /** The test "below `v`". */
  function Below(v: int): int -> bool
  {
    x => x < v
  }

  /** The test "above `v`". */
  function Above(v: int): int -> bool
  {
    x => x > v
  }

  /** Counting over a concatenation counts both parts. */
  lemma {:induction false} CountAppend(x: seq<int>, y: seq<int>, f: int -> bool)
    ensures Count(x + y, f) == Count(x, f) + Count(y, f)
    decreases |y|
  {
    if y == [] {
      assert x + y == x;
    } else {
      assert (x + y)[..|x + y| - 1] == x + y[..|y| - 1];
      CountAppend(x, y[..|y| - 1], f);
    }
  }

  /** A count is all of `x` exactly when every value passes, and zero exactly
      when none does. */
  lemma {:induction false} CountExtremes(x: seq<int>, f: int -> bool)
    ensures Count(x, f) == |x| <==> forall k :: 0 <= k < |x| ==> f(x[k])
    ensures Count(x, f) == 0 <==> forall k :: 0 <= k < |x| ==> !f(x[k])
    decreases |x|
  {
    if x != [] {
      var init := x[..|x| - 1];
      CountExtremes(init, f);
      assert forall k :: 0 <= k < |init| ==> init[k] == x[k];
    }
  }

  /** A count depends only on the values, not on their order. */
  lemma {:induction false} CountPermutation(x: seq<int>, y: seq<int>, f: int -> bool)
    requires multiset(x) == multiset(y)
    ensures Count(x, f) == Count(y, f)
    decreases |x|
  {
    if x == [] {
      assert |multiset(y)| == 0;
    } else {
      var init, last := x[..|x| - 1], x[|x| - 1];
      assert x == init + [last];
      assert last in multiset(y);
      var k :| 0 <= k < |y| && y[k] == last;
      var rest := y[..k] + y[k + 1..];
      assert y == y[..k] + [last] + y[k + 1..];
      assert multiset(rest) == multiset(y) - multiset{last};
      assert multiset(init) == multiset(x) - multiset{last};
      CountPermutation(init, rest, f);
      CountAppend(y[..k], [last], f);
      CountAppend(y[..k] + [last], y[k + 1..], f);
      CountAppend(y[..k], y[k + 1..], f);
      assert [last][..0] == [];
    }
  }
}
