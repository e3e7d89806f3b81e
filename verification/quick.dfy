/** Quicksort (`quickSort` and `partition`, script.js): Lomuto partition
    around the last value of the range, then the part left of the pivot, then
    the part right of it. Ranges are given by inclusive bounds, as in the
    source; a range with `left >= right` is left alone. */
module QuickDriver {
  import opened Blocks
  import opened Trace

  /** The partition scan of `left .. right` around the pivot `s[right]` has
      looked at slots `left .. j-1`: those below the pivot are gathered in
      `left .. i`, the others in `i+1 .. j-1`; the pivot has not moved. */
  predicate Scanned(s: seq<int>, left: nat, right: nat, i: int, j: nat, r: seq<int>, trace: seq<Step>)
  {
    Regions(s, left, right, i, j, r) && ScanLog(s, left, i, j, r, trace)
  }

  /** The board facts of `Scanned`. */
  predicate Regions(s: seq<int>, left: nat, right: nat, i: int, j: nat, r: seq<int>)
  {
    && left <= j <= right < |s|
    && left - 1 <= i < j
    && SameOutside(s, r, left, right + 1) && multiset(r) == multiset(s)
    && r[right] == s[right]
    && (forall k :: left <= k <= i ==> r[k] < s[right])
    && (forall k :: i < k < j ==> r[k] >= s[right])
  }

  /** The record facts of `Scanned`: one comparison per slot looked at, one
      exchange per value found below the pivot. */
  predicate ScanLog(s: seq<int>, left: nat, i: int, j: nat, r: seq<int>, trace: seq<Step>)
  {
    && Replay(s, trace) == Some(r)
    && Tally(trace, Comparison) == j - left
    && Tally(trace, Exchange) == i - left + 1
  }

  /** The steps for slot `j` of the scan: the comparison with the pivot in
      slot `right`, then, when `r[j]` is below it, the exchange that moves it
      to the end of the lower region. */
  function ScanSteps(r: seq<int>, right: nat, i: int, j: nat): seq<Step>
    requires j < |r| && right < |r|
  {
    if r[j] < r[right] then [Compare(right, j, true), Swap(i + 1, j)] else [Compare(right, j, false)]
  }

  /** The steps of one scan slot replay to the board that slot leaves, with
      one comparison and an exchange exactly when the value is below the pivot. */
  lemma ScanRecorded(r: seq<int>, right: nat, i: int, j: nat)
    requires j < |r| && right < |r| && -1 <= i < j
    ensures Replay(r, ScanSteps(r, right, i, j)) == Some(if r[j] < r[right] then SwapAt(r, i + 1, j) else r)
    ensures Tally(ScanSteps(r, right, i, j), Comparison) == 1
    ensures Tally(ScanSteps(r, right, i, j), Exchange) == (if r[j] < r[right] then 1 else 0)
  {
    var c := Compare(right, j, r[j] < r[right]);
    ReplayStep(r, [], c);
    assert [] + [c] == [c];
    OneStep(c, Comparison);
    OneStep(c, Exchange);
    if r[j] < r[right] {
      var sw := Swap(i + 1, j);
      ReplayStep(r, [c], sw);
      OneStep(sw, Comparison);
      OneStep(sw, Exchange);
      TallyAppend([c], [sw], Comparison);
      TallyAppend([c], [sw], Exchange);
    }
  }

  /** Moving a value below the pivot to the end of the lower region keeps the
      two regions apart. */
  lemma LowerGrows(s: seq<int>, left: nat, right: nat, i: int, j: nat, r: seq<int>)
    requires j < right && Regions(s, left, right, i, j, r) && r[j] < s[right]
    ensures Regions(s, left, right, i + 1, j + 1, SwapAt(r, i + 1, j))
  {
    var r' := SwapAt(r, i + 1, j);
    forall k | i + 1 < k < j + 1
      ensures r'[k] >= s[right]
    {
      if k == j {
        assert r'[k] == r[i + 1];
      }
    }
  }

  /** A value at least the pivot extends the upper region where it stands. */
  lemma UpperGrows(s: seq<int>, left: nat, right: nat, i: int, j: nat, r: seq<int>)
    requires j < right && Regions(s, left, right, i, j, r) && r[j] >= s[right]
    ensures Regions(s, left, right, i, j + 1, r)
  {
  }

  /** The record of the scan grows by the steps of slot `j`. */
  lemma ScanTraced(s: seq<int>, left: nat, right: nat, i: int, j: nat, r: seq<int>, trace: seq<Step>)
    requires j < |r| && right < |r| && -1 <= i < j
    requires ScanLog(s, left, i, j, r, trace)
    ensures r[j] < r[right] ==> ScanLog(s, left, i + 1, j + 1, SwapAt(r, i + 1, j), trace + ScanSteps(r, right, i, j))
    ensures r[j] >= r[right] ==> ScanLog(s, left, i, j + 1, r, trace + ScanSteps(r, right, i, j))
  {
    var t := ScanSteps(r, right, i, j);
    ScanRecorded(r, right, i, j);
    ReplayAppend(s, trace, t);
    TallyAppend(trace, t, Comparison);
    TallyAppend(trace, t, Exchange);
  }

  /** A slot holding a value below the pivot joins the lower region. */
  lemma ScanBelow(s: seq<int>, left: nat, right: nat, i: int, j: nat, r: seq<int>, trace: seq<Step>)
    requires j < right && Scanned(s, left, right, i, j, r, trace) && r[j] < r[right]
    ensures Scanned(s, left, right, i + 1, j + 1, SwapAt(r, i + 1, j), trace + ScanSteps(r, right, i, j))
  {
    ScanTraced(s, left, right, i, j, r, trace);
    LowerGrows(s, left, right, i, j, r);
  }

  /** A slot holding a value at least the pivot joins the upper region. */
  lemma ScanAtLeast(s: seq<int>, left: nat, right: nat, i: int, j: nat, r: seq<int>, trace: seq<Step>)
    requires j < right && Scanned(s, left, right, i, j, r, trace) && r[j] >= r[right]
    ensures Scanned(s, left, right, i, j + 1, r, trace + ScanSteps(r, right, i, j))
  {
    ScanTraced(s, left, right, i, j, r, trace);
    UpperGrows(s, left, right, i, j, r);
  }

  /** The final exchange of `partition` puts the pivot between the two regions. */
  lemma PivotPlaced(s: seq<int>, left: nat, right: nat, i: int, r: seq<int>, trace: seq<Step>)
    requires Scanned(s, left, right, i, right, r, trace)
    ensures 0 <= i + 1 <= right
    ensures var r' := SwapAt(r, i + 1, right);
            && SameOutside(s, r', left, right + 1)
            && r'[i + 1] == s[right]
            && (forall k :: left <= k < i + 1 ==> r'[k] < r'[i + 1])
            && (forall k :: i + 1 < k <= right ==> r'[k] >= r'[i + 1])
            && multiset(r') == multiset(s)
            && Replay(s, trace + [Swap(i + 1, right)]) == Some(r')
            && Tally(trace + [Swap(i + 1, right)], Comparison) == right - left
            && Tally(trace + [Swap(i + 1, right)], Exchange) == i + 1 - left + 1
  {
    var sw := Swap(i + 1, right);
    ReplayStep(s, trace, sw);
    OneStep(sw, Comparison);
    OneStep(sw, Exchange);
    TallyAppend(trace, [sw], Comparison);
    TallyAppend(trace, [sw], Exchange);
    var r' := SwapAt(r, i + 1, right);
    forall k | i + 1 < k <= right
      ensures r'[k] >= s[right]
    {
      if k == right {
        assert r'[k] == r[i + 1];
      }
    }
  }

  /** The scan loop of `partition` over slots `left .. right-1`. */
  method PartitionScan(s: seq<int>, left: nat, right: nat) returns (i: int, r: seq<int>, trace: seq<Step>)
    requires left <= right < |s|
    ensures Scanned(s, left, right, i, right, r, trace)
  {
    var pivot := s[right];
    i := left - 1;
    var j := left;
    r, trace := s, [];
    while j < right
      invariant Scanned(s, left, right, i, j, r, trace)
    {
      var t := ScanSteps(r, right, i, j);
      if r[j] < pivot {
        ScanBelow(s, left, right, i, j, r, trace);
        i, r := i + 1, SwapAt(r, i + 1, j);
      } else {
        ScanAtLeast(s, left, right, i, j, r, trace);
      }
      trace := trace + t;
      j := j + 1;
    }
  }

  /** A window split into values below `v` and values at least `v` has as
      many values below `v` as the first part is long. */
  lemma RegionCount(r: seq<int>, left: nat, p: nat, right: nat, v: int)
    requires left <= p <= right < |r|
    requires forall k :: left <= k < p ==> r[k] < v
    requires forall k :: p <= k <= right ==> r[k] >= v
    ensures Count(r[left..right + 1], Below(v)) == p - left
  {
    var f := Below(v);
    var lower, upper := r[left..p], r[p..right + 1];
    assert r[left..right + 1] == lower + upper;
    CountAppend(lower, upper, f);
    assert forall k :: 0 <= k < |lower| ==> f(lower[k]) by {
      forall k | 0 <= k < |lower|
        ensures f(lower[k])
      {
        assert lower[k] == r[left + k];
      }
    }
    assert forall k :: 0 <= k < |upper| ==> !f(upper[k]) by {
      forall k | 0 <= k < |upper|
        ensures !f(upper[k])
      {
        assert upper[k] == r[p + k];
      }
    }
    CountExtremes(lower, f);
    CountExtremes(upper, f);
  }

  /** The pivot's final slot is fixed by the values alone: `left` plus the
      number of values of `left .. right-1` below the pivot. */
  lemma PivotRank(s: seq<int>, r: seq<int>, left: nat, p: nat, right: nat)
    requires left <= p <= right < |s|
    requires SameOutside(s, r, left, right + 1) && multiset(r) == multiset(s)
    requires r[p] == s[right]
    requires forall k :: left <= k < p ==> r[k] < r[p]
    requires forall k :: p < k <= right ==> r[k] >= r[p]
    ensures p - left == Count(s[left..right], Below(s[right]))
  {
    var f := Below(s[right]);
    RegionCount(r, left, p, right, s[right]);
    RangePermutation(s, r, left, right + 1);
    CountPermutation(s[left..right + 1], r[left..right + 1], f);
    assert s[left..right + 1] == s[left..right] + [s[right]];
    CountAppend(s[left..right], [s[right]], f);
    assert [s[right]][..0] == [];
  }

  /** `partition(blocks, left, right)`: the pivot, the value first found in
      slot `right`, ends in the returned slot `p` of `left .. right`; values
      left of it in the range are below the pivot, values right of it are at
      least the pivot, and nothing outside the range moves. Every slot of
      `left .. right-1` is compared with the pivot exactly once, and there is
      one exchange per value found below it plus the final one, so the
      returned slot is `left` plus the number of values below the pivot. */
  method Partition(s: seq<int>, left: nat, right: nat) returns (p: nat, r: seq<int>, trace: seq<Step>)
    requires left <= right < |s|
    ensures SameOutside(s, r, left, right + 1)
    ensures left <= p <= right
    ensures r[p] == s[right]
    ensures forall k :: left <= k < p ==> r[k] < r[p]
    ensures forall k :: p < k <= right ==> r[k] >= r[p]
    ensures multiset(r) == multiset(s)
    ensures Replay(s, trace) == Some(r)
    ensures Tally(trace, Comparison) == right - left
    ensures Tally(trace, Exchange) == p - left + 1
    ensures p - left == Count(s[left..right], Below(s[right]))
  {
    var i, r0, t0 := PartitionScan(s, left, right);
    PivotPlaced(s, left, right, i, r0, t0);
    p, r, trace := i + 1, SwapAt(r0, i + 1, right), t0 + [Swap(i + 1, right)];
    PivotRank(s, r, left, p, right);
  }

  /** After the recursive calls, the slots `left .. right` are sorted: each
      side of the pivot is sorted and keeps the values partition put there. */
  lemma Assembled(s1: seq<int>, s2: seq<int>, s3: seq<int>, left: nat, p: nat, right: nat)
    requires left <= p <= right < |s1|
    requires forall k :: left <= k < p ==> s1[k] < s1[p]
    requires forall k :: p < k <= right ==> s1[k] >= s1[p]
    requires SameOutside(s1, s2, left, p) && multiset(s2) == multiset(s1)
    requires SameOutside(s2, s3, p + 1, right + 1) && multiset(s3) == multiset(s2)
    requires SortedBetween(s2, left, p) && SortedBetween(s3, p + 1, right + 1)
    ensures SortedBetween(s3, left, right + 1)
  {
    RangePermutation(s1, s2, left, p);
    RangePermutation(s2, s3, p + 1, right + 1);
    forall a, b | left <= a < b <= right
      ensures s3[a] <= s3[b]
    {
      if a < p {
        ValueFromRange(s1, s2, left, p, a);
        assert s3[a] < s1[p];
      }
      if p < b {
        ValueFromRange(s2, s3, p + 1, right + 1, b);
        assert s3[b] >= s1[p];
      }
    }
  }

  /** `quickSort(blocks, left, right)`: sorts slots `left .. right` as a
      permutation and moves nothing outside them; a range with `left >= right`
      is left alone without a single step. The bounds must name real slots
      only when the range holds two or more of them. */
  method QuickSort(s: seq<int>, left: int, right: int) returns (r: seq<int>, trace: seq<Step>)
    requires left < right ==> 0 <= left && right < |s|
    ensures SameOutside(s, r, left, right + 1)
    ensures multiset(r) == multiset(s)
    ensures left < right ==> SortedBetween(r, left, right + 1)
    ensures left >= right ==> r == s && trace == []
    ensures Replay(s, trace) == Some(r)
    decreases right - left
  {
    r, trace := s, [];
    if left < right {
      var p, s1, t1 := Partition(s, left, right);
      var s2, t2 := QuickSort(s1, left, p as int - 1);
      var s3, t3 := QuickSort(s2, p + 1, right);
      ReplayAppend(s, t1, t2);
      ReplayAppend(s, t1 + t2, t3);
      Assembled(s1, s2, s3, left, p, right);
      r, trace := s3, t1 + t2 + t3;
    }
  }

  /** `quickSort(blocks)` with its default bounds `0` and `blocks.length - 1`:
      the result is the sorted permutation of the input. */
  method QuickSortAll(a: seq<int>) returns (r: seq<int>, trace: seq<Step>)
    ensures IsSortOf(a, r)
    ensures Replay(a, trace) == Some(r)
    ensures |a| <= 1 ==> r == a && trace == []
  {
    r, trace := QuickSort(a, 0, |a| - 1);
  }
}
