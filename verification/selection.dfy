/** Selection sort (`selectionSort`, script.js): for each slot `i` but the
    last, scan `i+1 .. |a|-1` for the first smallest value and exchange it
    into slot `i` unless it is already there. */
module SelectionDriver {
  import opened Blocks
  import opened Trace

  /** The comparisons made by the scans for slots `0 .. i-1` over `n` blocks:
      the scan for slot `p` compares `n-1-p` times. */
  function ScanCount(n: nat, i: nat): nat
    requires i <= n
  {
    if i == 0 then 0 else ScanCount(n, i - 1) + (n - i)
  }

  lemma {:induction false} ScanCountClosed(n: nat, i: nat)
    requires i <= n
    ensures 2 * ScanCount(n, i) == i * (2 * n - i - 1)
  {
    if i > 0 {
      ScanCountClosed(n, i - 1);
    }
  }

  /** The scans for slots `0 .. n-2` make `n*(n-1)/2` comparisons in all. */
  lemma ScanCountTotal(n: nat)
    requires n > 0
    ensures ScanCount(n, n - 1) == n * (n - 1) / 2
  {
    ScanCountClosed(n, n - 1);
  }

  /** The scan from slot `i` has looked at slots `i .. j-1`: `m` is the first
      slot holding the least of them, and the record holds one comparison per
      slot looked at after `i`. */
  predicate MinScanned(s: seq<int>, i: nat, j: nat, m: nat, trace: seq<Step>)
  {
    && i <= m < j <= |s|
    && (forall k :: i <= k < j ==> s[m] <= s[k])
    && (forall k :: i <= k < m ==> s[m] < s[k])
    && Replay(s, trace) == Some(s)
    && |trace| == j - i - 1
    && (forall k :: 0 <= k < |trace| ==> trace[k].Compare? && trace[k].j == i + 1 + k)
  }

  lemma ScanAdvances(s: seq<int>, i: nat, j: nat, m: nat, trace: seq<Step>)
    requires j < |s| && MinScanned(s, i, j, m, trace)
    ensures MinScanned(s, i, j + 1, if s[j] < s[m] then j else m, trace + [Compare(m, j, s[m] > s[j])])
  {
    ReplayStep(s, trace, Compare(m, j, s[m] > s[j]));
  }

  /** The inner scan of `selectionSort` from slot `i`: the result is the
      smallest slot holding the minimum of `s[i..]` (a later equal value does
      not replace it, since the test is strict), the board is only read, and
      slot `j` is compared in the `(j-i)`-th step. */
  method FindMin(s: seq<int>, i: nat) returns (m: nat, trace: seq<Step>)
    requires i < |s|
    ensures i <= m < |s|
    ensures forall k :: i <= k < |s| ==> s[m] <= s[k]
    ensures forall k :: i <= k < m ==> s[m] < s[k]
    ensures Replay(s, trace) == Some(s)
    ensures |trace| == |s| - i - 1
    ensures forall k :: 0 <= k < |trace| ==> trace[k].Compare? && trace[k].j == i + 1 + k
  {
    m, trace := i, [];
    var j := i + 1;
    while j < |s|
      invariant MinScanned(s, i, j, m, trace)
    {
      ScanAdvances(s, i, j, m, trace);
      trace := trace + [Compare(m, j, s[m] > s[j])];
      if s[j] < s[m] {
        m := j;
      }
      j := j + 1;
    }
  }

  /** The board after the exchange that ends round `i`: the minimum and the
      value in slot `i` trade places, and no other slot changes (when the
      minimum already sits in slot `i` the exchange is skipped). */
  function PlaceMin(r: seq<int>, i: nat, m: nat): (r': seq<int>)
    requires i <= m < |r|
    ensures |r'| == |r| && multiset(r') == multiset(r)
    ensures r'[i] == r[m] && r'[m] == r[i]
    ensures forall k :: 0 <= k < |r| && k != i && k != m ==> r'[k] == r[k]
  {
    if m != i then SwapAt(r, i, m) else r
  }

  /** Placing the minimum of `r[i..]` in slot `i` extends the sorted prefix,
      all of whose values are at most every later value, by one slot. */
  lemma PrefixGrows(r: seq<int>, i: nat, m: nat)
    requires i <= m < |r|
    requires SortedBetween(r, 0, i)
    requires forall p, q :: 0 <= p < i <= q < |r| ==> r[p] <= r[q]
    requires forall k :: i <= k < |r| ==> r[m] <= r[k]
    ensures SortedBetween(PlaceMin(r, i, m), 0, i + 1)
    ensures forall p, q :: 0 <= p < i + 1 <= q < |r| ==> PlaceMin(r, i, m)[p] <= PlaceMin(r, i, m)[q]
  {
    var r' := PlaceMin(r, i, m);
    forall p, q | 0 <= p < i + 1 <= q < |r|
      ensures r'[p] <= r'[q]
    {
      if q != m {
        assert r'[q] == r[q];
      } else {
        assert r'[q] == r[i];
      }
    }
  }

  /** The facts that hold once rounds `0 .. i-1` have run over the `n` blocks
      of `a`, leaving board `r` and record `trace`. */
  predicate RoundsDone(a: seq<int>, r: seq<int>, trace: seq<Step>, n: nat, i: nat)
  {
    && n == |a| == |r|
    && (i + 1 <= n || (n == 0 && i == 0))
    && multiset(r) == multiset(a)
    && SortedBetween(r, 0, i)
    && (forall p, q :: 0 <= p < i <= q < n ==> r[p] <= r[q])
    && Replay(a, trace) == Some(r)
    && Tally(trace, Comparison) == ScanCount(n, i)
    && Tally(trace, Exchange) <= i
    && (forall k :: 0 <= k < |trace| && trace[k].Swap? ==> trace[k].i != trace[k].j)
    && (n <= 1 ==> trace == [])
  }

  /** The record of round `i`: the scan's comparisons, then the exchange of
      slots `i` and `m` unless they coincide. */
  function RoundSteps(scan: seq<Step>, i: nat, m: nat): seq<Step>
  {
    scan + (if m != i then [Swap(i, m)] else [])
  }

  /** A round's record replays from `r` to the board the round leaves; it adds
      the scan's comparisons and at most one exchange, never of a slot with itself. */
  lemma RoundRecorded(r: seq<int>, scan: seq<Step>, i: nat, m: nat)
    requires i <= m < |r|
    requires Replay(r, scan) == Some(r)
    requires forall k :: 0 <= k < |scan| ==> scan[k].Compare?
    ensures var t := RoundSteps(scan, i, m);
      && Replay(r, t) == Some(PlaceMin(r, i, m))
      && Tally(t, Comparison) == |scan|
      && Tally(t, Exchange) <= 1
      && forall k :: 0 <= k < |t| && t[k].Swap? ==> t[k].i != t[k].j
  {
    OnlyComparisons(scan);
    if m != i {
      SwapRecorded(r, scan, i, m);
    } else {
      assert RoundSteps(scan, i, m) == scan;
    }
  }

  /** The round that ends with an exchange: one more step, an exchange of two
      distinct slots. */
  lemma SwapRecorded(r: seq<int>, scan: seq<Step>, i: nat, m: nat)
    requires i < m < |r|
    requires Replay(r, scan) == Some(r)
    ensures RoundSteps(scan, i, m) == scan + [Swap(i, m)]
    ensures Replay(r, scan + [Swap(i, m)]) == Some(PlaceMin(r, i, m))
    ensures Tally(scan + [Swap(i, m)], Comparison) == Tally(scan, Comparison)
    ensures Tally(scan + [Swap(i, m)], Exchange) == Tally(scan, Exchange) + 1
  {
    var sw := Swap(i, m);
    ReplayStep(r, scan, sw);
    OneStep(sw, Comparison);
    OneStep(sw, Exchange);
    TallyAppend(scan, [sw], Comparison);
    TallyAppend(scan, [sw], Exchange);
  }

  /** Round `i`: the scan, then the exchange when the minimum is elsewhere. */
  method SelectRound(a: seq<int>, r: seq<int>, trace: seq<Step>, n: nat, i: nat) returns (r': seq<int>, trace': seq<Step>)
    requires i + 1 < n && RoundsDone(a, r, trace, n, i)
    ensures RoundsDone(a, r', trace', n, i + 1)
  {
    var m, scan := FindMin(r, i);
    RoundRecorded(r, scan, i, m);
    var t := RoundSteps(scan, i, m);
    ReplayAppend(a, trace, t);
    TallyAppend(trace, t, Comparison);
    TallyAppend(trace, t, Exchange);
    PrefixGrows(r, i, m);
    r', trace' := PlaceMin(r, i, m), trace + t;
    assert forall k :: |trace| <= k < |trace'| ==> trace'[k] == t[k - |trace|];
  }

  /** Before the first round nothing has happened. */
  lemma RoundsStart(a: seq<int>)
    ensures RoundsDone(a, a, [], |a|, 0)
  {
  }

  /** Once the rounds stop, the board is sorted and the counts are final. */
  lemma RoundsComplete(a: seq<int>, r: seq<int>, trace: seq<Step>, n: nat, i: nat)
    requires RoundsDone(a, r, trace, n, i) && i + 1 >= n
    ensures IsSortOf(a, r)
    ensures Replay(a, trace) == Some(r)
    ensures Tally(trace, Comparison) == |a| * (|a| - 1) / 2
    ensures |a| > 0 ==> Tally(trace, Exchange) <= |a| - 1
    ensures forall k :: 0 <= k < |trace| && trace[k].Swap? ==> trace[k].i != trace[k].j
    ensures |a| <= 1 ==> r == a && trace == []
  {
    if n > 0 {
      ScanCountTotal(n);
      assert SortedBetween(r, 0, n);
    }
  }

  /** `selectionSort`: the result is the sorted permutation of the input, the
      trace replays to it, it makes `|a|*(|a|-1)/2` comparisons whatever the
      values, and at most `|a|-1` exchanges, none of a slot with itself. */
  method SelectionSort(a: seq<int>) returns (r: seq<int>, trace: seq<Step>)
    ensures IsSortOf(a, r)
    ensures Replay(a, trace) == Some(r)
    ensures Tally(trace, Comparison) == |a| * (|a| - 1) / 2
    ensures |a| > 0 ==> Tally(trace, Exchange) <= |a| - 1
    ensures forall k :: 0 <= k < |trace| && trace[k].Swap? ==> trace[k].i != trace[k].j
    ensures |a| <= 1 ==> r == a && trace == []
  {
    var n := |a|;
    r, trace := a, [];
    var i := 0;
    RoundsStart(a);
    while i + 1 < n
      invariant RoundsDone(a, r, trace, n, i)
    {
      r, trace := SelectRound(a, r, trace, n, i);
      i := i + 1;
    }
    RoundsComplete(a, r, trace, n, i);
  }
}
