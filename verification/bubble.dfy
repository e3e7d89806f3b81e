/** Bubble sort (`bubbleSort`, script.js): `|a|` passes with no early exit;
    pass `i` compares the neighbours `(j, j+1)` for `j = 0 .. |a|-i-2` and
    exchanges them when the left one is greater. */
module BubbleDriver {
  import opened Blocks
  import opened Trace

  /** The neighbour pairs one pass with `limit` comparisons looks at, in order. */
  function PassPairs(limit: nat): seq<(int, int)>
  {
    seq(limit, j => (j, j + 1))
  }

  lemma PassPairsGrow(j: nat)
    ensures PassPairs(j) + [(j, j + 1)] == PassPairs(j + 1)
  {
  }

  /** The neighbour pairs the first `passes` passes over `n` blocks look at. */
  function Schedule(n: nat, passes: nat): seq<(int, int)>
    requires passes <= n
  {
    if passes == 0 then [] else Schedule(n, passes - 1) + PassPairs(n - passes)
  }

  /** The schedule does not depend on the values: `n` passes make
      `n*(n-1)/2` comparisons in all. */
  lemma {:induction false} ScheduleLength(n: nat, passes: nat)
    requires passes <= n
    ensures 2 * |Schedule(n, passes)| == passes * (2 * n - passes - 1)
  {
    if passes > 0 {
      ScheduleLength(n, passes - 1);
    }
  }

  /** `t` is a run of neighbour tests, each either a comparison that came out
      false alone, or a comparison that came out true directly followed by the
      exchange of the same two slots: the driver swaps exactly when the left
      neighbour is greater, and at no other time. */
  predicate SwapsExactlyOnTrue(t: seq<Step>)
    decreases |t|
  {
    if t == [] then true
    else
      match t[|t| - 1]
      case Compare(_, _, result) => !result && SwapsExactlyOnTrue(t[..|t| - 1])
      case Swap(i, j) =>
        && |t| >= 2
        && t[|t| - 2] == Compare(i, j, true)
        && SwapsExactlyOnTrue(t[..|t| - 2])
      case _ => false
  }

  lemma {:induction false} SwapsExactlyOnTrueAppend(t1: seq<Step>, t2: seq<Step>)
    requires SwapsExactlyOnTrue(t1) && SwapsExactlyOnTrue(t2)
    ensures SwapsExactlyOnTrue(t1 + t2)
    decreases |t2|
  {
    var t := t1 + t2;
    if t2 == [] {
      assert t == t1;
    } else if t2[|t2| - 1].Compare? {
      var init := t2[..|t2| - 1];
      assert t[|t| - 1] == t2[|t2| - 1];
      assert t[..|t| - 1] == t1 + init;
      SwapsExactlyOnTrueAppend(t1, init);
    } else {
      var init := t2[..|t2| - 2];
      assert t[|t| - 1] == t2[|t2| - 1];
      assert t[|t| - 2] == t2[|t2| - 2];
      assert t[..|t| - 2] == t1 + init;
      SwapsExactlyOnTrueAppend(t1, init);
    }
  }

  /** The steps of one neighbour test at slot `j`: the comparison, followed by
      the exchange when it came out true. */
  function NeighbourSteps(s: seq<int>, j: nat): seq<Step>
    requires j + 1 < |s|
  {
    if s[j] > s[j + 1] then [Compare(j, j + 1, true), Swap(j, j + 1)] else [Compare(j, j + 1, false)]
  }

  /** The board after the neighbour test at slot `j`: the larger of the two
      values now sits in slot `j+1`; nothing else moves. */
  function TestNeighbours(s: seq<int>, j: nat): (r: seq<int>)
    requires j + 1 < |s|
    ensures SameOutside(s, r, j, j + 2) && multiset(r) == multiset(s)
    ensures r[j] <= r[j + 1] && r[j + 1] == (if s[j] > s[j + 1] then s[j] else s[j + 1])
  {
    if s[j] > s[j + 1] then SwapAt(s, j, j + 1) else s
  }

  /** A largest value carried up to slot `j` is carried on to slot `j+1`. */
  lemma MaximumTravels(s: seq<int>, j: nat)
    requires j + 1 < |s|
    requires forall k :: 0 <= k <= j ==> s[k] <= s[j]
    ensures forall k :: 0 <= k <= j + 1 ==> TestNeighbours(s, j)[k] <= TestNeighbours(s, j)[j + 1]
  {
    var r := TestNeighbours(s, j);
    forall k | 0 <= k <= j + 1
      ensures r[k] <= r[j + 1]
    {
      if k < j {
        assert r[k] == s[k];
      }
    }
  }

  lemma NeighbourStepsFacts(s: seq<int>, j: nat)
    requires j + 1 < |s|
    ensures Replay(s, NeighbourSteps(s, j)) == Some(TestNeighbours(s, j))
    ensures ComparedSlots(NeighbourSteps(s, j)) == [(j, j + 1)]
    ensures Tally(NeighbourSteps(s, j), Comparison) == 1
    ensures SwapsExactlyOnTrue(NeighbourSteps(s, j))
  {
    var c := Compare(j, j + 1, s[j] > s[j + 1]);
    ReplayStep(s, [], c);
    assert [] + [c] == [c];
    OneStep(c, Comparison);
    assert [c][..0] == [];
    if s[j] > s[j + 1] {
      var sw := Swap(j, j + 1);
      ReplayStep(s, [c], sw);
      var t := NeighbourSteps(s, j);
      assert [c] + [sw] == t;
      assert t[..|t| - 2] == [] && t[|t| - 2] == c;
      OneStep(sw, Comparison);
      ComparedSlotsAppend([c], [sw]);
      TallyAppend([c], [sw], Comparison);
    }
  }

  /** The facts that hold once the inner loop of a pass over board `s` has
      tested the neighbours at slots `0 .. j-1`, leaving board `r` and record
      `trace`. */
  predicate ScanDone(s: seq<int>, r: seq<int>, trace: seq<Step>, j: nat)
  {
    && j < |s|
    && SameOutside(s, r, 0, j + 1)
    && multiset(r) == multiset(s)
    && (forall k :: 0 <= k <= j ==> r[k] <= r[j])
    && Replay(s, trace) == Some(r)
    && ComparedSlots(trace) == PassPairs(j)
    && Tally(trace, Comparison) == j
    && SwapsExactlyOnTrue(trace)
    && (j == 0 ==> trace == [])
  }

  lemma ScanAdvances(s: seq<int>, r: seq<int>, trace: seq<Step>, j: nat)
    requires j + 1 < |s| && ScanDone(s, r, trace, j)
    ensures ScanDone(s, TestNeighbours(r, j), trace + NeighbourSteps(r, j), j + 1)
  {
    var steps := NeighbourSteps(r, j);
    NeighbourStepsFacts(r, j);
    ReplayAppend(s, trace, steps);
    TallyAppend(trace, steps, Comparison);
    ComparedSlotsAppend(trace, steps);
    SwapsExactlyOnTrueAppend(trace, steps);
    PassPairsGrow(j);
    MaximumTravels(r, j);
  }

  lemma ScanStart(s: seq<int>)
    requires s != []
    ensures ScanDone(s, s, [], 0)
  {
  }

  lemma ScanComplete(s: seq<int>, r: seq<int>, trace: seq<Step>, limit: nat)
    requires ScanDone(s, r, trace, limit)
    ensures SameOutside(s, r, 0, limit + 1)
    ensures multiset(r) == multiset(s)
    ensures forall k :: 0 <= k <= limit ==> r[k] <= r[limit]
    ensures Replay(s, trace) == Some(r)
    ensures ComparedSlots(trace) == PassPairs(limit)
    ensures Tally(trace, Comparison) == limit
    ensures SwapsExactlyOnTrue(trace)
    ensures limit == 0 ==> trace == []
  {
  }

  /** One pass of the inner loop over slots `0 .. limit`: the largest of those
      values ends in slot `limit`, nothing past `limit` moves, and the
      neighbours `(0,1), .., (limit-1,limit)` are compared in that order. */
  method BubblePass(s: seq<int>, limit: nat) returns (r: seq<int>, trace: seq<Step>)
    requires limit < |s|
    ensures SameOutside(s, r, 0, limit + 1)
    ensures multiset(r) == multiset(s)
    ensures forall k :: 0 <= k <= limit ==> r[k] <= r[limit]
    ensures Replay(s, trace) == Some(r)
    ensures ComparedSlots(trace) == PassPairs(limit)
    ensures Tally(trace, Comparison) == limit
    ensures SwapsExactlyOnTrue(trace)
    ensures limit == 0 ==> trace == []
  {
    r, trace := s, [];
    var j := 0;
    ScanStart(s);
    while j < limit
      invariant j <= limit
      invariant ScanDone(s, r, trace, j)
    {
      ScanAdvances(s, r, trace, j);
      r, trace := TestNeighbours(r, j), trace + NeighbourSteps(r, j);
      j := j + 1;
    }
    ScanComplete(s, r, trace, limit);
  }

  lemma ScheduleComplete(n: nat)
    ensures |Schedule(n, n)| == n * (n - 1) / 2
  {
    ScheduleLength(n, n);
  }

  /** After a pass with `limit` over a board whose slots past `limit` are
      sorted and dominate the rest, the sorted, dominating suffix starts one
      slot earlier. */
  lemma SuffixGrows(r: seq<int>, r': seq<int>, limit: nat)
    requires limit < |r|
    requires SortedBetween(r, limit + 1, |r|)
    requires forall p, q :: 0 <= p <= limit < q < |r| ==> r[p] <= r[q]
    requires SameOutside(r, r', 0, limit + 1) && multiset(r') == multiset(r)
    requires forall k :: 0 <= k <= limit ==> r'[k] <= r'[limit]
    ensures SortedBetween(r', limit, |r|)
    ensures forall p, q :: 0 <= p < limit <= q < |r| ==> r'[p] <= r'[q]
  {
    var n := |r|;
    RangePermutation(r, r', 0, limit + 1);
    forall q | limit < q < n
      ensures r'[limit] <= r'[q]
    {
      ValueFromRange(r, r', 0, limit + 1, limit);
    }
    forall p, q | 0 <= p < limit <= q < n
      ensures r'[p] <= r'[q]
    {
      if q > limit {
        ValueFromRange(r, r', 0, limit + 1, p);
      }
    }
  }

  /** A record in which every exchange follows the comparison that called
      for it holds no writes. */
  lemma {:induction false} NoStores(t: seq<Step>)
    requires SwapsExactlyOnTrue(t)
    ensures Tally(t, Store) == 0
    decreases |t|
  {
    if t != [] {
      var init := t[..|t| - 1];
      match t[|t| - 1]
      case Compare(_, _, _) =>
        NoStores(init);
      case Swap(_, _) =>
        NoStores(t[..|t| - 2]);
        assert init[..|init| - 1] == t[..|t| - 2];
    }
  }

  /** Appending the record of pass `i` to the record of the passes before it
      gives the record of the first `i+1` passes. */
  lemma PassRecorded(a: seq<int>, trace: seq<Step>, r: seq<int>, t: seq<Step>, r': seq<int>, n: nat, i: nat)
    requires i < n
    requires Replay(a, trace) == Some(r) && Replay(r, t) == Some(r')
    requires ComparedSlots(trace) == Schedule(n, i) && ComparedSlots(t) == PassPairs(n - i - 1)
    requires Tally(trace, Comparison) == |Schedule(n, i)| && Tally(t, Comparison) == n - i - 1
    requires SwapsExactlyOnTrue(trace) && SwapsExactlyOnTrue(t)
    ensures Replay(a, trace + t) == Some(r')
    ensures ComparedSlots(trace + t) == Schedule(n, i + 1)
    ensures Tally(trace + t, Comparison) == |Schedule(n, i + 1)|
    ensures SwapsExactlyOnTrue(trace + t)
  {
    ReplayAppend(a, trace, t);
    TallyAppend(trace, t, Comparison);
    ComparedSlotsAppend(trace, t);
    SwapsExactlyOnTrueAppend(trace, t);
  }

  /** The facts that hold once the first `i` passes over the `n` blocks of
      `a` have run, leaving board `r` and record `trace`. */
  predicate PassesDone(a: seq<int>, r: seq<int>, trace: seq<Step>, n: nat, i: nat)
  {
    && i <= n == |a| == |r|
    && SortedBetween(r, n - i, n)
    && (forall p, q :: 0 <= p < n - i <= q < n ==> r[p] <= r[q])
    && Replay(a, trace) == Some(r)
    && ComparedSlots(trace) == Schedule(n, i)
    && Tally(trace, Comparison) == |Schedule(n, i)|
    && SwapsExactlyOnTrue(trace)
    && (n <= 1 ==> trace == [])
  }

  /** Outer pass `i`: runs the inner loop up to slot `|a|-i-2` and extends the
      sorted suffix by one slot. */
  method Round(a: seq<int>, r: seq<int>, trace: seq<Step>, n: nat, i: nat) returns (r': seq<int>, trace': seq<Step>)
    requires i < n
    requires PassesDone(a, r, trace, n, i)
    ensures PassesDone(a, r', trace', n, i + 1)
  {
    var limit := n - i - 1;
    var t;
    r', t := BubblePass(r, limit);
    PassRecorded(a, trace, r, t, r', n, i);
    SuffixGrows(r, r', limit);
    trace' := trace + t;
  }

  lemma PassesStart(a: seq<int>)
    ensures PassesDone(a, a, [], |a|, 0)
  {
  }

  lemma PassesComplete(a: seq<int>, r: seq<int>, trace: seq<Step>)
    requires PassesDone(a, r, trace, |a|, |a|)
    ensures IsSortOf(a, r)
    ensures Replay(a, trace) == Some(r)
    ensures ComparedSlots(trace) == Schedule(|a|, |a|)
    ensures Tally(trace, Comparison) == |a| * (|a| - 1) / 2
    ensures SwapsExactlyOnTrue(trace)
    ensures |a| <= 1 ==> r == a && trace == []
  {
    ScheduleComplete(|a|);
    NoStores(trace);
    ReplayPermutes(a, trace);
  }

  /** The outer loop of `bubbleSort` from pass `i` on: passes `i .. |a|-1`. */
  method PassesFrom(a: seq<int>, r: seq<int>, trace: seq<Step>, n: nat, i: nat) returns (r': seq<int>, trace': seq<Step>)
    requires i <= n
    requires PassesDone(a, r, trace, n, i)
    ensures PassesDone(a, r', trace', n, n)
    decreases n - i
  {
    if i == n {
      r', trace' := r, trace;
    } else {
      var r1, t1 := Round(a, r, trace, n, i);
      r', trace' := PassesFrom(a, r1, t1, n, i + 1);
    }
  }

  method BubbleSort(a: seq<int>) returns (r: seq<int>, trace: seq<Step>)
    ensures IsSortOf(a, r)
    ensures Replay(a, trace) == Some(r)
    ensures ComparedSlots(trace) == Schedule(|a|, |a|)
    ensures Tally(trace, Comparison) == |a| * (|a| - 1) / 2
    ensures SwapsExactlyOnTrue(trace)
    ensures |a| <= 1 ==> r == a && trace == []
  {
    PassesStart(a);
    r, trace := PassesFrom(a, a, [], |a|, 0);
    PassesComplete(a, r, trace);
  }
}
