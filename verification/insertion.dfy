/** Insertion sort (`insertionSort`, script.js): for each slot `i` from 1,
    lift the value out as the key, shift every strictly greater value of the
    prefix one slot right, starting from slot `i-1`, and write the key into
    the slot left free. The insertion animation only draws, so it is absent. */
module InsertionDriver {
  import opened Blocks
  import opened Trace

  /** The shift loop for the key lifted from slot `i` has moved the values of
      slots `j+1 .. i-1` one slot right, each of them greater than the key;
      slot `j+1` still holds its old value (the copy just shifted). */
  predicate Shifted(s: seq<int>, i: nat, j: int, r: seq<int>, trace: seq<Step>)
  {
    && ShiftedBoard(s, i, j, r)
    && Replay(s, trace) == Some(r)
    && Tally(trace, Comparison) == i - 1 - j
    && Tally(trace, Store) == i - 1 - j
    && Tally(trace, Exchange) == 0
  }

  /** The board facts of `Shifted`. */
  predicate ShiftedBoard(s: seq<int>, i: nat, j: int, r: seq<int>)
  {
    && -1 <= j < i < |s| == |r|
    && (forall k :: 0 <= k <= j + 1 ==> r[k] == s[k])
    && (forall k :: j + 1 < k <= i ==> r[k] == s[k - 1] && s[k - 1] > s[i])
    && (forall k :: i < k < |s| ==> r[k] == s[k])
  }

  /** Every loop test recorded in `t` compares against `key`. */
  predicate KeyIs(t: seq<Step>, key: int)
  {
    forall k :: 0 <= k < |t| && t[k].CompareKey? ==> t[k].key == key
  }

  lemma KeyAppend(t: seq<Step>, u: seq<Step>, key: int)
    requires KeyIs(t, key) && KeyIs(u, key)
    ensures KeyIs(t + u, key)
  {
    forall k | 0 <= k < |t + u| && (t + u)[k].CompareKey?
      ensures (t + u)[k].key == key
    {
      if k < |t| {
        assert (t + u)[k] == t[k];
      } else {
        assert (t + u)[k] == u[k - |t|];
      }
    }
  }

  /** The steps of one shift: the loop test that came out true, then the copy
      of slot `j` into slot `j+1`. */
  function ShiftSteps(r: seq<int>, j: nat, key: int): seq<Step>
    requires j < |r|
  {
    [CompareKey(j, key, true), Write(j + 1, r[j])]
  }

  lemma StepsTally(t1: seq<Step>, t2: seq<Step>)
    ensures Tally(t1 + t2, Comparison) == Tally(t1, Comparison) + Tally(t2, Comparison)
    ensures Tally(t1 + t2, Store) == Tally(t1, Store) + Tally(t2, Store)
    ensures Tally(t1 + t2, Exchange) == Tally(t1, Exchange) + Tally(t2, Exchange)
  {
    TallyAppend(t1, t2, Comparison);
    TallyAppend(t1, t2, Store);
    TallyAppend(t1, t2, Exchange);
  }

  /** The record of the shift loop grows by one shift. */
  lemma ShiftRecorded(s: seq<int>, r: seq<int>, trace: seq<Step>, j: nat, key: int)
    requires j + 1 < |r| && r[j] > key && Replay(s, trace) == Some(r)
    ensures Replay(s, trace + ShiftSteps(r, j, key)) == Some(r[j + 1 := r[j]])
    ensures Tally(trace + ShiftSteps(r, j, key), Comparison) == Tally(trace, Comparison) + 1
    ensures Tally(trace + ShiftSteps(r, j, key), Store) == Tally(trace, Store) + 1
    ensures Tally(trace + ShiftSteps(r, j, key), Exchange) == Tally(trace, Exchange)
  {
    var c, w := CompareKey(j, key, true), Write(j + 1, r[j]);
    ReplayStep(r, [], c);
    assert [] + [c] == [c];
    ReplayStep(r, [c], w);
    assert [c] + [w] == ShiftSteps(r, j, key);
    ReplayAppend(s, trace, ShiftSteps(r, j, key));
    OneStep(c, Comparison);
    OneStep(c, Store);
    OneStep(c, Exchange);
    OneStep(w, Comparison);
    OneStep(w, Store);
    OneStep(w, Exchange);
    StepsTally([c], [w]);
    StepsTally(trace, ShiftSteps(r, j, key));
  }

  /** One shift copies slot `j` into slot `j+1` and keeps the board facts of
      the shift loop, one slot further left. */
  lemma ShiftBoard(s: seq<int>, i: nat, j: nat, r: seq<int>)
    requires ShiftedBoard(s, i, j, r) && r[j] > s[i]
    ensures ShiftedBoard(s, i, j - 1, r[j + 1 := r[j]])
  {
    var r' := r[j + 1 := r[j]];
    forall k | j < k <= i
      ensures r'[k] == s[k - 1] && s[k - 1] > s[i]
    {
      if k == j + 1 {
        assert r'[k] == r[j] == s[j];
      } else {
        assert r'[k] == r[k];
      }
    }
  }

  lemma ShiftAdvances(s: seq<int>, i: nat, j: nat, r: seq<int>, trace: seq<Step>)
    requires Shifted(s, i, j, r, trace) && r[j] > s[i]
    ensures Shifted(s, i, j - 1, r[j + 1 := r[j]], trace + ShiftSteps(r, j, s[i]))
  {
    ShiftRecorded(s, r, trace, j, s[i]);
    ShiftBoard(s, i, j, r);
  }

  /** The steps that end a round: the loop test that came out false (there is
      none when the loop ran off the front of the board), then the write of
      the key into slot `j+1`. */
  function PlaceSteps(j: int, key: int): seq<Step>
  {
    (if j >= 0 then [CompareKey(j, key, false)] else []) + [Write(j + 1, key)]
  }

  lemma PlaceRecorded(s: seq<int>, i: nat, j: int, r: seq<int>, trace: seq<Step>)
    requires Shifted(s, i, j, r, trace) && (j >= 0 ==> r[j] <= s[i])
    ensures Replay(s, trace + PlaceSteps(j, s[i])) == Some(r[j + 1 := s[i]])
    ensures Tally(trace + PlaceSteps(j, s[i]), Comparison) == i - (j + 1) + (if j >= 0 then 1 else 0)
    ensures Tally(trace + PlaceSteps(j, s[i]), Store) == i - (j + 1) + 1
    ensures Tally(trace + PlaceSteps(j, s[i]), Exchange) == 0
  {
    var w := Write(j + 1, s[i]);
    var t := PlaceSteps(j, s[i]);
    OneStep(w, Comparison);
    OneStep(w, Store);
    OneStep(w, Exchange);
    if j >= 0 {
      var c := CompareKey(j, s[i], false);
      ReplayStep(r, [], c);
      assert [] + [c] == [c];
      ReplayStep(r, [c], w);
      OneStep(c, Comparison);
      OneStep(c, Store);
      OneStep(c, Exchange);
      StepsTally([c], [w]);
    } else {
      ReplayStep(r, [], w);
      assert [] + [w] == t;
    }
    ReplayAppend(s, trace, t);
    StepsTally(trace, t);
  }

  /** The board left by a round, described slot by slot, is a permutation of
      the board before it, and it extends a sorted prefix by one slot. */
  lemma RoundResult(s: seq<int>, i: nat, p: nat, r: seq<int>)
    requires p <= i < |s| == |r| && r[p] == s[i]
    requires forall k :: 0 <= k < p ==> r[k] == s[k]
    requires forall k :: p < k <= i ==> r[k] == s[k - 1] && s[k - 1] > s[i]
    requires p > 0 ==> s[p - 1] <= s[i]
    requires forall k :: i < k < |s| ==> r[k] == s[k]
    ensures multiset(r) == multiset(s)
    ensures SortedBetween(s, 0, i) ==> SortedBetween(r, 0, i + 1)
  {
    RoundPermutes(s, i, p, r);
    if SortedBetween(s, 0, i) {
      forall a, b | 0 <= a < b < i + 1
        ensures r[a] <= r[b]
      {
        if a < p && p <= b {
          assert s[a] <= s[p - 1];
        }
      }
    }
  }

  lemma RoundPermutes(s: seq<int>, i: nat, p: nat, r: seq<int>)
    requires p <= i < |s| == |r| && r[p] == s[i]
    requires forall k :: 0 <= k < p ==> r[k] == s[k]
    requires forall k :: p < k <= i ==> r[k] == s[k - 1]
    requires forall k :: i < k < |s| ==> r[k] == s[k]
    ensures multiset(r) == multiset(s)
  {
    var before, moved, after := s[..p], s[p..i], s[i + 1..];
    assert r[..p] == before;
    assert r[p + 1..i + 1] == moved;
    assert r[i + 1..] == after;
    assert r == r[..p] + [r[p]] + r[p + 1..i + 1] + r[i + 1..];
    assert s == before + moved + [s[i]] + after;
  }

  /** Over a sorted prefix, the values the shift loop leaves in place are
      none of them above the key. */
  lemma KeptCount(s: seq<int>, i: nat, p: nat)
    requires p <= i < |s| && SortedBetween(s, 0, i)
    requires p > 0 ==> s[p - 1] <= s[i]
    ensures Count(s[..p], Above(s[i])) == 0
  {
    var f, kept := Above(s[i]), s[..p];
    forall k | 0 <= k < |kept|
      ensures !f(kept[k])
    {
      assert kept[k] == s[k] <= s[p - 1];
    }
    CountExtremes(kept, f);
  }

  /** When the values of slots `p .. i-1` are all above the key, they all
      count. */
  lemma MovedCount(s: seq<int>, i: nat, p: nat)
    requires p <= i < |s|
    requires forall k :: p <= k < i ==> s[k] > s[i]
    ensures Count(s[p..i], Above(s[i])) == i - p
  {
    var f, moved := Above(s[i]), s[p..i];
    forall k | 0 <= k < |moved|
      ensures f(moved[k])
    {
      assert moved[k] == s[p + k];
    }
    CountExtremes(moved, f);
  }

  /** Over a sorted prefix, the values the shift loop moves (into board `r`)
      are exactly the earlier values above the key. */
  lemma ShiftCount(s: seq<int>, i: nat, p: nat, r: seq<int>)
    requires p <= i < |s| == |r| && SortedBetween(s, 0, i)
    requires forall k :: p < k <= i ==> r[k] == s[k - 1] && s[k - 1] > s[i]
    requires p > 0 ==> s[p - 1] <= s[i]
    ensures i - p == Count(s[..i], Above(s[i]))
  {
    forall k | p <= k < i
      ensures s[k] > s[i]
    {
      assert r[k + 1] == s[k + 1 - 1];
    }
    MovedCount(s, i, p);
    KeptCount(s, i, p);
    assert s[..i] == s[..p] + s[p..i];
    CountAppend(s[..p], s[p..i], Above(s[i]));
  }

  /** One round of `insertionSort` for slot `i`: the key `s[i]` ends in slot
      `p`; slots before `p` keep their values, which the shift loop did not
      move (the nearest is at most the key); slots `p+1 .. i` receive the
      values from one slot to the left, each strictly greater than the key;
      slots after `i` are untouched. One comparison per shift plus the one
      that stopped the loop (none when it ran off the front), one write per
      shift plus the key's; over a sorted prefix the shifts are exactly the
      earlier values above the key. */
  method InsertKey(s: seq<int>, i: nat) returns (r: seq<int>, p: nat, trace: seq<Step>)
    requires i < |s|
    ensures p <= i && |r| == |s| && r[p] == s[i]
    ensures forall k :: 0 <= k < p ==> r[k] == s[k]
    ensures forall k :: p < k <= i ==> r[k] == s[k - 1] && s[k - 1] > s[i]
    ensures p > 0 ==> s[p - 1] <= s[i]
    ensures forall k :: i < k < |s| ==> r[k] == s[k]
    ensures multiset(r) == multiset(s)
    ensures SortedBetween(s, 0, i) ==> SortedBetween(r, 0, i + 1)
    ensures Replay(s, trace) == Some(r)
    ensures Tally(trace, Store) == i - p + 1
    ensures Tally(trace, Comparison) == i - p + (if p > 0 then 1 else 0)
    ensures Tally(trace, Exchange) == 0
    ensures SortedBetween(s, 0, i) ==> i - p == Count(s[..i], Above(s[i]))
    ensures KeyIs(trace, s[i])
  {
    var key := s[i];
    var j := i - 1;
    r, trace := s, [];
    while j >= 0 && r[j] > key
      invariant Shifted(s, i, j, r, trace)
      invariant KeyIs(trace, key)
      decreases j + 1
    {
      ShiftAdvances(s, i, j, r, trace);
      KeyAppend(trace, ShiftSteps(r, j, key), key);
      trace := trace + ShiftSteps(r, j, key);
      r := r[j + 1 := r[j]];
      j := j - 1;
    }
    PlaceRecorded(s, i, j, r, trace);
    KeyAppend(trace, PlaceSteps(j, key), key);
    trace := trace + PlaceSteps(j, key);
    p := j + 1;
    r := r[p := key];
    RoundResult(s, i, p, r);
    if SortedBetween(s, 0, i) {
      ShiftCount(s, i, p, r);
    }
  }

  /** The inversions of `a`, the pairs of slots `p < q` with `a[p] > a[q]`,
      counted slot by slot: for each `q`, the earlier values above `a[q]`. */
  function Inversions(a: seq<int>): nat
  {
    if a == [] then 0 else Inversions(a[..|a| - 1]) + Count(a[..|a| - 1], Above(a[|a| - 1]))
  }

  /** A board has no inversion exactly when it is sorted. */
  lemma {:induction false} NoInversionsIffSorted(a: seq<int>)
    ensures Inversions(a) == 0 <==> Sorted(a)
    decreases |a|
  {
    if a != [] {
      var init, last := a[..|a| - 1], a[|a| - 1];
      NoInversionsIffSorted(init);
      CountExtremes(init, Above(last));
      assert forall k :: 0 <= k < |init| ==> init[k] == a[k];
      if Sorted(a) {
        assert Sorted(init);
        assert forall k :: 0 <= k < |init| ==> !Above(last)(init[k]);
      }
      if Inversions(a) == 0 {
        forall p, q | 0 <= p < q < |a|
          ensures a[p] <= a[q]
        {
          if q < |a| - 1 {
            assert init[p] <= init[q];
          } else {
            assert !Above(last)(init[p]);
          }
        }
      }
    }
  }

  lemma InversionsGrow(a: seq<int>, i: nat)
    requires i < |a|
    ensures Inversions(a[..i + 1]) == Inversions(a[..i]) + Count(a[..i], Above(a[i]))
  {
    assert a[..i + 1][..i] == a[..i];
  }

  /** Boards that are permutations of each other and agree from slot `i` on
      are permutations of each other before slot `i`. */
  lemma PrefixPermutes(a: seq<int>, r: seq<int>, i: nat)
    requires i <= |a| == |r| && multiset(r) == multiset(a)
    requires forall k :: i <= k < |a| ==> r[k] == a[k]
    ensures multiset(r[..i]) == multiset(a[..i])
  {
    assert a == a[..i] + a[i..];
    assert r == r[..i] + r[i..];
    assert r[i..] == a[i..];
    assert multiset(r[..i]) == multiset(r) - multiset(r[i..]);
    assert multiset(a[..i]) == multiset(a) - multiset(a[i..]);
  }

  /** The facts that hold once the rounds for slots `1 .. i-1` have run over
      the `n` blocks of `a`, leaving board `r` and record `trace`. */
  predicate RoundsDone(a: seq<int>, r: seq<int>, trace: seq<Step>, n: nat, i: nat)
  {
    && n == |a| == |r|
    && 1 <= i && (i <= n || n == 0)
    && multiset(r) == multiset(a)
    && (i <= n ==> SortedBetween(r, 0, i))
    && (forall k :: i <= k < n ==> r[k] == a[k])
    && Replay(a, trace) == Some(r)
    && Tally(trace, Exchange) == 0
    && (i <= n ==> Tally(trace, Store) == Inversions(a[..i]) + i - 1)
    && (n <= 1 ==> trace == [])
  }

  /** The writes of round `i` are the earlier values above `a[i]`, which
      the round shifts, plus the key's own write. */
  lemma RoundCounted(a: seq<int>, r: seq<int>, trace: seq<Step>, n: nat, i: nat, t: seq<Step>, p: nat)
    requires i < n && RoundsDone(a, r, trace, n, i)
    requires p <= i && Tally(t, Store) == i - p + 1
    requires i - p == Count(r[..i], Above(r[i]))
    ensures Tally(trace + t, Store) == Inversions(a[..i + 1]) + i
  {
    PrefixPermutes(a, r, i);
    CountPermutation(r[..i], a[..i], Above(a[i]));
    InversionsGrow(a, i);
    TallyAppend(trace, t, Store);
  }

  /** One pass of the outer loop of `insertionSort`, for slot `i`. */
  method InsertRound(a: seq<int>, r: seq<int>, trace: seq<Step>, n: nat, i: nat) returns (r': seq<int>, trace': seq<Step>)
    requires i < n && RoundsDone(a, r, trace, n, i)
    ensures RoundsDone(a, r', trace', n, i + 1)
  {
    var p, t;
    r', p, t := InsertKey(r, i);
    ReplayAppend(a, trace, t);
    TallyAppend(trace, t, Exchange);
    RoundCounted(a, r, trace, n, i, t, p);
    trace' := trace + t;
  }

  /** `insertionSort`: the result is the sorted permutation of the input, the
      trace replays to it, values only move by writes (never by exchanges),
      one write per inversion of the input plus one per key, and an empty or
      one-block board is left alone without a single step. */
  method InsertionSort(a: seq<int>) returns (r: seq<int>, trace: seq<Step>)
    ensures IsSortOf(a, r)
    ensures Replay(a, trace) == Some(r)
    ensures Tally(trace, Exchange) == 0
    ensures |a| > 0 ==> Tally(trace, Store) == Inversions(a) + |a| - 1
    ensures |a| <= 1 ==> r == a && trace == []
  {
    var n := |a|;
    r, trace := a, [];
    var i := 1;
    assert n > 0 ==> a[..1][..0] == [];
    while i < n
      invariant RoundsDone(a, r, trace, n, i)
    {
      r, trace := InsertRound(a, r, trace, n, i);
      i := i + 1;
    }
    assert a[..n] == a;
  }
}
