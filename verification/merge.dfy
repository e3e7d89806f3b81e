/** Merge sort (`mergeSort` and `merge`, script.js): split the range at
    `mid = floor((left + right) / 2)`, sort both halves, then merge them
    through two buffers, taking the left head whenever it is at most the
    right head. Ranges are given by inclusive bounds, as in the source. */
module MergeDriver {
  import opened Blocks
  import opened Trace

  /** The key that orders plain block values: the value itself. */
  function Identity(x: int): int
  {
    x
  }

  /** The merge of two runs, front to front: the smaller head goes first, and
      on equal keys the head of `xs` goes first (the test is `<=`). */
  function MergeBy<T(==)>(xs: seq<T>, ys: seq<T>, key: T -> int): (zs: seq<T>)
    ensures |zs| == |xs| + |ys|
    ensures multiset(zs) == multiset(xs) + multiset(ys)
    decreases |xs| + |ys|
  {
    if xs == [] then ys
    else if ys == [] then xs
    else if key(xs[0]) <= key(ys[0]) then
      assert xs == [xs[0]] + xs[1..];
      [xs[0]] + MergeBy(xs[1..], ys, key)
    else
      assert ys == [ys[0]] + ys[1..];
      [ys[0]] + MergeBy(xs, ys[1..], key)
  }

  /** The keys of `s` never decrease. */
  predicate SortedBy<T>(s: seq<T>, key: T -> int)
  {
    forall a, b :: 0 <= a < b < |s| ==> key(s[a]) <= key(s[b])
  }

  /** Every element of a merge comes from one of the two runs. */
  lemma MergeMember<T>(xs: seq<T>, ys: seq<T>, key: T -> int, z: T)
    requires z in MergeBy(xs, ys, key)
    ensures z in xs || z in ys
  {
    assert z in multiset(MergeBy(xs, ys, key));
  }

  /** A bound below both runs is a bound below their merge. */
  lemma MergeAbove<T>(xs: seq<T>, ys: seq<T>, key: T -> int, b: int)
    requires forall k :: 0 <= k < |xs| ==> b <= key(xs[k])
    requires forall k :: 0 <= k < |ys| ==> b <= key(ys[k])
    ensures forall k :: 0 <= k < |MergeBy(xs, ys, key)| ==> b <= key(MergeBy(xs, ys, key)[k])
  {
    var zs := MergeBy(xs, ys, key);
    forall k | 0 <= k < |zs|
      ensures b <= key(zs[k])
    {
      MergeMember(xs, ys, key, zs[k]);
    }
  }

  /** A sorted run stays sorted behind a head no greater than any of it. */
  lemma SortedCons<T>(h: T, rest: seq<T>, key: T -> int)
    requires SortedBy(rest, key)
    requires forall k :: 0 <= k < |rest| ==> key(h) <= key(rest[k])
    ensures SortedBy([h] + rest, key)
  {
    var zs := [h] + rest;
    forall a, b | 0 <= a < b < |zs|
      ensures key(zs[a]) <= key(zs[b])
    {
      assert zs[b] == rest[b - 1];
      if a > 0 {
        assert zs[a] == rest[a - 1];
      }
    }
  }

  /** Merging two runs sorted by `key` gives a run sorted by `key`. */
  lemma {:induction false} MergeBySorted<T>(xs: seq<T>, ys: seq<T>, key: T -> int)
    requires SortedBy(xs, key) && SortedBy(ys, key)
    ensures SortedBy(MergeBy(xs, ys, key), key)
    decreases |xs| + |ys|
  {
    if xs != [] && ys != [] {
      if key(xs[0]) <= key(ys[0]) {
        MergeBySorted(xs[1..], ys, key);
        MergeAbove(xs[1..], ys, key, key(xs[0]));
        SortedCons(xs[0], MergeBy(xs[1..], ys, key), key);
      } else {
        MergeBySorted(xs, ys[1..], key);
        MergeAbove(xs, ys[1..], key, key(ys[0]));
        SortedCons(ys[0], MergeBy(xs, ys[1..], key), key);
      }
    }
  }

  /** Merging two ascending runs of values gives the ascending arrangement of
      their values together. */
  lemma MergeSortsBoth(xs: seq<int>, ys: seq<int>)
    requires Sorted(xs) && Sorted(ys)
    ensures IsSortOf(xs + ys, MergeBy(xs, ys, Identity))
  {
    MergeBySorted(xs, ys, Identity);
    var zs := MergeBy(xs, ys, Identity);
    assert forall a, b :: 0 <= a < b < |zs| ==> Identity(zs[a]) <= Identity(zs[b]);
  }

  /** A block value paired with the slot it held before the merge. */
  type Tagged = (int, int)

  function Value(t: Tagged): int
  {
    t.0
  }

  /** Ordered by value and, among equal values, by original slot. */
  predicate StableOrder(s: seq<Tagged>)
  {
    forall a, b :: 0 <= a < b < |s| ==> s[a].0 < s[b].0 || (s[a].0 == s[b].0 && s[a].1 < s[b].1)
  }

  /** A run ordered by value and slot stays ordered behind a head that
      precedes every element of it. */
  lemma StableCons(h: Tagged, rest: seq<Tagged>)
    requires StableOrder(rest)
    requires forall k :: 0 <= k < |rest| ==> h.0 < rest[k].0 || (h.0 == rest[k].0 && h.1 < rest[k].1)
    ensures StableOrder([h] + rest)
  {
    var zs := [h] + rest;
    forall a, b | 0 <= a < b < |zs|
      ensures zs[a].0 < zs[b].0 || (zs[a].0 == zs[b].0 && zs[a].1 < zs[b].1)
    {
      assert zs[b] == rest[b - 1];
      if a > 0 {
        assert zs[a] == rest[a - 1];
      }
    }
  }

  /** The merge is stable: when both runs are ordered by value and original
      slot, and every slot of the left run precedes every slot of the right
      run, merging by value alone keeps equal values in their original order. */
  lemma {:induction false} MergeIsStable(xs: seq<Tagged>, ys: seq<Tagged>)
    requires StableOrder(xs) && StableOrder(ys)
    requires forall a, b :: 0 <= a < |xs| && 0 <= b < |ys| ==> xs[a].1 < ys[b].1
    ensures StableOrder(MergeBy(xs, ys, Value))
    decreases |xs| + |ys|
  {
    if xs != [] && ys != [] {
      if Value(xs[0]) <= Value(ys[0]) {
        var rest := MergeBy(xs[1..], ys, Value);
        MergeIsStable(xs[1..], ys);
        forall k | 0 <= k < |rest|
          ensures xs[0].0 < rest[k].0 || (xs[0].0 == rest[k].0 && xs[0].1 < rest[k].1)
        {
          MergeMember(xs[1..], ys, Value, rest[k]);
        }
        StableCons(xs[0], rest);
      } else {
        var rest := MergeBy(xs, ys[1..], Value);
        MergeIsStable(xs, ys[1..]);
        forall k | 0 <= k < |rest|
          ensures ys[0].0 < rest[k].0 || (ys[0].0 == rest[k].0 && ys[0].1 < rest[k].1)
        {
          MergeMember(xs, ys[1..], Value, rest[k]);
        }
        StableCons(ys[0], rest);
      }
    }
  }

  /** The values of tagged blocks, tags dropped. */
  function Values(ts: seq<Tagged>): (vs: seq<int>)
    ensures |vs| == |ts| && forall k :: 0 <= k < |ts| ==> vs[k] == ts[k].0
  {
    seq(|ts|, k requires 0 <= k < |ts| => ts[k].0)
  }

  /** A run whose `k`-th value came from slot `from + k`, tagged with its slot. */
  function Tag(s: seq<int>, from: int): (ts: seq<Tagged>)
    ensures |ts| == |s| && forall k :: 0 <= k < |s| ==> ts[k] == (s[k], from + k)
  {
    seq(|s|, k requires 0 <= k < |s| => (s[k], from + k))
  }

  lemma ValuesCons(h: Tagged, rest: seq<Tagged>)
    ensures Values([h] + rest) == [h.0] + Values(rest)
  {
  }

  lemma ValuesTail(xs: seq<Tagged>)
    requires xs != []
    ensures Values(xs[1..]) == Values(xs)[1..]
  {
  }

  /** Dropping the tags commutes with merging by value: the tagged merge puts
      the values in the same order as the plain merge. */
  lemma {:induction false} ValuesOfMerge(xs: seq<Tagged>, ys: seq<Tagged>)
    ensures Values(MergeBy(xs, ys, Value)) == MergeBy(Values(xs), Values(ys), Identity)
    decreases |xs| + |ys|
  {
    if xs == [] {
      assert Values(xs) == [];
    } else if ys == [] {
      assert Values(ys) == [];
    } else {
      ValuesTail(xs);
      ValuesTail(ys);
      if Value(xs[0]) <= Value(ys[0]) {
        ValuesOfMerge(xs[1..], ys);
        ValuesCons(xs[0], MergeBy(xs[1..], ys, Value));
      } else {
        ValuesOfMerge(xs, ys[1..]);
        ValuesCons(ys[0], MergeBy(xs, ys[1..], Value));
      }
    }
  }

  /** A sorted stretch of the board, tagged with its slots, is ordered by
      value and slot. */
  lemma TagOrdered(s: seq<int>, lo: nat, hi: nat)
    requires lo <= hi <= |s| && SortedBetween(s, lo, hi)
    ensures StableOrder(Tag(s[lo..hi], lo))
  {
    var ts := Tag(s[lo..hi], lo);
    forall a, b | 0 <= a < b < |ts|
      ensures ts[a].0 < ts[b].0 || (ts[a].0 == ts[b].0 && ts[a].1 < ts[b].1)
    {
      assert ts[a] == (s[lo + a], lo + a) && ts[b] == (s[lo + b], lo + b);
    }
  }

  /** The merge of the halves `left .. mid` and `mid+1 .. right` of `s` with
      every value tagged by the slot it held before the merge. */
  function TaggedMerge(s: seq<int>, left: nat, mid: nat, right: nat): seq<Tagged>
    requires left <= mid <= right < |s|
  {
    MergeBy(Tag(s[left..mid + 1], left), Tag(s[mid + 1..right + 1], mid + 1), Value)
  }

  /** Without its tags, the tagged merge is the plain merge; the tagged merge
      of two sorted halves is stable: equal values stay in their original
      slot order. */
  lemma TaggedMergeValues(s: seq<int>, left: nat, mid: nat, right: nat)
    requires left <= mid <= right < |s|
    ensures Values(TaggedMerge(s, left, mid, right)) == MergeBy(s[left..mid + 1], s[mid + 1..right + 1], Identity)
  {
    var l, rr := s[left..mid + 1], s[mid + 1..right + 1];
    assert Values(Tag(l, left)) == l && Values(Tag(rr, mid + 1)) == rr;
    ValuesOfMerge(Tag(l, left), Tag(rr, mid + 1));
  }

  lemma TaggedMergeStable(s: seq<int>, left: nat, mid: nat, right: nat)
    requires left <= mid <= right < |s|
    requires SortedBetween(s, left, mid + 1) && SortedBetween(s, mid + 1, right + 1)
    ensures StableOrder(TaggedMerge(s, left, mid, right))
  {
    TagOrdered(s, left, mid + 1);
    TagOrdered(s, mid + 1, right + 1);
    MergeIsStable(Tag(s[left..mid + 1], left), Tag(s[mid + 1..right + 1], mid + 1));
  }

  /** The pairs of buffer heads `merge` compares once it has taken `i`
      values of `l` and `j` of `rr`, in order: one per value it writes while
      both buffers still hold values. */
  function HeadPairs(l: seq<int>, rr: seq<int>, i: nat, j: nat): (ps: seq<(int, int)>)
    requires i <= |l| && j <= |rr|
    ensures ps == [] <==> i == |l| || j == |rr|
    ensures |ps| < |l| - i + |rr| - j || ps == []
    decreases |l| - i + |rr| - j
  {
    if i == |l| || j == |rr| then []
    else [(l[i], rr[j])] + (if l[i] <= rr[j] then HeadPairs(l, rr, i + 1, j) else HeadPairs(l, rr, i, j + 1))
  }

  /** When the left buffer's next value is taken, it is the next value of the
      merge, and the rest of the merge is the merge of what remains. */
  lemma TakesLeft(l: seq<int>, rr: seq<int>, m: seq<int>, i: nat, j: nat)
    requires i < |l| && j <= |rr| && (j == |rr| || l[i] <= rr[j])
    requires i + j <= |m| && MergeBy(l[i..], rr[j..], Identity) == m[i + j..]
    ensures i + j < |m| && m[i + j] == l[i]
    ensures MergeBy(l[i + 1..], rr[j..], Identity) == m[i + j + 1..]
  {
    assert l[i..][1..] == l[i + 1..];
    if j == |rr| {
      assert rr[j..] == [];
      assert l[i..] == [l[i]] + l[i + 1..];
    }
    assert m[i + j..] == [l[i]] + MergeBy(l[i + 1..], rr[j..], Identity);
    assert m[i + j..][1..] == m[i + j + 1..];
  }

  /** When the right buffer's next value is taken, likewise. */
  lemma TakesRight(l: seq<int>, rr: seq<int>, m: seq<int>, i: nat, j: nat)
    requires i <= |l| && j < |rr| && (i == |l| || l[i] > rr[j])
    requires i + j <= |m| && MergeBy(l[i..], rr[j..], Identity) == m[i + j..]
    ensures i + j < |m| && m[i + j] == rr[j]
    ensures MergeBy(l[i..], rr[j + 1..], Identity) == m[i + j + 1..]
  {
    assert rr[j..][1..] == rr[j + 1..];
    if i == |l| {
      assert l[i..] == [];
      assert rr[j..] == [rr[j]] + rr[j + 1..];
    }
    assert m[i + j..] == [rr[j]] + MergeBy(l[i..], rr[j + 1..], Identity);
    assert m[i + j..][1..] == m[i + j + 1..];
  }

  /** Slots `left .. left+n-1` hold the first `n` values of `m`, and nothing
      outside `left .. left+|m|-1` has moved. */
  predicate Filled(s: seq<int>, r: seq<int>, left: nat, m: seq<int>, n: nat)
  {
    && n <= |m| && left + |m| <= |s|
    && SameOutside(s, r, left, left + |m|)
    && forall q :: 0 <= q < n ==> r[left + q] == m[q]
  }

  lemma FillOne(s: seq<int>, r: seq<int>, left: nat, m: seq<int>, n: nat)
    requires Filled(s, r, left, m, n) && n < |m|
    ensures Filled(s, r[left + n := m[n]], left, m, n + 1)
  {
  }

  /** `trace` replays from `s` to `r` with no exchanges and `n` writes, to
      the slots `left .. left+n-1` in that order. */
  predicate Recorded(s: seq<int>, r: seq<int>, trace: seq<Step>, left: nat, n: nat)
  {
    && Replay(s, trace) == Some(r)
    && Tally(trace, Store) == n
    && Tally(trace, Exchange) == 0
    && WrittenSlots(trace) == Slots(left, n)
  }

  lemma RecordedFacts(s: seq<int>, r: seq<int>, trace: seq<Step>, left: nat, n: nat)
    requires Recorded(s, r, trace, left, n)
    ensures Replay(s, trace) == Some(r)
    ensures Tally(trace, Store) == n && Tally(trace, Exchange) == 0
    ensures WrittenSlots(trace) == Slots(left, n)
  {
  }

  /** A write into the next slot is recorded as one more write. */
  lemma WriteRecorded(s: seq<int>, r: seq<int>, trace: seq<Step>, left: nat, n: nat, v: int)
    requires Recorded(s, r, trace, left, n) && left + n < |r|
    ensures Recorded(s, r[left + n := v], trace + [Write(left + n, v)], left, n + 1)
    ensures Tally(trace + [Write(left + n, v)], Comparison) == Tally(trace, Comparison)
    ensures MergedPairs(trace + [Write(left + n, v)]) == MergedPairs(trace)
  {
    var w := Write(left + n, v);
    AppendOne(trace, w);
    ReplayStep(s, trace, w);
    OneStep(w, Comparison);
    OneStep(w, Store);
    OneStep(w, Exchange);
    TallyAppend(trace, [w], Comparison);
    TallyAppend(trace, [w], Store);
    TallyAppend(trace, [w], Exchange);
  }

  /** A comparison of the buffer heads is recorded and leaves the board alone. */
  lemma CompareRecorded(s: seq<int>, r: seq<int>, trace: seq<Step>, left: nat, n: nat, x: int, y: int)
    requires Recorded(s, r, trace, left, n)
    ensures Recorded(s, r, trace + [CompareMerged(x, y, x <= y)], left, n)
    ensures Tally(trace + [CompareMerged(x, y, x <= y)], Comparison) == Tally(trace, Comparison) + 1
    ensures MergedPairs(trace + [CompareMerged(x, y, x <= y)]) == MergedPairs(trace) + [(x, y)]
  {
    var c := CompareMerged(x, y, x <= y);
    AppendOne(trace, c);
    ReplayStep(s, trace, c);
    OneStep(c, Comparison);
    OneStep(c, Store);
    OneStep(c, Exchange);
    TallyAppend(trace, [c], Comparison);
    TallyAppend(trace, [c], Store);
    TallyAppend(trace, [c], Exchange);
  }

  /** The facts that hold while `merge` runs over the buffers `l` (copied from
      `left .. mid`) and `rr` (from `mid+1 .. right`) whose full merge is `m`:
      `i` and `j` values of them have been written to slots
      `left .. left+i+j-1`, which hold the first `i+j` values of `m`, and the
      rest of `m` is the merge of what is left of the buffers. */
  predicate Merging(s: seq<int>, left: nat, l: seq<int>, rr: seq<int>, m: seq<int>, i: nat, j: nat, r: seq<int>, trace: seq<Step>)
  {
    && i <= |l| && j <= |rr| && |m| == |l| + |rr|
    && MergeBy(l[i..], rr[j..], Identity) == m[i + j..]
    && Filled(s, r, left, m, i + j)
    && Recorded(s, r, trace, left, i + j)
  }

  /** The step that writes the left buffer's next value. */
  lemma LeftTaken(s: seq<int>, left: nat, l: seq<int>, rr: seq<int>, m: seq<int>, i: nat, j: nat, r: seq<int>, trace: seq<Step>)
    requires Merging(s, left, l, rr, m, i, j, r, trace)
    requires i < |l| && (j == |rr| || l[i] <= rr[j])
    ensures Merging(s, left, l, rr, m, i + 1, j, r[left + i + j := l[i]], trace + [Write(left + i + j, l[i])])
    ensures Tally(trace + [Write(left + i + j, l[i])], Comparison) == Tally(trace, Comparison)
    ensures MergedPairs(trace + [Write(left + i + j, l[i])]) == MergedPairs(trace)
  {
    TakesLeft(l, rr, m, i, j);
    FillOne(s, r, left, m, i + j);
    WriteRecorded(s, r, trace, left, i + j, l[i]);
  }

  /** The step that writes the right buffer's next value. */
  lemma RightTaken(s: seq<int>, left: nat, l: seq<int>, rr: seq<int>, m: seq<int>, i: nat, j: nat, r: seq<int>, trace: seq<Step>)
    requires Merging(s, left, l, rr, m, i, j, r, trace)
    requires j < |rr| && (i == |l| || l[i] > rr[j])
    ensures Merging(s, left, l, rr, m, i, j + 1, r[left + i + j := rr[j]], trace + [Write(left + i + j, rr[j])])
    ensures Tally(trace + [Write(left + i + j, rr[j])], Comparison) == Tally(trace, Comparison)
    ensures MergedPairs(trace + [Write(left + i + j, rr[j])]) == MergedPairs(trace)
  {
    TakesRight(l, rr, m, i, j);
    FillOne(s, r, left, m, i + j);
    WriteRecorded(s, r, trace, left, i + j, rr[j]);
  }

  /** Once every slot of the range is filled, the range holds the full merge. */
  lemma RangeFilled(s: seq<int>, r: seq<int>, left: nat, m: seq<int>)
    requires Filled(s, r, left, m, |m|)
    ensures r[left..left + |m|] == m
  {
  }

  /** A range holding the merge of its two halves is a permutation of them. */
  lemma MergedPermutes(s: seq<int>, r: seq<int>, left: nat, mid: nat, right: nat)
    requires left <= mid <= right < |s|
    requires SameOutside(s, r, left, right + 1)
    requires r[left..right + 1] == MergeBy(s[left..mid + 1], s[mid + 1..right + 1], Identity)
    ensures multiset(r) == multiset(s)
  {
    Halves(s, left, mid, right);
    RangePermutation(s, r, left, right + 1);
  }

  /** The values of a range are those of its two halves. */
  lemma Halves(s: seq<int>, left: nat, mid: nat, right: nat)
    requires left <= mid <= right < |s|
    ensures multiset(s[left..right + 1]) == multiset(s[left..mid + 1]) + multiset(s[mid + 1..right + 1])
  {
    assert s[left..right + 1] == s[left..mid + 1] + s[mid + 1..right + 1];
  }

  /** A range holding the merge of two sorted halves is sorted. */
  lemma MergedSorted(s: seq<int>, r: seq<int>, left: nat, mid: nat, right: nat)
    requires left <= mid <= right < |s| == |r|
    requires r[left..right + 1] == MergeBy(s[left..mid + 1], s[mid + 1..right + 1], Identity)
    requires SortedBetween(s, left, mid + 1) && SortedBetween(s, mid + 1, right + 1)
    ensures SortedBetween(r, left, right + 1)
  {
    var l, rr := s[left..mid + 1], s[mid + 1..right + 1];
    MergeSortsBoth(l, rr);
    var w := r[left..right + 1];
    assert Sorted(w);
    forall a, b | left <= a < b < right + 1
      ensures r[a] <= r[b]
    {
      assert r[a] == w[a - left] && r[b] == w[b - left];
    }
  }

  /** One pass of the first loop of `merge`: compare the buffer heads, then
      write the smaller one, the left one on a tie. */
  method MergeRound(s: seq<int>, left: nat, l: seq<int>, rr: seq<int>, m: seq<int>, i: nat, j: nat, r: seq<int>, trace: seq<Step>)
    returns (r': seq<int>, trace': seq<Step>, i': nat, j': nat)
    requires Merging(s, left, l, rr, m, i, j, r, trace) && i < |l| && j < |rr|
    ensures Merging(s, left, l, rr, m, i', j', r', trace')
    ensures Tally(trace', Comparison) == Tally(trace, Comparison) + 1
    ensures i' + j' == i + j + 1 && i' <= |l| && j' <= |rr| && (i' < |l| || j' < |rr|)
    ensures MergedPairs(trace') == MergedPairs(trace) + [(l[i], rr[j])]
    ensures if l[i] <= rr[j] then i' == i + 1 && j' == j else i' == i && j' == j + 1
  {
    var x, y := l[i], rr[j];
    CompareRecorded(s, r, trace, left, i + j, x, y);
    var t := trace + [CompareMerged(x, y, x <= y)];
    if x <= y {
      LeftTaken(s, left, l, rr, m, i, j, r, t);
      r', trace', i', j' := r[left + i + j := x], t + [Write(left + i + j, x)], i + 1, j;
    } else {
      RightTaken(s, left, l, rr, m, i, j, r, t);
      r', trace', i', j' := r[left + i + j := y], t + [Write(left + i + j, y)], i, j + 1;
    }
  }

  /** Recording the comparison of the current heads and moving past the
      written one keeps the recorded pairs a prefix of all the head pairs. */
  lemma PairsAdvance(l: seq<int>, rr: seq<int>, i: nat, j: nat, i': nat, j': nat, ps: seq<(int, int)>, ps': seq<(int, int)>)
    requires i < |l| && j < |rr| && ps + HeadPairs(l, rr, i, j) == HeadPairs(l, rr, 0, 0)
    requires ps' == ps + [(l[i], rr[j])]
    requires if l[i] <= rr[j] then i' == i + 1 && j' == j else i' == i && j' == j + 1
    ensures ps' + HeadPairs(l, rr, i', j') == HeadPairs(l, rr, 0, 0)
  {
    HeadPairsStep(l, rr, i, j, i', j');
    ShiftHead(ps, (l[i], rr[j]), HeadPairs(l, rr, i', j'), HeadPairs(l, rr, 0, 0));
  }

  lemma HeadPairsStep(l: seq<int>, rr: seq<int>, i: nat, j: nat, i': nat, j': nat)
    requires i < |l| && j < |rr|
    requires if l[i] <= rr[j] then i' == i + 1 && j' == j else i' == i && j' == j + 1
    ensures HeadPairs(l, rr, i, j) == [(l[i], rr[j])] + HeadPairs(l, rr, i', j')
  {
  }

  lemma ShiftHead<T>(ps: seq<T>, h: T, rest: seq<T>, whole: seq<T>)
    requires ps + ([h] + rest) == whole
    ensures (ps + [h]) + rest == whole
  {
  }

  /** The first loop of `merge`: while both buffers hold values, compare their
      heads and write the smaller one. It stops as soon as one buffer is used
      up, so it makes fewer comparisons than there are values, unless there
      are none at all. */
  method CompareHeads(s: seq<int>, left: nat, l: seq<int>, rr: seq<int>, m: seq<int>)
    returns (i: nat, j: nat, r: seq<int>, trace: seq<Step>)
    requires left + |l| + |rr| <= |s| && m == MergeBy(l, rr, Identity)
    ensures Merging(s, left, l, rr, m, i, j, r, trace)
    ensures i == |l| || j == |rr|
    ensures Tally(trace, Comparison) == i + j
    ensures i + j == 0 || i < |l| || j < |rr|
    ensures MergedPairs(trace) == HeadPairs(l, rr, 0, 0)
  {
    i, j, r, trace := 0, 0, s, [];
    assert l[0..] == l && rr[0..] == rr && m[0..] == m;
    while i < |l| && j < |rr|
      invariant Merging(s, left, l, rr, m, i, j, r, trace)
      invariant Tally(trace, Comparison) == i + j
      invariant i + j == 0 || i < |l| || j < |rr|
      invariant MergedPairs(trace) + HeadPairs(l, rr, i, j) == HeadPairs(l, rr, 0, 0)
      decreases |l| + |rr| - i - j
    {
      var r', trace', i', j' := MergeRound(s, left, l, rr, m, i, j, r, trace);
      PairsAdvance(l, rr, i, j, i', j', MergedPairs(trace), MergedPairs(trace'));
      r, trace, i, j := r', trace', i', j';
    }
    assert HeadPairs(l, rr, i, j) == [];
  }

  /** The second loop of `merge`: copy what is left of the left buffer. */
  method DrainLeft(s: seq<int>, left: nat, l: seq<int>, rr: seq<int>, m: seq<int>, i: nat, j: nat, r: seq<int>, trace: seq<Step>)
    returns (i': nat, r': seq<int>, trace': seq<Step>)
    requires Merging(s, left, l, rr, m, i, j, r, trace) && (i < |l| ==> j == |rr|)
    ensures i' == |l| && Merging(s, left, l, rr, m, i', j, r', trace')
    ensures Tally(trace', Comparison) == Tally(trace, Comparison)
    ensures MergedPairs(trace') == MergedPairs(trace)
  {
    i', r', trace' := i, r, trace;
    while i' < |l|
      invariant Merging(s, left, l, rr, m, i', j, r', trace')
      invariant Tally(trace', Comparison) == Tally(trace, Comparison)
      invariant MergedPairs(trace') == MergedPairs(trace)
    {
      LeftTaken(s, left, l, rr, m, i', j, r', trace');
      r', trace' := r'[left + i' + j := l[i']], trace' + [Write(left + i' + j, l[i'])];
      i' := i' + 1;
    }
  }

  /** The third loop of `merge`: copy what is left of the right buffer. */
  method DrainRight(s: seq<int>, left: nat, l: seq<int>, rr: seq<int>, m: seq<int>, i: nat, j: nat, r: seq<int>, trace: seq<Step>)
    returns (j': nat, r': seq<int>, trace': seq<Step>)
    requires Merging(s, left, l, rr, m, i, j, r, trace) && i == |l|
    ensures j' == |rr| && Merging(s, left, l, rr, m, i, j', r', trace')
    ensures Tally(trace', Comparison) == Tally(trace, Comparison)
    ensures MergedPairs(trace') == MergedPairs(trace)
  {
    j', r', trace' := j, r, trace;
    while j' < |rr|
      invariant Merging(s, left, l, rr, m, i, j', r', trace')
      invariant Tally(trace', Comparison) == Tally(trace, Comparison)
      invariant MergedPairs(trace') == MergedPairs(trace)
    {
      RightTaken(s, left, l, rr, m, i, j', r', trace');
      r', trace' := r'[left + i + j' := rr[j']], trace' + [Write(left + i + j', rr[j'])];
      j' := j' + 1;
    }
  }

  /** A range filled with the merge of its halves: what the board holds. */
  lemma MergedBoard(s: seq<int>, r: seq<int>, left: nat, mid: nat, right: nat)
    requires left <= mid <= right < |s|
    requires Filled(s, r, left, MergeBy(s[left..mid + 1], s[mid + 1..right + 1], Identity), right - left + 1)
    ensures SameOutside(s, r, left, right + 1)
    ensures r[left..right + 1] == MergeBy(s[left..mid + 1], s[mid + 1..right + 1], Identity)
    ensures r[left..right + 1] == Values(TaggedMerge(s, left, mid, right))
    ensures multiset(r) == multiset(s)
    ensures SortedBetween(s, left, mid + 1) && SortedBetween(s, mid + 1, right + 1) ==> SortedBetween(r, left, right + 1)
  {
    var m := MergeBy(s[left..mid + 1], s[mid + 1..right + 1], Identity);
    RangeFilled(s, r, left, m);
    TaggedMergeValues(s, left, mid, right);
    MergedPermutes(s, r, left, mid, right);
    if SortedBetween(s, left, mid + 1) && SortedBetween(s, mid + 1, right + 1) {
      MergedSorted(s, r, left, mid, right);
    }
  }

  /** Once both buffers are used up, all `n` slots are filled and written. */
  lemma MergeDone(s: seq<int>, left: nat, l: seq<int>, rr: seq<int>, m: seq<int>, r: seq<int>, trace: seq<Step>, n: nat)
    requires Merging(s, left, l, rr, m, |l|, |rr|, r, trace) && n == |l| + |rr|
    ensures Filled(s, r, left, m, n) && Recorded(s, r, trace, left, n)
  {
  }

  /** The three loops of `merge` over the buffers `l` and `rr`: every slot of
      `left .. left+|l|+|rr|-1` receives the next value of their merge, with
      one comparison per pair of heads the merge meets. */
  method Fill(s: seq<int>, left: nat, l: seq<int>, rr: seq<int>, m: seq<int>, n: nat) returns (r: seq<int>, trace: seq<Step>)
    requires left + |l| + |rr| <= |s| && m == MergeBy(l, rr, Identity) && n == |l| + |rr|
    ensures Filled(s, r, left, m, n) && Recorded(s, r, trace, left, n)
    ensures Tally(trace, Comparison) < n || n == 0
    ensures MergedPairs(trace) == HeadPairs(l, rr, 0, 0)
  {
    var i, j;
    i, j, r, trace := CompareHeads(s, left, l, rr, m);
    i, r, trace := DrainLeft(s, left, l, rr, m, i, j, r, trace);
    j, r, trace := DrainRight(s, left, l, rr, m, i, j, r, trace);
    MergeDone(s, left, l, rr, m, r, trace, n);
  }

  /** `merge(blocks, left, mid, right)`: slots `left .. right` receive the
      merge of the two buffers copied from `left .. mid` and `mid+1 .. right`,
      which is a permutation of the range, sorted when both halves were, and
      is the stable merge with the tags dropped; nothing outside the range
      moves. Every slot of the range is written once, in ascending order,
      values move only by writes, and the comparisons are of the buffer heads
      the merge meets, at most `right - left` of them (they stop once a
      buffer runs out). */
  method Merge(s: seq<int>, left: nat, mid: nat, right: nat) returns (r: seq<int>, trace: seq<Step>)
    requires left <= mid <= right < |s|
    ensures SameOutside(s, r, left, right + 1)
    ensures r[left..right + 1] == MergeBy(s[left..mid + 1], s[mid + 1..right + 1], Identity)
    ensures r[left..right + 1] == Values(TaggedMerge(s, left, mid, right))
    ensures multiset(r) == multiset(s)
    ensures SortedBetween(s, left, mid + 1) && SortedBetween(s, mid + 1, right + 1) ==> SortedBetween(r, left, right + 1)
    ensures Replay(s, trace) == Some(r)
    ensures Tally(trace, Store) == right - left + 1
    ensures Tally(trace, Comparison) <= right - left
    ensures Tally(trace, Exchange) == 0
    ensures WrittenSlots(trace) == Slots(left, right - left + 1)
    ensures MergedPairs(trace) == HeadPairs(s[left..mid + 1], s[mid + 1..right + 1], 0, 0)
  {
    var leftArray, rightArray := s[left..mid + 1], s[mid + 1..right + 1];
    var m := MergeBy(leftArray, rightArray, Identity);
    r, trace := Fill(s, left, leftArray, rightArray, m, right - left + 1);
    RecordedFacts(s, r, trace, left, right - left + 1);
    MergedBoard(s, r, left, mid, right);
  }

  /** The split point of `mergeSort`, `Math.floor((left + right) / 2)` (the
      operands are never negative, so Dafny's division agrees): both halves
      are non-empty and the left one is longer by at most one slot. */
  function Mid(left: nat, right: nat): (mid: nat)
    requires left < right
    ensures left <= mid < right
    ensures 0 <= (mid - left + 1) - (right - mid) <= 1
  {
    (left + right) / 2
  }

  /** `mergeSort(blocks, left, right)`: sorts slots `left .. right` as a
      permutation and moves nothing outside them, splitting at
      `floor((left + right) / 2)`; values move only by writes, and a range
      with `left >= right` is left alone without a single step. The bounds
      must name real slots only when the range holds two or more of them. */
  method MergeSort(s: seq<int>, left: int, right: int) returns (r: seq<int>, trace: seq<Step>)
    requires left < right ==> 0 <= left && right < |s|
    ensures SameOutside(s, r, left, right + 1)
    ensures multiset(r) == multiset(s)
    ensures left < right ==> SortedBetween(r, left, right + 1)
    ensures left >= right ==> r == s && trace == []
    ensures Replay(s, trace) == Some(r)
    ensures Tally(trace, Exchange) == 0
    decreases right - left
  {
    r, trace := s, [];
    if left < right {
      var mid := Mid(left, right);
      var s1, t1 := MergeSort(s, left, mid);
      var s2, t2 := MergeSort(s1, mid + 1, right);
      assert SortedBetween(s2, left, mid + 1);
      var s3, t3 := Merge(s2, left, mid, right);
      ReplayAppend(s, t1, t2);
      ReplayAppend(s, t1 + t2, t3);
      TallyAppend(t1, t2, Exchange);
      TallyAppend(t1 + t2, t3, Exchange);
      r, trace := s3, t1 + t2 + t3;
    }
  }

  /** `mergeSort(blocks)` with its default bounds `0` and `blocks.length - 1`:
      the result is the sorted permutation of the input. */
  method MergeSortAll(a: seq<int>) returns (r: seq<int>, trace: seq<Step>)
    ensures IsSortOf(a, r)
    ensures Replay(a, trace) == Some(r)
    ensures Tally(trace, Exchange) == 0
    ensures |a| <= 1 ==> r == a && trace == []
  {
    r, trace := MergeSort(a, 0, |a| - 1);
  }
}
