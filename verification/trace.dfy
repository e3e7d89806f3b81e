/** The record of primitive events a sorting driver performs, in emission
    order, and its replay semantics: replaying a trace from the input board
    re-applies every exchange and write, re-checks the outcome of every
    comparison that reads the board against the board as it stood at that
    moment, and re-checks a comparison of two buffered values against the
    values it carries. */
module Trace {
  import opened Blocks

  datatype Option<+T> = None | Some(value: T)

  /** One primitive event of a driver, as it would be handed to the animation. */
  datatype Step =
      /** `s[i] > s[j]` was evaluated on the board and yielded `result` */
    | Compare(i: int, j: int, result: bool)
      /** `s[j] > key` was evaluated against a value lifted out of the board */
    | CompareKey(j: int, key: int, result: bool)
      /** `x <= y` was evaluated on two values held in merge buffers */
    | CompareMerged(x: int, y: int, result: bool)
      /** the values in slots `i` and `j` were exchanged */
    | Swap(i: int, j: int)
      /** slot `k` was overwritten with `v` */
    | Write(k: int, v: int)

  datatype Kind = Comparison | Exchange | Store

  function KindOf(st: Step): Kind
  {
    match st
    case Compare(_, _, _) => Comparison
    case CompareKey(_, _, _) => Comparison
    case CompareMerged(_, _, _) => Comparison
    case Swap(_, _) => Exchange
    case Write(_, _) => Store
  }

  /** Re-performs one step on board `s`; `None` when the step names a slot
      outside the board or records a comparison outcome that contradicts the
      board (or, for buffered values, the values the step carries). */
  function Apply(s: seq<int>, st: Step): (r: Option<seq<int>>)
    ensures r.Some? ==> |r.value| == |s|
    ensures r.Some? && KindOf(st) == Comparison ==> r.value == s
  {
    match st
    case Compare(i, j, b) =>
      if 0 <= i < |s| && 0 <= j < |s| && b == (s[i] > s[j]) then Some(s) else None
    case CompareKey(j, key, b) =>
      if 0 <= j < |s| && b == (s[j] > key) then Some(s) else None
    case CompareMerged(x, y, b) =>
      if b == (x <= y) then Some(s) else None
    case Swap(i, j) =>
      if 0 <= i < |s| && 0 <= j < |s| then Some(SwapAt(s, i, j)) else None
    case Write(k, v) =>
      if 0 <= k < |s| then Some(s[k := v]) else None
  }

  /** What each kind of step demands of the board it is replayed on, and
      what it leaves there: a board comparison is accepted exactly when both
      slots exist and its outcome is the board's; a key comparison exactly
      when its slot exists and its outcome agrees with the key it carries; a
      buffered comparison exactly when its outcome agrees with the two
      values it carries; an exchange or a write exactly when its slots exist,
      and it changes the board by exchanging, respectively overwriting, those
      slots alone. */
  lemma ApplyAccepts(s: seq<int>, st: Step)
    ensures st.Compare? ==> (Apply(s, st).Some? <==> 0 <= st.i < |s| && 0 <= st.j < |s| && st.result == (s[st.i] > s[st.j]))
    ensures st.CompareKey? ==> (Apply(s, st).Some? <==> 0 <= st.j < |s| && st.result == (s[st.j] > st.key))
    ensures st.CompareMerged? ==> (Apply(s, st).Some? <==> st.result == (st.x <= st.y))
    ensures st.Swap? ==> (Apply(s, st).Some? <==> 0 <= st.i < |s| && 0 <= st.j < |s|)
    ensures st.Swap? && Apply(s, st).Some? ==> Apply(s, st).value == SwapAt(s, st.i, st.j)
    ensures st.Write? ==> (Apply(s, st).Some? <==> 0 <= st.k < |s|)
    ensures st.Write? && Apply(s, st).Some? ==> Apply(s, st).value == s[st.k := st.v]
  {
  }

  /** Continues a replay that may already have failed. */
  function Then(o: Option<seq<int>>, st: Step): Option<seq<int>>
  {
    match o
    case None => None
    case Some(s) => Apply(s, st)
  }

  /** The board reached by replaying `t` from `s`, or `None` if some step of
      `t` is out of range or disagrees with the board. */
  function Replay(s: seq<int>, t: seq<Step>): (r: Option<seq<int>>)
    ensures r.Some? ==> |r.value| == |s|
    ensures r.Some? && Tally(t, Exchange) == 0 && Tally(t, Store) == 0 ==> r.value == s
  {
    if t == [] then Some(s) else Then(Replay(s, t[..|t| - 1]), t[|t| - 1])
  }

  /** The number of steps of kind `k` in `t`. */
  function Tally(t: seq<Step>, k: Kind): nat
  {
    if t == [] then 0
    else Tally(t[..|t| - 1], k) + (if KindOf(t[|t| - 1]) == k then 1 else 0)
  }

  /** The slot pairs of the board comparisons in `t`, in order. */
  function ComparedSlots(t: seq<Step>): seq<(int, int)>
  {
    if t == [] then []
    else
      var last := t[|t| - 1];
      ComparedSlots(t[..|t| - 1]) + (if last.Compare? then [(last.i, last.j)] else [])
  }

  /** The slots overwritten by the writes in `t`, in order. */
  function WrittenSlots(t: seq<Step>): seq<int>
  {
    if t == [] then []
    else
      var last := t[|t| - 1];
      WrittenSlots(t[..|t| - 1]) + (if last.Write? then [last.k] else [])
  }

  /** The value pairs of the buffer comparisons in `t`, in order. */
  function MergedPairs(t: seq<Step>): seq<(int, int)>
  {
    if t == [] then []
    else
      var last := t[|t| - 1];
      MergedPairs(t[..|t| - 1]) + (if last.CompareMerged? then [(last.x, last.y)] else [])
  }

  /** The `n` consecutive slots from `lo`, ascending. */
  function Slots(lo: int, n: nat): (r: seq<int>)
    ensures |r| == n && forall q :: 0 <= q < n ==> r[q] == lo + q
  {
    if n == 0 then [] else Slots(lo, n - 1) + [lo + n - 1]
  }

  /** Appending one step extends the written slots and the buffer pairs by
      what that step contributes. */
  lemma AppendOne(t: seq<Step>, st: Step)
    ensures WrittenSlots(t + [st]) == WrittenSlots(t) + (if st.Write? then [st.k] else [])
    ensures MergedPairs(t + [st]) == MergedPairs(t) + (if st.CompareMerged? then [(st.x, st.y)] else [])
  {
    assert (t + [st])[..|t|] == t;
  }

  lemma OneStep(st: Step, k: Kind)
    ensures ComparedSlots([st]) == (if st.Compare? then [(st.i, st.j)] else [])
    ensures Tally([st], k) == (if KindOf(st) == k then 1 else 0)
  {
    assert [st][..0] == [];
  }

  /** Appending one step continues the replay with that step. */
  lemma ReplayStep(s: seq<int>, t: seq<Step>, st: Step)
    ensures Replay(s, t + [st]) == Then(Replay(s, t), st)
  {
    assert (t + [st])[..|t|] == t;
  }

  /** Replaying a concatenation replays the first part, then the second part
      from wherever the first one ended. */
  lemma {:induction false} ReplayAppend(s: seq<int>, t1: seq<Step>, t2: seq<Step>)
    ensures Replay(s, t1 + t2) == (match Replay(s, t1) case None => None case Some(m) => Replay(m, t2))
    decreases |t2|
  {
    if t2 == [] {
      assert t1 + t2 == t1;
    } else {
      var init := t2[..|t2| - 1];
      var last := t2[|t2| - 1];
      assert t2 == init + [last];
      assert t1 + t2 == (t1 + init) + [last];
      ReplayStep(s, t1 + init, last);
      ReplayAppend(s, t1, init);
      match Replay(s, t1)
      case None =>
      case Some(m) =>
        ReplayStep(m, init, last);
    }
  }

  /** A trace without writes only compares and exchanges, so whatever board
      it replays to holds the same values as the board it started from. */
  lemma {:induction false} ReplayPermutes(s: seq<int>, t: seq<Step>)
    requires Replay(s, t).Some? && Tally(t, Store) == 0
    ensures multiset(Replay(s, t).value) == multiset(s)
    decreases |t|
  {
    if t != [] {
      var init, last := t[..|t| - 1], t[|t| - 1];
      ReplayPermutes(s, init);
    }
  }

  /** Counting steps of a concatenation counts both parts. */
  lemma {:induction false} TallyAppend(t1: seq<Step>, t2: seq<Step>, k: Kind)
    ensures Tally(t1 + t2, k) == Tally(t1, k) + Tally(t2, k)
    decreases |t2|
  {
    if t2 == [] {
      assert t1 + t2 == t1;
    } else {
      var init := t2[..|t2| - 1];
      assert t2 == init + [t2[|t2| - 1]];
      assert (t1 + t2)[..|t1 + t2| - 1] == t1 + init;
      TallyAppend(t1, init, k);
    }
  }

  /** The compared slot pairs of a concatenation are those of both parts, in order. */
  lemma {:induction false} ComparedSlotsAppend(t1: seq<Step>, t2: seq<Step>)
    ensures ComparedSlots(t1 + t2) == ComparedSlots(t1) + ComparedSlots(t2)
    decreases |t2|
  {
    if t2 == [] {
      assert t1 + t2 == t1;
    } else {
      var init := t2[..|t2| - 1];
      assert t2 == init + [t2[|t2| - 1]];
      assert (t1 + t2)[..|t1 + t2| - 1] == t1 + init;
      ComparedSlotsAppend(t1, init);
    }
  }

  /** A trace made only of comparisons counts no exchanges and no writes. */
  lemma {:induction false} OnlyComparisons(t: seq<Step>)
    requires forall k :: 0 <= k < |t| ==> KindOf(t[k]) == Comparison
    ensures Tally(t, Comparison) == |t|
    ensures Tally(t, Exchange) == 0 && Tally(t, Store) == 0
    decreases |t|
  {
    if t != [] {
      OnlyComparisons(t[..|t| - 1]);
    }
  }
}
