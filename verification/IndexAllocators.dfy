/**
 The round-robin index allocator on top of the bit set, and what holds over every run of
 allocations and frees.
 */
module IndexAllocators {
  import opened BitSets

  /** The allocator's state: which indices are held, and where the last search ended. */
  datatype State = State(maxIndex: nat, held: set<nat>, last: nat)
  {
    ghost predicate Valid() {
      && (forall i | i in held :: i <= maxIndex < 64 * MAX_BLOCKS)
      && maxIndex < 64 * MAX_BLOCKS
      && (last == NPOS || last <= maxIndex)
    }

    ghost predicate Free(i: nat) {
      i <= maxIndex && i !in held
    }

    /** How many indices the search passes before it looks at `i`, going round from the last one. */
    ghost function Distance(i: nat): (d: nat)
      requires Valid() && i <= maxIndex
      ensures d <= maxIndex
    {
      if last == NPOS then i else if i > last then i - last - 1 else maxIndex + i - last
    }
  }

  ghost predicate Nearest(s: State, i: nat)
    requires s.Valid()
  {
    s.Free(i) && forall j | s.Free(j) :: s.Distance(i) <= s.Distance(j)
  }

  /** An allocation that returns `index`: the nearest free index, or npos when none is free. */
  ghost predicate Allocates(s: State, index: nat, s': State)
    requires s.Valid()
  {
    if exists i :: s.Free(i)
    then Nearest(s, index) && s' == s.(held := s.held + {index}, last := index)
    else index == NPOS && s' == s.(last := NPOS)
  }

  ghost predicate Frees(s: State, index: nat, s': State) {
    index <= s.maxIndex && s' == s.(held := s.held - {index})
  }

  class IndexAllocator {
    const bitset: BitSet
    const maxIndex: nat
    var lastIndex: nat

    ghost function Abs(): State
      reads this, bitset
    {
      State(maxIndex, bitset.Members(), lastIndex)
    }

    ghost predicate Valid()
      reads this, bitset
    {
      bitset.Valid() && Abs().Valid()
    }

    constructor (maxIndex: nat)
      requires maxIndex < 64 * MAX_BLOCKS
      ensures Valid() && Abs() == State(maxIndex, {}, NPOS) && fresh(bitset)
    {
      this.maxIndex := maxIndex;
      lastIndex := NPOS;
      bitset := new BitSet();
    }

    method AllocIndex() returns (index: nat)
      requires Valid()
      modifies this, bitset
      ensures Valid() && Allocates(old(Abs()), index, Abs())
    {
      index := NPOS;
      if lastIndex == NPOS {
        index := bitset.FindFirstClear();
      } else {
        index := bitset.FindNextClear(lastIndex);
        if index > maxIndex {
          index := bitset.FindFirstClear();
        }
      }
      assert index <= maxIndex ==> Abs().Free(index);
      if index > maxIndex { index := NPOS; }
      if index != NPOS {
        bitset.SetBit(index);
      }
      lastIndex := index;
    }

    method FreeIndex(index: nat)
      requires Valid() && index <= maxIndex
      modifies bitset
      ensures Valid() && Frees(old(Abs()), index, Abs())
    {
      bitset.ResetBit(index);
    }

    method NoneIndexSet() returns (b: bool)
      requires Valid()
      ensures b <==> Abs().held == {}
    {
      b := bitset.None();
    }

    method AnyIndexSet() returns (b: bool)
      requires Valid()
      ensures b <==> exists i :: i in Abs().held
    {
      b := bitset.Any();
    }
  }

  // ---- runs

  /** What a client sees: an allocation with its answer, or a free. */
  datatype Event = Alloc(index: nat) | Free(index: nat)

  ghost predicate Step(s: State, e: Event, s': State)
    requires s.Valid()
  {
    match e
    case Alloc(index) => Allocates(s, index, s')
    case Free(index) => Frees(s, index, s')
  }

  /** `s` goes to `s'` by the events, one step each. */
  ghost predicate Runs(s: State, events: seq<Event>, s': State)
    requires s.Valid()
    decreases |events|
  {
    if events == [] then s' == s
    else exists m: State :: m.Valid() && Step(s, events[0], m) && Runs(m, events[1..], s')
  }

  /** The indices given out and not freed since, read off the events alone. */
  function Outstanding(events: seq<Event>): set<nat> {
    if events == [] then {}
    else
      var before := Outstanding(events[..|events| - 1]);
      match events[|events| - 1]
      case Alloc(index) => if index == NPOS then before else before + {index}
      case Free(index) => before - {index}
  }

  function Allocs(events: seq<Event>): nat {
    if events == [] then 0 else (if events[0].Alloc? then 1 else 0) + Allocs(events[1..])
  }

  lemma {:induction false} SplitRun(s: State, events: seq<Event>, s': State, k: nat) returns (m: State)
    requires s.Valid() && Runs(s, events, s') && k <= |events|
    ensures m.Valid() && m.maxIndex == s.maxIndex
    ensures Runs(s, events[..k], m) && Runs(m, events[k..], s')
    decreases k
  {
    if k == 0 {
      m := s;
      assert events[0..] == events;
    } else {
      var n: State :| n.Valid() && Step(s, events[0], n) && Runs(n, events[1..], s');
      m := SplitRun(n, events[1..], s', k - 1);
      assert events[..k][1..] == events[1..][..k - 1] && events[1..][k - 1..] == events[k..];
    }
  }

  /** The bit set holds exactly the outstanding indices, all within range. */
  lemma {:induction false} HeldIsOutstanding(maxIndex: nat, events: seq<Event>, s': State)
    requires maxIndex < 64 * MAX_BLOCKS && Runs(State(maxIndex, {}, NPOS), events, s')
    ensures s'.Valid() && s'.maxIndex == maxIndex && s'.held == Outstanding(events)
    decreases |events|
  {
    var n := |events|;
    if n > 0 {
      var m := SplitRun(State(maxIndex, {}, NPOS), events, s', n - 1);
      HeldIsOutstanding(maxIndex, events[..n - 1], m);
      assert events[n - 1..][1..] == [];
    }
  }

  /**
   Safety of every run from a new allocator: an allocation answers with an index in range that
   is not outstanding, and fails exactly when every index is.
   */
  lemma Safety(maxIndex: nat, events: seq<Event>, s': State, k: nat)
    requires maxIndex < 64 * MAX_BLOCKS && Runs(State(maxIndex, {}, NPOS), events, s')
    requires k < |events| && events[k].Alloc?
    ensures var index := events[k].index; var before := Outstanding(events[..k]);
            if index == NPOS then forall i: nat | i <= maxIndex :: i in before
            else index <= maxIndex && index !in before
  {
    var m := SplitRun(State(maxIndex, {}, NPOS), events, s', k);
    HeldIsOutstanding(maxIndex, events[..k], m);
    assert forall i: nat | i <= maxIndex :: m.Free(i) <==> i !in m.held;
  }

  /**
   Bounded fairness: an index that is free at the start of a run is given out before the run
   makes more allocations than the search must pass, and so within `maxIndex + 1` of them.
   */
  lemma {:induction false} Fairness(s: State, events: seq<Event>, s': State, i: nat)
    requires s.Valid() && s.Free(i) && Runs(s, events, s')
    requires Allocs(events) > s.Distance(i)
    ensures Alloc(i) in events
    decreases |events|
  {
    var m: State :| m.Valid() && Step(s, events[0], m) && Runs(m, events[1..], s');
    if events[0] != Alloc(i) {
      if events[0].Alloc? { Closer(s, events[0].index, m, i); }
      Fairness(m, events[1..], s', i);
    }
  }

  lemma Closer(s: State, index: nat, m: State, i: nat)
    requires s.Valid() && m.Valid() && s.Free(i) && index != i && Allocates(s, index, m)
    ensures m.Free(i) && m.Distance(i) < s.Distance(i)
  {
  }
}
