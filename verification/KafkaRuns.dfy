/** Runs of the aggregation protocol: messages, assignments and revocations in any order. */
module KafkaRuns {
  import opened Options
  import opened UveAggregators
  import opened KafkaRebalance

  datatype System = System(topics: map<string, TopicState>, granted: set<Part>)
  {
    ghost predicate Valid(n: nat) {
      forall t | t in topics :: |topics[t].slots| == n
    }

    ghost function SlotOf(tp: Part): Slot
      requires tp.0 in topics && tp.1 < |topics[tp.0].slots|
    {
      topics[tp.0].slots[tp.1]
    }
  }

  /**
   What happens, with what can be observed of it: whether a message passed the gate, and which
   message, if any, was handed to the commit callback.
   */
  datatype Event =
    | Update(topic: string, m: Message, period: nat, accepted: bool, committed: Option<Message>)
    | Assign(pts: seq<Part>)
    | Revoke

  ghost function Initial(names: set<string>, n: nat): System {
    System(map t | t in names :: TopicState({}, seq(n, _ => EMPTY)), {})
  }

  /** The consumer delivers messages only for partitions it was assigned. */
  ghost predicate Step(s: System, e: Event, s': System) {
    match e
    case Update(t, m, period, accepted, committed) =>
      && t in s.topics && (t, m.partition) in s.granted && m.partition < |s.topics[t].slots|
      && var slot := s.topics[t].slots[m.partition];
      && s'.topics == s.topics[t := s.topics[t].(slots := s.topics[t].slots[m.partition := Updated(slot, m, period)])]
      && s'.granted == s.granted
      && accepted == !Stale(slot, m)
      && (committed == None || committed == Due(slot, period))
    case Assign(pts) =>
      && (forall tp | tp in pts :: tp.0 in s.topics && tp.1 < |s.topics[tp.0].slots|)
      && s'.topics == (map t | t in s.topics :: Reassigned(s.topics[t], Listed(pts, t)))
      && s'.granted == set tp | tp in pts
    case Revoke => s' == s.(granted := {})
  }

  ghost predicate Run(names: set<string>, n: nat, events: seq<Event>, s: System)
    decreases |events|
  {
    if events == [] then s == Initial(names, n)
    else
      var before, e := events[..|events| - 1], events[|events| - 1];
      exists m: System :: Run(names, n, before, m) && Step(m, e, s)
  }

  /** Every event of a run ends a run of its own: what is proved of last events holds of all. */
  lemma {:induction false} PrefixRun(names: set<string>, n: nat, events: seq<Event>, s: System, k: nat)
    returns (m: System)
    requires Run(names, n, events, s) && k <= |events|
    ensures Run(names, n, events[..k], m)
    decreases |events|
  {
    if k == |events| {
      m := s;
      assert events[..k] == events;
    } else {
      var before: System :| Run(names, n, events[..|events| - 1], before) && Step(before, events[|events| - 1], s);
      m := PrefixRun(names, n, events[..|events| - 1], before, k);
      assert events[..|events| - 1][..k] == events[..k];
    }
  }

  // ---- the history of one partition, read off the events alone

  predicate Concerns(e: Event, tp: Part) {
    e.Update? && e.topic == tp.0 && e.m.partition == tp.1
  }

  /** An assignment that does not list the partition ends its history. */
  predicate Ends(e: Event, tp: Part) {
    e.Assign? && tp !in e.pts
  }

  /** Whether the latest assignment lists the partition. */
  function Kept(events: seq<Event>, tp: Part): bool {
    if events == [] then false
    else
      var e := events[|events| - 1];
      if e.Assign? then tp in e.pts else Kept(events[..|events| - 1], tp)
  }

  /** The offsets that passed the gate since the partition was last cleared. */
  function Accepted(events: seq<Event>, tp: Part): seq<nat> {
    if events == [] then []
    else
      var e, before := events[|events| - 1], Accepted(events[..|events| - 1], tp);
      if Ends(e, tp) then [] else if Concerns(e, tp) && e.accepted then before + [e.m.offset] else before
  }

  /** The epoch of the latest message, 0 before the first. */
  function Epoch(events: seq<Event>, tp: Part): nat {
    if events == [] then 0
    else
      var e := events[|events| - 1];
      if Ends(e, tp) then 0 else if Concerns(e, tp) then e.period else Epoch(events[..|events| - 1], tp)
  }

  /** The message that opened the current epoch. */
  function Opener(events: seq<Event>, tp: Part): Option<Message> {
    if events == [] then None
    else
      var e, before := events[|events| - 1], events[..|events| - 1];
      if Ends(e, tp) then None
      else if Concerns(e, tp) && e.period != Epoch(before, tp) then Some(e.m)
      else Opener(before, tp)
  }

  function Last(xs: seq<nat>): nat {
    if xs == [] then 0 else xs[|xs| - 1]
  }

  function HistorySlot(events: seq<Event>, tp: Part): Slot {
    Slot(Last(Accepted(events, tp)), Epoch(events, tp), Opener(events, tp))
  }

  lemma ListedHas(pts: seq<Part>, tp: Part)
    ensures tp.1 in Listed(pts, tp.0) <==> tp in pts
  {
    if tp in pts {
      var i :| 0 <= i < |pts| && pts[i] == tp;
      assert pts[i].0 == tp.0 && pts[i].1 == tp.1;
    }
  }

  lemma InitialSlot(names: set<string>, n: nat, tp: Part)
    requires tp.0 in names && tp.1 < n
    ensures Initial(names, n).SlotOf(tp) == EMPTY
  {
  }

  /** What one step does to one partition. */
  lemma SlotStep(s: System, e: Event, s': System, n: nat, tp: Part)
    requires s.Valid(n) && Step(s, e, s') && tp.0 in s.topics && tp.1 < n
    ensures s'.Valid(n) && s'.topics.Keys == s.topics.Keys
    ensures s'.SlotOf(tp) == if Concerns(e, tp) then Updated(s.SlotOf(tp), e.m, e.period)
                             else if Ends(e, tp) && tp.1 in s.topics[tp.0].tracked then EMPTY
                             else s.SlotOf(tp)
    ensures Concerns(e, tp) ==> tp in s.granted && e.accepted == !Stale(s.SlotOf(tp), e.m)
    ensures tp.1 in s'.topics[tp.0].tracked <==> if e.Assign? then tp in e.pts else tp.1 in s.topics[tp.0].tracked
    ensures tp in s'.granted ==> if e.Assign? then tp in e.pts else tp in s.granted
  {
    if e.Assign? { ListedHas(e.pts, tp); }
  }

  /**
   In every reachable state what is kept for a partition is its history, the tracked set is the
   latest assignment, and nothing is kept outside it.
   */
  lemma {:induction false} StateIsHistory(names: set<string>, n: nat, events: seq<Event>, s: System, tp: Part)
    requires Run(names, n, events, s) && tp.0 in names && tp.1 < n
    ensures s.Valid(n) && s.topics.Keys == names
    ensures s.SlotOf(tp) == HistorySlot(events, tp)
    ensures tp.1 in s.topics[tp.0].tracked <==> Kept(events, tp)
    ensures tp in s.granted ==> Kept(events, tp)
    ensures !Kept(events, tp) ==> s.SlotOf(tp) == EMPTY && Accepted(events, tp) == []
    decreases |events|
  {
    hide Step, System.SlotOf;
    if events == [] {
      InitialSlot(names, n, tp);
    } else {
      var before := events[..|events| - 1];
      var m: System :| Run(names, n, before, m) && Step(m, events[|events| - 1], s);
      StateIsHistory(names, n, before, m, tp);
      SlotStep(m, events[|events| - 1], s, n, tp);
    }
  }

  // ---- the guarantees

  /** Some zeros, then strictly increasing positive offsets. */
  ghost predicate ZerosThenIncreasing(xs: seq<nat>) {
    forall i, j | 0 <= i < j < |xs| :: xs[i] < xs[j] || (xs[i] == 0 && xs[j] == 0)
  }

  /** No offset is processed twice between two clears, except offset 0. */
  lemma {:induction false} GateOrder(names: set<string>, n: nat, events: seq<Event>, s: System, tp: Part)
    requires Run(names, n, events, s) && tp.0 in names && tp.1 < n
    ensures ZerosThenIncreasing(Accepted(events, tp))
    decreases |events|
  {
    hide Step, System.SlotOf;
    if events != [] {
      var before := events[..|events| - 1];
      var m: System :| Run(names, n, before, m) && Step(m, events[|events| - 1], s);
      GateOrder(names, n, before, m, tp);
      StateIsHistory(names, n, before, m, tp);
      SlotStep(m, events[|events| - 1], s, n, tp);
    }
  }

  /** The gate exactly: a message passes if and only if only zeros have passed, or it is above all that have. */
  lemma GateExactly(names: set<string>, n: nat, events: seq<Event>, s: System)
    requires Run(names, n, events, s) && events != [] && events[|events| - 1].Update?
    ensures var e, before := events[|events| - 1], events[..|events| - 1];
            var passed := Accepted(before, (e.topic, e.m.partition));
            e.accepted <==> (forall x | x in passed :: x == 0) || (forall x | x in passed :: x < e.m.offset)
  {
    var e, before := events[|events| - 1], events[..|events| - 1];
    var tp := (e.topic, e.m.partition);
    var m: System :| Run(names, n, before, m) && Step(m, e, s);
    RunShape(names, n, before, m);
    StateIsHistory(names, n, before, m, tp);
    GateOrder(names, n, before, m, tp);
    LastIsGreatest(Accepted(before, tp));
  }

  lemma LastIsGreatest(xs: seq<nat>)
    requires ZerosThenIncreasing(xs)
    ensures forall x | x in xs :: x <= Last(xs)
    ensures xs != [] ==> Last(xs) in xs
  {
  }

  /** The opener of an epoch was accepted or is older than something accepted. */
  lemma {:induction false} OpenerCovered(names: set<string>, n: nat, events: seq<Event>, s: System, tp: Part)
    requires Run(names, n, events, s) && tp.0 in names && tp.1 < n && Opener(events, tp).Some?
    ensures Accepted(events, tp) != [] && Opener(events, tp).value.offset <= Last(Accepted(events, tp))
    decreases |events|
  {
    hide Step, System.SlotOf;
    var before := events[..|events| - 1];
    var m: System :| Run(names, n, before, m) && Step(m, events[|events| - 1], s);
    StateIsHistory(names, n, before, m, tp);
    SlotStep(m, events[|events| - 1], s, n, tp);
    if Opener(before, tp).Some? { OpenerCovered(names, n, before, m, tp); }
  }

  /**
   Commit safety: a commit happens only when the epoch changes, the message committed is the one
   that opened the epoch before, and its offset is at most one that has been accepted already.
   */
  lemma CommitSafety(names: set<string>, n: nat, events: seq<Event>, s: System)
    requires Run(names, n, events, s) && events != []
    requires var e := events[|events| - 1]; e.Update? && e.committed.Some?
    ensures var e, before := events[|events| - 1], events[..|events| - 1];
            var tp := (e.topic, e.m.partition);
            && e.committed == Opener(before, tp)
            && e.period != Epoch(before, tp)
            && (exists i :: 0 <= i < |Accepted(before, tp)| && e.committed.value.offset <= Accepted(before, tp)[i])
  {
    var e, before := events[|events| - 1], events[..|events| - 1];
    var tp := (e.topic, e.m.partition);
    var m: System :| Run(names, n, before, m) && Step(m, e, s);
    RunShape(names, n, before, m);
    StateIsHistory(names, n, before, m, tp);
    OpenerCovered(names, n, before, m, tp);
    assert e.committed.value.offset <= Accepted(before, tp)[|Accepted(before, tp)| - 1];
  }

  /** A commit is due exactly at a change of epoch, and is of that epoch's opener if there is one. */
  lemma CommitDue(names: set<string>, n: nat, events: seq<Event>, s: System, tp: Part, period: nat)
    requires Run(names, n, events, s) && tp.0 in names && tp.1 < n
    ensures s.Valid(n) && s.topics.Keys == names
    ensures Due(s.SlotOf(tp), period) == if period != Epoch(events, tp) then Opener(events, tp) else None
  {
    StateIsHistory(names, n, events, s, tp);
  }

  // ---- the order of commits

  datatype Opening = Opening(m: Message, accepted: bool)

  /** The messages that opened epochs since the partition was last cleared, and whether they passed the gate. */
  function Openers(events: seq<Event>, tp: Part): seq<Opening> {
    if events == [] then []
    else
      var e, before := events[|events| - 1], events[..|events| - 1];
      if Ends(e, tp) then []
      else if Concerns(e, tp) && e.period != Epoch(before, tp) then Openers(before, tp) + [Opening(e.m, e.accepted)]
      else Openers(before, tp)
  }

  lemma {:induction false} OpenerIsLast(events: seq<Event>, tp: Part)
    ensures Opener(events, tp) ==
            if Openers(events, tp) == [] then None else Some(Openers(events, tp)[|Openers(events, tp)| - 1].m)
    decreases |events|
  {
    if events != [] { OpenerIsLast(events[..|events| - 1], tp); }
  }

  /** No opener is above what has been accepted, and one that passed the gate is not below any opener before it. */
  ghost predicate InCommitOrder(openers: seq<Opening>, highest: nat) {
    && (forall i | 0 <= i < |openers| :: openers[i].m.offset <= highest)
    && (forall i, j | 0 <= i < j < |openers| && openers[j].accepted :: openers[i].m.offset <= openers[j].m.offset)
  }

  lemma {:induction false} OpenersInOrder(names: set<string>, n: nat, events: seq<Event>, s: System, tp: Part)
    requires Run(names, n, events, s) && tp.0 in names && tp.1 < n
    ensures InCommitOrder(Openers(events, tp), Last(Accepted(events, tp)))
    decreases |events|
  {
    hide Step, System.SlotOf;
    if events != [] {
      var before := events[..|events| - 1];
      var m: System :| Run(names, n, before, m) && Step(m, events[|events| - 1], s);
      OpenersInOrder(names, n, before, m, tp);
      StateIsHistory(names, n, before, m, tp);
      SlotStep(m, events[|events| - 1], s, n, tp);
    }
  }

  /**
   Commits of a partition go back only at a replay: the message committed is the last opener, and it is below some
   earlier one since the last clear only if it was stale when it opened its epoch.
   */
  lemma CommitsAscend(names: set<string>, n: nat, events: seq<Event>, s: System, i: nat)
    requires Run(names, n, events, s) && events != []
    requires var e := events[|events| - 1]; e.Update? && e.committed.Some?
    ensures var e, before := events[|events| - 1], events[..|events| - 1];
            var openers := Openers(before, (e.topic, e.m.partition));
            && openers != [] && e.committed == Some(openers[|openers| - 1].m)
            && (i < |openers| && e.committed.value.offset < openers[i].m.offset ==> !openers[|openers| - 1].accepted)
  {
    var e, before := events[|events| - 1], events[..|events| - 1];
    var tp := (e.topic, e.m.partition);
    CommitSafety(names, n, events, s);
    OpenerIsLast(before, tp);
    var m: System :| Run(names, n, before, m) && Step(m, e, s);
    RunShape(names, n, before, m);
    OpenersInOrder(names, n, before, m, tp);
  }

  function Consumed(t: string, offset: nat, period: nat, accepted: bool, committed: Option<Message>): Event {
    Update(t, Message(0, offset, ""), period, accepted, committed)
  }

  /** Only one partition, assigned, with this slot. */
  ghost function One(t: string, slot: Slot): System {
    System(map[t := TopicState({0}, [slot])], {(t, 0)})
  }

  lemma RunMore(names: set<string>, n: nat, events: seq<Event>, m: System, e: Event, s: System)
    requires Run(names, n, events, m) && Step(m, e, s)
    ensures Run(names, n, events + [e], s)
  {
    assert (events + [e])[..|events|] == events;
  }

  lemma OneStep(t: string, slot: Slot, offset: nat, period: nat, commit: bool)
    ensures var m := Message(0, offset, "");
            Step(One(t, slot), Consumed(t, offset, period, !Stale(slot, m), if commit then Due(slot, period) else None),
                 One(t, Updated(slot, m, period)))
  {
    var slot' := Updated(slot, Message(0, offset, ""), period);
    assert [slot][0 := slot'] == [slot'];
  }

  lemma OneAssigned(t: string)
    ensures Run({t}, 1, [Assign([(t, 0)])], One(t, EMPTY))
  {
    var pts: seq<Part> := [(t, 0)];
    var s := Initial({t}, 1);
    ListedHas(pts, (t, 0));
    assert Listed(pts, t) == {0};
    assert Cleared([EMPTY], {}) == [EMPTY];
    assert s.topics[t] == TopicState({}, [EMPTY]);
    assert Reassigned(s.topics[t], {0}) == TopicState({0}, [EMPTY]);
    assert Step(s, Assign(pts), One(t, EMPTY));
    RunMore({t}, 1, [], s, Assign(pts), One(t, EMPTY));
    assert [] + [Assign(pts)] == [Assign(pts)];
  }

  /** The commits do go back: `c` is a replay of an offset below `b`, and is committed after it. */
  lemma CommitGoesBack(t: string, a: nat, b: nat, c: nat, d: nat)
    requires 0 < a < b && c < b < d
    ensures var m := (offset: nat) => Message(0, offset, "");
            var events := [Assign([(t, 0)]), Consumed(t, a, 1, true, None), Consumed(t, b, 2, true, Some(m(a))),
                           Consumed(t, c, 3, false, Some(m(b))), Consumed(t, d, 4, true, Some(m(c)))];
            exists s :: Run({t}, 1, events, s)
  {
    hide Run, Step, One;
    var m := (offset: nat) => Message(0, offset, "");
    var s1 := Slot(a, 1, Some(m(a)));
    var s2 := Slot(b, 2, Some(m(b)));
    var s3 := Slot(b, 3, Some(m(c)));
    var s4 := Slot(d, 4, Some(m(d)));
    var e0, e1, e2 := Assign([(t, 0)]), Consumed(t, a, 1, true, None), Consumed(t, b, 2, true, Some(m(a)));
    var e3, e4 := Consumed(t, c, 3, false, Some(m(b))), Consumed(t, d, 4, true, Some(m(c)));
    OneAssigned(t);
    OneStep(t, EMPTY, a, 1, true); OneStep(t, s1, b, 2, true); OneStep(t, s2, c, 3, true); OneStep(t, s3, d, 4, true);
    RunMore({t}, 1, [e0], One(t, EMPTY), e1, One(t, s1));
    RunMore({t}, 1, [e0] + [e1], One(t, s1), e2, One(t, s2));
    RunMore({t}, 1, [e0] + [e1] + [e2], One(t, s2), e3, One(t, s3));
    RunMore({t}, 1, [e0] + [e1] + [e2] + [e3], One(t, s3), e4, One(t, s4));
    assert [e0] + [e1] + [e2] + [e3] + [e4] == [e0, e1, e2, e3, e4];
  }

  lemma {:induction false} RunShape(names: set<string>, n: nat, events: seq<Event>, s: System)
    requires Run(names, n, events, s)
    ensures s.Valid(n) && s.topics.Keys == names
    decreases |events|
  {
    if events != [] {
      var m: System :| Run(names, n, events[..|events| - 1], m) && Step(m, events[|events| - 1], s);
      RunShape(names, n, events[..|events| - 1], m);
    }
  }
}
