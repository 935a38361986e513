/** Partition rebalance for the aggregated topics. */
module KafkaRebalance {
  import opened UveAggregators

  /** A topic and one of its partitions. */
  type Part = (string, nat)

  /** The partitions of a topic that an assignment lists. */
  function Listed(pts: seq<Part>, topic: string): set<nat> {
    set i | 0 <= i < |pts| && pts[i].0 == topic :: pts[i].1
  }

  /** The slots with those of the partitions in `lost` emptied. */
  function Cleared(slots: seq<Slot>, lost: set<nat>): seq<Slot> {
    seq(|slots|, p requires 0 <= p < |slots| => if p in lost then EMPTY else slots[p])
  }

  /** One topic: its tracked partitions and the aggregator's slots. */
  datatype TopicState = TopicState(tracked: set<nat>, slots: seq<Slot>)

  /** A topic after an assignment that lists the partitions `now`. */
  function Reassigned(ts: TopicState, now: set<nat>): TopicState {
    TopicState(now, Cleared(ts.slots, ts.tracked - now))
  }

  class RebalanceCb {
    const aggs: map<string, UVEAggregator>
    const partitions: nat
    /** The tracked partitions of each topic. */
    var topics: map<string, set<nat>>
    /** Whether a collector is attached; without one the callback does nothing. */
    var attached: bool

    ghost function Aggregators(): set<UVEAggregator> {
      set t | t in aggs :: aggs[t]
    }

    ghost predicate Valid()
      reads this, Aggregators()
    {
      && topics.Keys == aggs.Keys
      && (forall t, u | t in aggs && u in aggs && t != u :: aggs[t] != aggs[u])
      && (forall t | t in aggs :: aggs[t].Valid() && |aggs[t].Slots()| == partitions)
      && (forall t, p | t in topics && p in topics[t] :: p < partitions)
    }

    ghost function Topic(t: string): TopicState
      requires t in aggs && t in topics && aggs[t].Valid()
      reads this, if t in aggs then {aggs[t]} else {}
    {
      TopicState(topics[t], aggs[t].Slots())
    }

    constructor (aggs: map<string, UVEAggregator>, partitions: nat)
      requires forall t, u | t in aggs && u in aggs && t != u :: aggs[t] != aggs[u]
      requires forall t | t in aggs :: aggs[t].Valid() && |aggs[t].Slots()| == partitions
      ensures Valid() && this.aggs == aggs && this.partitions == partitions && attached
      ensures forall t | t in topics :: topics[t] == {}
    {
      this.aggs := aggs;
      this.partitions := partitions;
      topics := map t | t in aggs :: {};
      attached := true;
    }

    /** The new assignment as a map from topic to partitions. */
    static method Group(pts: seq<Part>) returns (grouped: map<string, set<nat>>)
      ensures forall t :: (if t in grouped then grouped[t] else {}) == Listed(pts, t)
    {
      grouped := map[];
      for i := 0 to |pts|
        invariant forall t :: (if t in grouped then grouped[t] else {}) == Listed(pts[..i], t)
      {
        var (t, p) := pts[i];
        ListedMore(pts, i);
        if t !in grouped {
          grouped := grouped[t := {p}];
        } else {
          grouped := grouped[t := grouped[t] + {p}];
        }
      }
      assert pts[..|pts|] == pts;
    }

    static method ClearLost(agg: UVEAggregator, lost: set<nat>)
      requires agg.Valid() && forall p | p in lost :: p < |agg.Slots()|
      modifies agg
      ensures agg.Valid() && agg.Slots() == Cleared(old(agg.Slots()), lost)
    {
      hide UVEAggregator.Slots;
      var todo := lost;
      while todo != {}
        invariant agg.Valid() && todo <= lost
        invariant agg.Slots() == Cleared(old(agg.Slots()), lost - todo)
        decreases todo
      {
        var p :| p in todo;
        agg.Clear(p);
        todo := todo - {p};
      }
    }

    /** Clears what the topic lost and replaces its tracked set. */
    method AssignTopic(t: string, now: set<nat>)
      requires Valid() && t in aggs && forall p | p in now :: p < partitions
      modifies this`topics, aggs[t]
      ensures Valid() && topics == old(topics)[t := now]
      ensures Topic(t) == Reassigned(old(Topic(t)), now)
      ensures forall u | u in aggs && u != t :: Topic(u) == old(Topic(u))
    {
      hide UVEAggregator.Slots;
      ClearLost(aggs[t], topics[t] - now);
      topics := topics[t := now];
    }

    method AssignAll(grouped: map<string, set<nat>>)
      requires Valid() && forall t, p | t in grouped && p in grouped[t] :: p < partitions
      modifies this`topics, Aggregators()
      ensures Valid()
      ensures forall t | t in aggs :: Topic(t) == Reassigned(old(Topic(t)), if t in grouped then grouped[t] else {})
    {
      hide UVEAggregator.Slots, UVEAggregator.Valid, Reassigned;
      var todo := aggs.Keys;
      while todo != {}
        invariant Valid() && todo <= aggs.Keys
        invariant forall t | t in todo :: Topic(t) == old(Topic(t))
        invariant forall t | t in aggs && t !in todo ::
                    Topic(t) == Reassigned(old(Topic(t)), if t in grouped then grouped[t] else {})
        decreases todo
      {
        var t :| t in todo;
        AssignTopic(t, if t in grouped then grouped[t] else {});
        todo := todo - {t};
      }
    }

    /** On assignment every topic gives up what it lost; otherwise the consumer is only unassigned. */
    method Rebalance(assign: bool, pts: seq<Part>)
      requires Valid() && forall tp | tp in pts :: tp.1 < partitions
      modifies this`topics, Aggregators()
      ensures Valid()
      ensures forall t | t in aggs ::
                Topic(t) == if assign && attached then Reassigned(old(Topic(t)), Listed(pts, t)) else old(Topic(t))
    {
      if !attached { return; }
      var grouped := Group(pts);
      if assign {
        forall t, p | t in grouped && p in grouped[t] ensures p < partitions { assert p in Listed(pts, t); }
        AssignAll(grouped);
      }
    }
  }

  lemma ListedMore(pts: seq<Part>, i: nat)
    requires i < |pts|
    ensures forall t :: Listed(pts[..i + 1], t) ==
                        Listed(pts[..i], t) + if t == pts[i].0 then {pts[i].1} else {}
  {
    forall t ensures Listed(pts[..i + 1], t) == Listed(pts[..i], t) + if t == pts[i].0 then {pts[i].1} else {} {
      forall p ensures p in Listed(pts[..i + 1], t) <==> p in Listed(pts[..i], t) || (t == pts[i].0 && p == pts[i].1) {
        if p in Listed(pts[..i], t) {
          var k :| 0 <= k < i && pts[..i][k].0 == t && pts[..i][k].1 == p;
          assert pts[..i + 1][k] == pts[k];
        }
        if p in Listed(pts[..i + 1], t) {
          var k :| 0 <= k < i + 1 && pts[..i + 1][k].0 == t && pts[..i + 1][k].1 == p;
          if k < i { assert pts[..i][k] == pts[k]; }
        }
        if t == pts[i].0 && p == pts[i].1 { assert pts[..i + 1][i] == pts[i]; }
      }
    }
  }
}
