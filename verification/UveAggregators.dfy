/**
 The aggregation of proxy UVEs read from Kafka: delayed offset commits, the gate that drops
 messages seen before, and clearing a partition that was lost.
 */
module UveAggregators {
  import opened Options

  const COMMIT_PERIOD_USEC: nat := 3_600_000_000

  /** A consumed message; the offset is the unsigned form of Kafka's. */
  datatype Message = Message(partition: nat, offset: nat, body: string)

  /** What the aggregator keeps for one partition. */
  datatype Slot = Slot(offset: nat, period: nat, held: Option<Message>)

  const EMPTY := Slot(0, 0, None)

  /** The hours that have passed. */
  function Period(monoUsec: nat): (hours: nat)
    ensures hours * 3_600_000_000 <= monoUsec < (hours + 1) * 3_600_000_000
  {
    monoUsec / COMMIT_PERIOD_USEC
  }

  /** Whether the gate drops the message as already processed. */
  predicate Stale(slot: Slot, m: Message) {
    slot.offset != 0 && m.offset <= slot.offset
  }

  /** The message that a new epoch hands to the commit callback. */
  function Due(slot: Slot, period: nat): Option<Message> {
    if period != slot.period then slot.held else None
  }

  function Updated(slot: Slot, m: Message, period: nat): Slot {
    Slot(if Stale(slot, m) then slot.offset else m.offset,
         period,
         if period != slot.period then Some(m) else slot.held)
  }

  class UVEAggregator {
    var offsets: seq<nat>
    var partPeriod: seq<nat>
    var partCommitMsg: seq<Option<Message>>

    ghost predicate Valid()
      reads this
    {
      |offsets| == |partPeriod| == |partCommitMsg|
    }

    ghost function Slots(): seq<Slot>
      reads this
      requires Valid()
    {
      seq(|offsets|, p requires 0 <= p < |offsets| reads this requires Valid() =>
            Slot(offsets[p], partPeriod[p], partCommitMsg[p]))
    }

    constructor (partitions: nat)
      ensures Valid() && Slots() == seq(partitions, _ => EMPTY)
    {
      offsets := seq(partitions, _ => 0);
      partPeriod := seq(partitions, _ => 0);
      partCommitMsg := seq(partitions, _ => None);
    }

    method Clear(partition: nat)
      requires Valid() && partition < |Slots()|
      modifies this
      ensures Valid() && Slots() == old(Slots())[partition := EMPTY]
    {
      offsets := offsets[partition := 0];
      partPeriod := partPeriod[partition := 0];
      if partCommitMsg[partition].Some? {
        partCommitMsg := partCommitMsg[partition := None];
      }
    }

    /**
     Processes a message at monotonic time `monoUsec`. The commit callback is called while the
     log line is built, so it runs only when that line is `logged`.
     */
    method Update(m: Message, monoUsec: nat, logged: bool) returns (accepted: bool, committed: Option<Message>)
      requires Valid() && m.partition < |Slots()|
      modifies this
      ensures Valid()
      ensures var slot := old(Slots())[m.partition];
              && Slots() == old(Slots())[m.partition := Updated(slot, m, Period(monoUsec))]
              && accepted == !Stale(slot, m)
              && committed == if logged then Due(slot, Period(monoUsec)) else None
    {
      var partition := m.partition;
      var newPeriod := monoUsec / COMMIT_PERIOD_USEC;
      committed := None;
      if newPeriod != partPeriod[partition] {
        if partCommitMsg[partition].Some? {
          if logged { committed := partCommitMsg[partition]; }
          partCommitMsg := partCommitMsg[partition := None];
        }
        partCommitMsg := partCommitMsg[partition := Some(m)];
        partPeriod := partPeriod[partition := newPeriod];
      }
      if offsets[partition] != 0 {
        if m.offset <= offsets[partition] {
          return false, committed;
        }
      }
      offsets := offsets[partition := m.offset];
      return true, committed;
    }
  }
}
