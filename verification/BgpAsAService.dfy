/** The service ports of shared BGP-as-a-service sessions, derived from a configured port range. */
module BgpAsAService {
  import opened Words

  const TWO_16: nat := 0x1_0000

  /** A 16-bit range end; 0 stands for a range that is not configured. */
  type Bound = n: nat | n < TWO_16

  /** A 32-bit word. */
  function Wrap(x: int): (w: nat)
    ensures w < TWO_32
  {
    x % TWO_32
  }

  function Times(a: nat, b: nat): nat {
    a * b
  }

  function Range(start: Bound, end: Bound): nat {
    (end - start + 1) % TWO_16
  }

  function Encode(sport: nat, index: nat, start: Bound, end: Bound): nat {
    if index == 0 || start == 0 || end == 0 then sport
    else Wrap(start + Times(Range(start, end), index) + Wrap(sport - start))
  }

  /** A port and an index; the source divides by the range, so the range must not be empty. */
  function Decode(sport: nat, start: Bound, end: Bound): (nat, nat)
    requires start != 0 && end != 0 && !(start <= sport <= end) ==> Range(start, end) != 0
  {
    if start == 0 || end == 0 || start <= sport <= end then (sport, 0)
    else Position(Wrap(sport - end), Range(start, end), start)
  }

  function Position(offset: nat, range: nat, start: nat): (nat, nat)
    requires range != 0
  {
    (Wrap(Wrap(offset % range - 1) + start), Wrap(offset / range + 1))
  }

  /** Without a configured range ports are taken as they are, both ways. */
  lemma Unconfigured(sport: nat, index: nat, start: Bound, end: Bound)
    requires start == 0 || end == 0
    ensures Encode(sport, index, start, end) == sport && Decode(sport, start, end) == (sport, 0)
  {
  }

  /** Where an offset stands, for every index but 0. */
  lemma PositionIs(offset: nat, range: nat, start: nat, q: nat, r: int)
    requires offset < TWO_32 && 0 < range < TWO_16 && 0 < start < TWO_16
    ensures start - 1 <= Position(offset, range, start).0 < start - 1 + range
    ensures 0 <= r < range ==>
              (Position(offset, range, start) == (start + r - 1, q + 1) <==>
               offset == Times(range, q) + r && q + 1 < TWO_32)
  {
    assert Wrap(Wrap(offset % range - 1) + start) == start + offset % range - 1 by { Shifted(offset % range, start); }
    IndexIs(offset, range, q);
    if 0 <= r < range && offset == Times(range, q) + r { Quotient(offset, range, q, r); }
  }

  lemma IndexIs(offset: nat, range: nat, q: nat)
    requires offset < TWO_32 && range > 0
    ensures Wrap(offset / range + 1) == q + 1 <==> offset / range == q && q + 1 < TWO_32
  {
    QuotientBound(offset, range);
  }

  /** Only a range of one port lets the quotient reach 2^32 - 1, where the index wraps to 0. */
  lemma QuotientBound(offset: nat, range: nat)
    requires range > 0
    ensures offset / range <= offset && (range > 1 && offset > 0 ==> offset / range < offset)
  {
    if range > 1 && offset > 0 { assert offset / range * range <= offset; Gap(offset / range, 1, range); }
  }

  lemma IndexWraps(offset: nat, range: nat, start: nat)
    requires offset < TWO_32 && 0 < range < TWO_16 && 0 < start < TWO_16
    ensures Position(offset, range, start).1 == 0 <==> range == 1 && offset == TWO_32 - 1
    ensures range == 1 ==> Position(offset, range, start).0 == start - 1
  {
    if range == 1 {
      assert Position(offset, 1, start) == (Wrap(Wrap(-1) + start), Wrap(offset + 1));
      Shifted(0, start);
    } else {
      IndexBelow(offset, range);
    }
  }

  lemma IndexBelow(offset: nat, range: nat)
    requires offset < TWO_32 && range > 1
    ensures 0 < Wrap(offset / range + 1)
  {
    QuotientBound(offset, range);
  }

  lemma Shifted(m: nat, start: nat)
    requires m < TWO_16 && 0 < start < TWO_16
    ensures Wrap(Wrap(m - 1) + start) == start + m - 1
  {
  }

  lemma Quotient(x: nat, range: nat, q: nat, r: nat)
    requires r < range && x == Times(range, q) + r
    ensures x / range == q && x % range == r
  {
    if x / range < q { Gap(range, x / range, q); } else if x / range > q { Gap(range, q, x / range); }
  }

  lemma Gap(range: nat, a: nat, b: nat)
    requires a < b
    ensures Times(range, b) >= Times(range, a) + range
  {
    assert range * b == range * a + range * (b - a);
    assert range * (b - a) >= range by { assert b - a >= 1; }
  }

  lemma Before(range: nat, index: nat)
    requires index > 0
    ensures Times(range, index) == Times(range, index - 1) + range
  {
    assert range * index == range * (index - 1) + range;
  }

  lemma AtLeast(range: nat, index: nat)
    requires range > 0
    ensures Times(range, index) >= index
  {
    assert range * index == (range - 1) * index + index;
  }

  lemma EncodeIs(sport: nat, index: nat, start: Bound, end: Bound)
    requires 0 < start <= end && sport < TWO_32
    ensures Range(start, end) == end - start + 1
    ensures Encode(sport, index, start, end) == Wrap(sport + Times(end - start + 1, index))
  {
    hide Times;
    assert Times(end - start + 1, 0) == 0 by { Zero(end - start + 1); }
  }

  lemma Zero(range: nat)
    ensures Times(range, 0) == 0
  {
  }

  lemma DecodeDerived(total: nat, start: Bound, end: Bound)
    requires 0 < start <= end
    ensures Range(start, end) == end - start + 1
    ensures var port := Wrap(total);
            Decode(port, start, end) ==
              if start <= port <= end then (port, 0) else Position(Wrap(total - end), end - start + 1, start)
  {
    hide Position;
    assert Wrap(Wrap(total) - end) == Wrap(total - end);
  }

  /** Where a derived port falls after wrap-around. */
  lemma Landing(total: nat, start: Bound, end: Bound)
    requires 0 < start <= end <= total
    ensures Wrap(total - end) == total - end <==> total < TWO_32 + end
    ensures end < total < TWO_32 + start <==> total < TWO_32 + end && !(start <= Wrap(total) <= end)
  {
  }

  /**
   Which pairs survive a round trip. Index 0 needs a port of the range, or the port before a range of one port,
   where the decoded index wraps to 0. Any other index needs to fit 32 bits, a port of the range other than its
   last one or the port just before the range, and a derived port past the range that does not wrap into it.
   */
  predicate Recoverable(sport: nat, index: nat, start: Bound, end: Bound)
    requires start <= end
  {
    if index == 0 then start <= sport <= end || (start == end && sport == start - 1)
    else
      && index < TWO_32 && start - 1 <= sport < end
      && end < sport + Times(end - start + 1, index) < TWO_32 + start
  }

  lemma RoundTrip(sport: nat, index: nat, start: Bound, end: Bound)
    requires 0 < start <= end && sport < TWO_32
    ensures Range(start, end) != 0
    ensures Decode(Encode(sport, index, start, end), start, end) == (sport, index)
      <==> Recoverable(sport, index, start, end)
  {
    hide Times, Position, Wrap, Encode, Decode, Range;
    var range := end - start + 1;
    var total := sport + Times(range, index);
    EncodeIs(sport, index, start, end);
    DecodeDerived(total, start, end);
    if index == 0 {
      IndexZero(sport, start, end);
    } else {
      PositionIs(Wrap(total - end), range, start, index - 1, sport - start + 1);
      Before(range, index);
      if start - 1 <= sport < end { Landing(total, start, end); }
    }
  }

  lemma IndexZero(sport: nat, start: Bound, end: Bound)
    requires 0 < start <= end && Range(start, end) == end - start + 1 && sport < TWO_32
    ensures Encode(sport, 0, start, end) == sport
    ensures Decode(sport, start, end) == (sport, 0) <==> start <= sport <= end || (start == end && sport == start - 1)
  {
    hide Position;
    IndexWraps(Wrap(sport - end), Range(start, end), start);
  }

  /** The last port of the range, whenever nothing wraps: it comes back as the port before the range, one index up. */
  lemma LastPort(index: nat, start: Bound, end: Bound)
    requires 0 < start <= end && index > 0 && end + Times(end - start + 1, index) < TWO_32
    ensures Range(start, end) != 0 && index + 1 < TWO_32
    ensures Decode(Encode(end, index, start, end), start, end) == (start - 1, index + 1)
  {
    hide Times, Position, Wrap, Encode, Decode, Range;
    var range := end - start + 1;
    var total := end + Times(range, index);
    EncodeIs(end, index, start, end);
    DecodeDerived(total, start, end);
    Before(range, index);
    AtLeast(range, index);
    Landing(total, start, end);
    PositionIs(Times(range, index), range, start, index, 0);
  }

  /** No two sessions of a range share a derived port, below 2^32. */
  lemma Injective(s: nat, i: nat, t: nat, j: nat, start: Bound, end: Bound)
    requires 0 < start <= s <= end && start <= t <= end
    requires s + Times(end - start + 1, i) < TWO_32 && t + Times(end - start + 1, j) < TWO_32
    requires Encode(s, i, start, end) == Encode(t, j, start, end)
    ensures s == t && i == j
  {
    hide Times, Encode, Range;
    var range := end - start + 1;
    EncodeIs(s, i, start, end);
    EncodeIs(t, j, start, end);
    if i < j { Gap(range, i, j); } else if j < i { Gap(range, j, i); }
  }
}
