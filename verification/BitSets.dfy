/**
 A growable vector of 64-bit blocks used as a finite set of positions. Every operation is
 stated on the set of positions it holds; the canonical form (the last block is never zero)
 is what makes the size-only and block-wise answers right.
 */
module BitSets {
  import opened Words
  import opened NumberedText

  /** `BitSet::npos`, the largest `size_t`. */
  const NPOS: nat := TWO_64 - 1

  /** A vector of this many blocks already exceeds any address space (2^61 bytes). */
  const MAX_BLOCKS: nat := 0x3FF_FFFF_FFFF_FFFF

  type Pos = p: nat | p <= NPOS

  // ---- blocks as a set of positions

  function At(blocks: seq<Word>, k: nat): Word {
    if k < |blocks| then blocks[k] else 0
  }

  ghost predicate Has(blocks: seq<Word>, p: nat) {
    p % 64 in BitsOf(At(blocks, p / 64))
  }

  ghost function Elements(blocks: seq<Word>): set<nat> {
    set p: nat | p < 64 * |blocks| && Has(blocks, p)
  }

  ghost predicate Canonical(blocks: seq<Word>) {
    |blocks| > 0 ==> blocks[|blocks| - 1] != 0
  }

  lemma HasElement(blocks: seq<Word>, p: nat)
    ensures p in Elements(blocks) <==> Has(blocks, p)
  {
    ZeroBits(0);
  }

  /** Two block vectors with the same words, missing blocks read as zero, hold the same positions. */
  lemma SameWords(a: seq<Word>, b: seq<Word>)
    requires forall k: nat :: At(a, k) == At(b, k)
    ensures Elements(a) == Elements(b)
  {
    forall p: nat ensures p in Elements(a) <==> p in Elements(b) {
      HasElement(a, p); HasElement(b, p);
      assert At(a, p / 64) == At(b, p / 64);
    }
  }

  lemma SomeElement(blocks: seq<Word>, k: nat) returns (p: nat)
    requires k < |blocks| && blocks[k] != 0
    ensures p in Elements(blocks) && p / 64 == k
  {
    ZeroBits(blocks[k]);
    var i :| i in BitsOf(blocks[k]);
    p := 64 * k + i;
    HasElement(blocks, p);
  }

  /** A canonical vector is as long as its greatest element needs. */
  lemma CanonicalLength(a: seq<Word>, b: seq<Word>)
    requires Canonical(a) && Elements(a) <= Elements(b)
    ensures |a| <= |b|
  {
    if |a| > 0 {
      var p := SomeElement(a, |a| - 1);
      assert p in Elements(b);
    }
  }

  lemma CanonicalEmpty(blocks: seq<Word>)
    requires Canonical(blocks)
    ensures Elements(blocks) == {} <==> |blocks| == 0
  {
    if |blocks| > 0 { var p := SomeElement(blocks, |blocks| - 1); }
  }

  lemma BlockOf(blocks: seq<Word>, k: nat, i: nat)
    requires i < 64
    ensures i in BitsOf(At(blocks, k)) <==> 64 * k + i in Elements(blocks)
  {
    HasElement(blocks, 64 * k + i);
  }

  /** Canonical vectors are equal exactly when they hold the same positions. */
  lemma CanonicalEqual(a: seq<Word>, b: seq<Word>)
    requires Canonical(a) && Canonical(b)
    ensures Elements(a) == Elements(b) <==> a == b
  {
    if Elements(a) == Elements(b) {
      CanonicalLength(a, b); CanonicalLength(b, a);
      forall k: nat | k < |a| ensures a[k] == b[k] {
        forall i: nat | i < 64 ensures i in BitsOf(a[k]) <==> i in BitsOf(b[k]) {
          BlockOf(a, k, i); BlockOf(b, k, i);
        }
        assert BitsOf(a[k]) == BitsOf(b[k]);
        SameBits(a[k], b[k]);
      }
    }
  }

  /** Inclusion holds block by block. */
  lemma SubsetBlocks(a: seq<Word>, b: seq<Word>)
    ensures Elements(a) <= Elements(b) <==> forall k: nat :: BitsOf(At(a, k)) <= BitsOf(At(b, k))
  {
    if Elements(a) <= Elements(b) {
      forall k: nat ensures BitsOf(At(a, k)) <= BitsOf(At(b, k)) {
        forall i | i in BitsOf(At(a, k)) ensures i in BitsOf(At(b, k)) { BlockOf(a, k, i); BlockOf(b, k, i); }
      }
    }
    if forall k: nat :: BitsOf(At(a, k)) <= BitsOf(At(b, k)) {
      forall p | p in Elements(a) ensures p in Elements(b) {
        HasElement(a, p); HasElement(b, p);
        assert BitsOf(At(a, p / 64)) <= BitsOf(At(b, p / 64));
      }
    }
  }

  lemma UnionBlocks(a: seq<Word>, b: seq<Word>, c: seq<Word>)
    requires forall k: nat :: At(c, k) == Or(At(a, k), At(b, k))
    ensures Elements(c) == Elements(a) + Elements(b)
  {
    forall p: nat ensures p in Elements(c) <==> p in Elements(a) || p in Elements(b) {
      HasElement(a, p); HasElement(b, p); HasElement(c, p);
      assert At(c, p / 64) == Or(At(a, p / 64), At(b, p / 64));
      OrBits(At(a, p / 64), At(b, p / 64));
    }
  }

  lemma IntersectionBlocks(a: seq<Word>, b: seq<Word>, c: seq<Word>)
    requires forall k: nat :: At(c, k) == And(At(a, k), At(b, k))
    ensures Elements(c) == Elements(a) * Elements(b)
  {
    forall p: nat ensures p in Elements(c) <==> p in Elements(a) && p in Elements(b) {
      HasElement(a, p); HasElement(b, p); HasElement(c, p);
      assert At(c, p / 64) == And(At(a, p / 64), At(b, p / 64));
      AndBits(At(a, p / 64), At(b, p / 64));
    }
  }

  lemma DifferenceBlocks(a: seq<Word>, b: seq<Word>, c: seq<Word>)
    requires forall k: nat :: At(c, k) == And(At(a, k), Not(At(b, k)))
    ensures Elements(c) == Elements(a) - Elements(b)
  {
    forall p: nat ensures p in Elements(c) <==> p in Elements(a) && p !in Elements(b) {
      HasElement(a, p); HasElement(b, p); HasElement(c, p);
      assert At(c, p / 64) == And(At(a, p / 64), Not(At(b, p / 64)));
      AndNotBits(At(a, p / 64), At(b, p / 64));
    }
  }

  lemma SingleBlock(c: seq<Word>, pos: nat)
    requires forall k: nat :: At(c, k) == if k == pos / 64 then Pow2(pos % 64) else 0
    ensures Elements(c) == {pos}
  {
    MaskBits(pos % 64); ZeroBits(0);
    forall p: nat ensures p in Elements(c) <==> p == pos {
      HasElement(c, p);
      assert At(c, p / 64) == if p / 64 == pos / 64 then Pow2(pos % 64) else 0;
    }
  }

  // ---- shrinking

  function Zeros(n: nat): seq<Word> {
    seq(n, _ => 0)
  }

  function Resize(blocks: seq<Word>, n: nat): (r: seq<Word>)
    ensures |r| == n
    ensures forall k: nat | k < n :: r[k] == At(blocks, k)
  {
    if n <= |blocks| then blocks[..n] else blocks + Zeros(n - |blocks|)
  }

  /** Without its trailing zero blocks. */
  function Trim(blocks: seq<Word>): seq<Word> {
    if |blocks| > 0 && blocks[|blocks| - 1] == 0 then Trim(blocks[..|blocks| - 1]) else blocks
  }

  lemma {:induction false} TrimKeeps(blocks: seq<Word>)
    ensures Canonical(Trim(blocks)) && |Trim(blocks)| <= |blocks|
    ensures forall k: nat :: At(Trim(blocks), k) == At(blocks, k)
    ensures Elements(Trim(blocks)) == Elements(blocks)
  {
    if |blocks| > 0 && blocks[|blocks| - 1] == 0 {
      var rest := blocks[..|blocks| - 1];
      TrimKeeps(rest);
      forall k: nat ensures At(Trim(blocks), k) == At(blocks, k) { assert At(Trim(rest), k) == At(rest, k); }
    }
    SameWords(Trim(blocks), blocks);
  }

  // ---- the class

  /** `r` is the least member of `elems` above `pos`, or npos when there is none. */
  ghost predicate IsNext(elems: set<nat>, pos: int, r: nat) {
    if r == NPOS then forall q | q in elems :: q <= pos
    else r in elems && pos < r && forall q | q in elems && pos < q :: r <= q
  }

  /** `r` is the least natural above `pos` that `elems` does not hold. */
  ghost predicate IsNextClear(elems: set<nat>, pos: int, r: nat) {
    r !in elems && pos < r && forall q: nat | pos < q < r :: q in elems
  }

  class BitSet {
    var blocks: seq<Word>

    ghost predicate Valid()
      reads this
    {
      Canonical(blocks) && |blocks| <= MAX_BLOCKS
    }

    ghost function Members(): set<nat>
      reads this
    {
      Elements(blocks)
    }

    constructor ()
      ensures Valid() && Members() == {}
    {
      blocks := [];
    }

    method SetBit(pos: Pos)
      requires Valid() && pos / 64 < MAX_BLOCKS
      modifies this
      ensures Valid() && Members() == old(Members()) + {pos}
    {
      var idx := pos / 64;
      ghost var before := blocks;
      MaskBits(pos % 64);
      if idx >= |blocks| { blocks := Resize(blocks, idx + 1); }
      blocks := blocks[idx := Or(blocks[idx], Pow2(pos % 64))];
      ghost var one := Zeros(idx) + [Pow2(pos % 64)];
      SingleBlock(one, pos);
      OrZero();
      UnionBlocks(before, one, blocks);
      OrBits(At(before, idx), Pow2(pos % 64)); ZeroBits(blocks[idx]);
    }

    method ResetBit(pos: Pos)
      requires Valid()
      modifies this
      ensures Valid() && Members() == old(Members()) - {pos}
    {
      var idx := pos / 64;
      ghost var before := blocks;
      ghost var one := Zeros(idx) + [Pow2(pos % 64)];
      MaskBits(pos % 64);
      SingleBlock(one, pos);
      if idx < |blocks| {
        blocks := blocks[idx := And(blocks[idx], Not(Pow2(pos % 64)))];
        AndNotZero();
        DifferenceBlocks(before, one, blocks);
        Compact();
      } else {
        HasElement(blocks, pos); ZeroBits(0);
      }
    }

    method Test(pos: Pos) returns (b: bool)
      ensures b <==> pos in Members()
    {
      var idx := pos / 64;
      HasElement(blocks, pos); ZeroBits(0);
      if idx < |blocks| {
        MaskBits(pos % 64);
        AndBits(blocks[idx], Pow2(pos % 64));
        ZeroBits(And(blocks[idx], Pow2(pos % 64)));
        assert pos % 64 in BitsOf(blocks[idx]) <==> pos % 64 in BitsOf(And(blocks[idx], Pow2(pos % 64)));
        return And(blocks[idx], Pow2(pos % 64)) != 0;
      }
      return false;
    }

    method Clear()
      modifies this
      ensures Valid() && Members() == {}
    {
      blocks := [];
    }

    method None() returns (b: bool)
      requires Valid()
      ensures b <==> Members() == {}
    {
      CanonicalEmpty(blocks);
      return |blocks| == 0;
    }

    method Any() returns (b: bool)
      requires Valid()
      ensures b <==> exists p :: p in Members()
    {
      CanonicalEmpty(blocks);
      assert Members() != {} ==> exists p :: p in Members();
      return |blocks| != 0;
    }

    /** Drops every trailing zero block. */
    method Compact()
      modifies this
      ensures Canonical(blocks) && |blocks| <= |old(blocks)| && Members() == old(Members())
    {
      ghost var before := blocks;
      TrimKeeps(before);
      if |blocks| == 0 { return; }
      var idx := |blocks| - 1;
      assert before[..idx + 1] == before;
      while idx > 0
        invariant 0 <= idx < |before| && blocks == before
        invariant Trim(before) == Trim(before[..idx + 1])
      {
        if blocks[idx] != 0 {
          blocks := blocks[..idx + 1];
          return;
        }
        assert before[..idx + 1][..idx] == before[..idx];
        idx := idx - 1;
      }
      if blocks[0] != 0 {
        blocks := blocks[..1];
        return;
      }
      assert before[..1][..0] == [];
      blocks := [];
    }

    method Count() returns (count: nat)
      ensures count == |Members()|
    {
      count := 0;
      assert Elements(blocks[..0]) == {};
      for idx := 0 to |blocks|
        invariant count == |Elements(blocks[..idx])|
      {
        var bits := NumBitsSet(blocks[idx]);
        CountBlock(blocks, idx);
        count := count + bits;
      }
      assert blocks[..|blocks|] == blocks;
    }

    method FindFirst() returns (r: nat)
      requires Valid()
      ensures IsNext(Members(), -1, r)
    {
      for idx := 0 to |blocks|
        invariant forall q | q in Elements(blocks) && -1 < q :: q >= 64 * idx
      {
        var bit := FindFirstSet64(blocks[idx]);
        if bit > 0 {
          FirstInBlock(blocks, idx, -1, blocks[idx], bit);
          return 64 * idx + (bit - 1);
        }
        SkipBlock(blocks, idx);
      }
      return NPOS;
    }

    method FindNext(pos: Pos) returns (r: nat)
      requires Valid()
      ensures IsNext(Members(), pos, r)
    {
      var idx := pos / 64;
      if idx >= |blocks| { return NPOS; }
      if pos % 64 < 63 {
        var temp := AboveOffset(blocks[idx], pos % 64);
        AboveOffsetBits(blocks[idx], pos % 64);
        var bit := FindFirstSet64(temp);
        if bit > 0 {
          FirstInBlock(blocks, idx, pos, temp, bit);
          return 64 * idx + (bit - 1);
        }
        NothingAbove(blocks, idx, pos, temp);
      }
      idx := idx + 1;
      while idx < |blocks|
        invariant pos / 64 < idx <= |blocks|
        invariant forall q | q in Elements(blocks) && pos < q :: q >= 64 * idx
      {
        var bit := FindFirstSet64(blocks[idx]);
        if bit > 0 {
          FirstInBlock(blocks, idx, pos, blocks[idx], bit);
          return 64 * idx + (bit - 1);
        }
        SkipBlock(blocks, idx);
        idx := idx + 1;
      }
      return NPOS;
    }

    method FindLast() returns (r: nat)
      requires Valid()
      ensures r == NPOS <==> Members() == {}
      ensures r != NPOS ==> r in Members() && forall q | q in Members() :: q <= r
    {
      CanonicalEmpty(blocks);
      if |blocks| == 0 { return NPOS; }
      var idx := |blocks| - 1;
      var bit := FindLastSet64(blocks[idx]);
      ZeroBits(blocks[idx]);
      if bit > 0 {
        BlockOf(blocks, idx, bit - 1);
        forall q | q in Members() ensures q <= 64 * idx + (bit - 1) { HasElement(blocks, q); }
        return 64 * idx + (bit - 1);
      }
      return NPOS;
    }

    method FindFirstClear() returns (r: nat)
      requires Valid()
      ensures IsNextClear(Members(), -1, r)
    {
      for idx := 0 to |blocks|
        invariant forall q: nat | -1 < q < 64 * idx :: q in Elements(blocks)
      {
        var bit := FindFirstSet64(Not(blocks[idx]));
        if bit > 0 {
          ClearInBlock(blocks, idx, -1, blocks[idx], bit);
          return 64 * idx + (bit - 1);
        }
        FullBlock(blocks, idx);
      }
      return 64 * |blocks|;
    }

    /** Above npos there is no position: the scan wraps to 0. */
    method FindNextClear(pos: Pos) returns (r: nat)
      requires Valid()
      ensures if pos == NPOS then r == 0 else IsNextClear(Members(), pos, r)
    {
      var idx := pos / 64;
      if idx >= |blocks| { return (pos + 1) % TWO_64; }
      if pos % 64 < 63 {
        var temp := FilledTo(blocks[idx], pos % 64);
        FilledToBits(blocks[idx], pos % 64);
        var bit := FindFirstSet64(Not(temp));
        if bit > 0 {
          ClearInBlock(blocks, idx, pos, temp, bit);
          return 64 * idx + (bit - 1);
        }
        FullAbove(blocks, idx, pos, temp);
      }
      idx := idx + 1;
      while idx < |blocks|
        invariant pos / 64 < idx <= |blocks|
        invariant forall q: nat | pos < q < 64 * idx :: q in Elements(blocks)
      {
        var bit := FindFirstSet64(Not(blocks[idx]));
        if bit > 0 {
          ClearInBlock(blocks, idx, pos, blocks[idx], bit);
          return 64 * idx + (bit - 1);
        }
        FullBlock(blocks, idx);
        idx := idx + 1;
      }
      return 64 * |blocks|;
    }

    method Intersects(rhs: BitSet) returns (b: bool)
      ensures b <==> Members() * rhs.Members() != {}
    {
      var minsize := if |blocks| < |rhs.blocks| then |blocks| else |rhs.blocks|;
      for idx := 0 to minsize
        invariant forall p | p in Elements(blocks) * Elements(rhs.blocks) :: p >= 64 * idx
      {
        ZeroBits(And(blocks[idx], rhs.blocks[idx])); AndBits(blocks[idx], rhs.blocks[idx]);
        if And(blocks[idx], rhs.blocks[idx]) != 0 {
          ghost var i: nat :| i in BitsOf(And(blocks[idx], rhs.blocks[idx]));
          BlockOf(blocks, idx, i); BlockOf(rhs.blocks, idx, i);
          assert 64 * idx + i in Elements(blocks) * Elements(rhs.blocks);
          return true;
        }
        DisjointBlock(blocks, rhs.blocks, idx);
      }
      return false;
    }

    /** `operator==`: equal sizes and equal blocks decide equality of the sets. */
    method Equals(rhs: BitSet) returns (b: bool)
      requires Valid() && rhs.Valid()
      ensures b <==> Members() == rhs.Members()
    {
      CanonicalEqual(blocks, rhs.blocks);
      if |blocks| != |rhs.blocks| { return false; }
      for idx := 0 to |blocks|
        invariant blocks[..idx] == rhs.blocks[..idx]
      {
        if blocks[idx] != rhs.blocks[idx] { return false; }
      }
      assert blocks == blocks[..|blocks|] && rhs.blocks == rhs.blocks[..|blocks|];
      return true;
    }

    /** Whether every member of `rhs` is a member; a longer `rhs` cannot be contained. */
    method Contains(rhs: BitSet) returns (b: bool)
      requires Valid() && rhs.Valid()
      ensures b <==> rhs.Members() <= Members()
    {
      SubsetBlocks(rhs.blocks, blocks);
      if |blocks| < |rhs.blocks| {
        if rhs.Members() <= Members() { CanonicalLength(rhs.blocks, blocks); }
        return false;
      }
      ZeroBits(0);
      for idx := 0 to |rhs.blocks|
        invariant forall k: nat | k < idx :: BitsOf(At(rhs.blocks, k)) <= BitsOf(At(blocks, k))
      {
        AndNotBits(rhs.blocks[idx], blocks[idx]);
        ZeroBits(And(rhs.blocks[idx], Not(blocks[idx])));
        if And(rhs.blocks[idx], Not(blocks[idx])) != 0 {
          assert !(BitsOf(At(rhs.blocks, idx)) <= BitsOf(At(blocks, idx)));
          return false;
        }
        NoDifference(BitsOf(rhs.blocks[idx]), BitsOf(blocks[idx]));
      }
      return true;
    }

    /** `operator|=`; `rhs` may be this set. */
    method UnionWith(rhs: BitSet)
      requires Valid() && rhs.Valid()
      modifies this
      ensures Valid() && Members() == old(Members()) + old(rhs.Members())
    {
      ghost var a, b := blocks, rhs.blocks;
      var n := |rhs.blocks|;
      if |blocks| < n { blocks := Resize(blocks, n); }
      ghost var len := |blocks|;
      for idx := 0 to n
        invariant |blocks| == len && |rhs.blocks| == n
        invariant forall k: nat | idx <= k < n :: rhs.blocks[k] == b[k]
        invariant forall k: nat | k < len :: blocks[k] == if k < idx then Or(At(a, k), b[k]) else At(a, k)
      {
        blocks := blocks[idx := Or(blocks[idx], rhs.blocks[idx])];
      }
      OrZero();
      UnionBlocks(a, b, blocks);
      if len > 0 {
        OrBits(At(a, len - 1), At(b, len - 1));
        ZeroBits(At(a, len - 1)); ZeroBits(At(b, len - 1)); ZeroBits(blocks[len - 1]);
      }
    }

    /** `Set(rhs)` is `operator|=`. */
    method Set(rhs: BitSet)
      requires Valid() && rhs.Valid()
      modifies this
      ensures Valid() && Members() == old(Members()) + old(rhs.Members())
    {
      UnionWith(rhs);
    }

    /** `operator&=`; `rhs` may be this set. */
    method IntersectWith(rhs: BitSet)
      requires Valid() && rhs.Valid()
      modifies this
      ensures Valid() && Members() == old(Members()) * old(rhs.Members())
    {
      ghost var a, b := blocks, rhs.blocks;
      var n := |blocks|;
      var minsize := if n < |rhs.blocks| then n else |rhs.blocks|;
      for idx := 0 to minsize
        invariant |blocks| == n && |rhs.blocks| == |b|
        invariant forall k: nat | idx <= k < |b| :: rhs.blocks[k] == b[k]
        invariant forall k: nat | k < n :: blocks[k] == if k < idx then And(a[k], b[k]) else a[k]
      {
        blocks := blocks[idx := And(blocks[idx], rhs.blocks[idx])];
      }
      for idx := minsize to n
        invariant |blocks| == n
        invariant forall k: nat | k < n ::
                    blocks[k] == if k < minsize then And(a[k], b[k]) else if k < idx then 0 else a[k]
      {
        blocks := blocks[idx := 0];
      }
      IntersectionBlocks(a, b, blocks);
      Compact();
    }

    /** `Reset(rhs)`: `*this &= ~rhs`; `rhs` may be this set. */
    method Reset(rhs: BitSet)
      requires Valid() && rhs.Valid()
      modifies this
      ensures Valid() && Members() == old(Members()) - old(rhs.Members())
    {
      ghost var a, b := blocks, rhs.blocks;
      var n := |blocks|;
      var minsize := if n < |rhs.blocks| then n else |rhs.blocks|;
      for idx := 0 to minsize
        invariant |blocks| == n && |rhs.blocks| == |b|
        invariant forall k: nat | idx <= k < |b| :: rhs.blocks[k] == b[k]
        invariant forall k: nat | k < n :: blocks[k] == if k < idx then And(a[k], Not(b[k])) else a[k]
      {
        blocks := blocks[idx := And(blocks[idx], Not(rhs.blocks[idx]))];
      }
      AndNotZero();
      DifferenceBlocks(a, b, blocks);
      Compact();
    }

    /**
     `*this = lhs & ~rhs`. The target is cleared first, so an argument that is the target
     itself is read as cleared.
     */
    method BuildComplement(lhs: BitSet, rhs: BitSet)
      requires Valid() && lhs.Valid() && rhs.Valid()
      modifies this
      ensures Valid()
      ensures Members() == if this == lhs then {} else if this == rhs then old(lhs.Members())
                           else old(lhs.Members()) - old(rhs.Members())
    {
      blocks := [];
      blocks := Resize(blocks, |lhs.blocks|);
      var n := |blocks|;
      ghost var a, b := lhs.blocks, rhs.blocks;
      var minsize := if n < |rhs.blocks| then n else |rhs.blocks|;
      for idx := 0 to minsize
        invariant |blocks| == n && |lhs.blocks| == n && |rhs.blocks| == |b|
        invariant this != lhs ==> lhs.blocks == a
        invariant forall k: nat | idx <= k < |b| :: rhs.blocks[k] == b[k]
        invariant forall k: nat | k < idx :: blocks[k] == And(a[k], Not(b[k]))
      {
        blocks := blocks[idx := And(lhs.blocks[idx], Not(rhs.blocks[idx]))];
      }
      for idx := minsize to n
        invariant |blocks| == n && |lhs.blocks| == n
        invariant this != lhs ==> lhs.blocks == a
        invariant forall k: nat | k < minsize :: blocks[k] == And(a[k], Not(b[k]))
        invariant forall k: nat | minsize <= k < idx :: blocks[k] == a[k]
      {
        blocks := blocks[idx := lhs.blocks[idx]];
      }
      AndNotZero();
      DifferenceBlocks(a, b, blocks);
      if this == rhs { AllZero(b); }
      Compact();
    }

    /** `*this = lhs & rhs`, built from the top block down so that no compaction is needed. */
    method BuildIntersection(lhs: BitSet, rhs: BitSet)
      requires Valid() && lhs.Valid() && rhs.Valid()
      modifies this
      ensures Valid()
      ensures Members() == if this == lhs || this == rhs then {} else old(lhs.Members()) * old(rhs.Members())
    {
      hide And, BitsOf;
      blocks := [];
      var minsize := if |lhs.blocks| < |rhs.blocks| then |lhs.blocks| else |rhs.blocks|;
      if minsize == 0 { return; }
      ghost var a, b := lhs.blocks, rhs.blocks;
      var idx := minsize - 1;
      while idx > 0
        invariant 0 <= idx < minsize && Canonical(blocks) && |blocks| <= minsize
        invariant lhs.blocks == a && rhs.blocks == b
        invariant forall k: nat | idx < k < minsize :: At(blocks, k) == And(a[k], b[k])
        invariant forall k: nat | k <= idx :: At(blocks, k) == 0
        invariant |blocks| > 0 ==> |blocks| > idx + 1
      {
        ghost var prev := blocks;
        if And(lhs.blocks[idx], rhs.blocks[idx]) != 0 {
          if |blocks| == 0 { blocks := Resize(blocks, idx + 1); }
          blocks := blocks[idx := And(lhs.blocks[idx], rhs.blocks[idx])];
        }
        assert forall k: nat | k != idx :: At(blocks, k) == At(prev, k);
        idx := idx - 1;
      }
      if And(lhs.blocks[0], rhs.blocks[0]) != 0 {
        if |blocks| == 0 { blocks := Resize(blocks, 1); }
        blocks := blocks[0 := And(lhs.blocks[0], rhs.blocks[0])];
      }
      AndZero();
      IntersectionBlocks(a, b, blocks);
    }

    /** `operator&`. */
    method Intersection(rhs: BitSet) returns (r: BitSet)
      requires Valid() && rhs.Valid()
      ensures fresh(r) && r.Valid() && r.Members() == Members() * rhs.Members()
    {
      r := new BitSet();
      r.BuildIntersection(this, rhs);
    }

    /** `operator|`. */
    method Union(rhs: BitSet) returns (r: BitSet)
      requires Valid() && rhs.Valid()
      ensures fresh(r) && r.Valid() && r.Members() == Members() + rhs.Members()
    {
      hide Or, BitsOf;
      r := new BitSet();
      var minsize := if |blocks| < |rhs.blocks| then |blocks| else |rhs.blocks|;
      var maxsize := if |blocks| < |rhs.blocks| then |rhs.blocks| else |blocks|;
      r.blocks := Zeros(maxsize);
      for idx := 0 to minsize
        invariant |r.blocks| == maxsize
        invariant forall k: nat | k < idx :: r.blocks[k] == Or(blocks[k], rhs.blocks[k])
      {
        r.blocks := r.blocks[idx := Or(blocks[idx], rhs.blocks[idx])];
      }
      for idx := minsize to |blocks|
        invariant |r.blocks| == maxsize
        invariant forall k: nat | k < minsize :: r.blocks[k] == Or(blocks[k], rhs.blocks[k])
        invariant forall k: nat | minsize <= k < idx :: r.blocks[k] == blocks[k]
      {
        r.blocks := r.blocks[idx := blocks[idx]];
      }
      for idx := minsize to |rhs.blocks|
        invariant |r.blocks| == maxsize
        invariant forall k: nat | k < minsize :: r.blocks[k] == Or(blocks[k], rhs.blocks[k])
        invariant forall k: nat | minsize <= k < |blocks| :: r.blocks[k] == blocks[k]
        invariant forall k: nat | minsize <= k < idx :: r.blocks[k] == rhs.blocks[k]
      {
        r.blocks := r.blocks[idx := rhs.blocks[idx]];
      }
      OrZero();
      UnionBlocks(blocks, rhs.blocks, r.blocks);
      if maxsize > 0 {
        OrBits(At(blocks, maxsize - 1), At(rhs.blocks, maxsize - 1));
        ZeroBits(At(blocks, maxsize - 1)); ZeroBits(At(rhs.blocks, maxsize - 1)); ZeroBits(r.blocks[maxsize - 1]);
      }
    }

    method ToString() returns (s: string)
      requires Valid()
      ensures BinaryText(Members(), s)
    {
      var lastPos := FindLast();
      if lastPos == NPOS { return ""; }
      s := seq(lastPos + 1, _ => '0');
      var pos := FindFirst();
      while pos != NPOS
        invariant |s| == lastPos + 1 && pos <= NPOS
        invariant pos == NPOS || pos in Elements(blocks)
        invariant forall i: nat | i < |s| :: s[i] == if i in Elements(blocks) && i < pos then '1' else '0'
        decreases NPOS - pos
      {
        s := s[pos := '1'];
        var next := FindNext(pos);
        pos := next;
      }
    }

    method FromString(s: string)
      requires |s| <= 64 * MAX_BLOCKS
      modifies this
      ensures Valid() && Members() == OnesOf(s)
    {
      blocks := [];
      if |s| == 0 { return; }
      var i := |s| - 1;
      while i > 0
        invariant Valid() && 0 <= i < |s|
        invariant Members() == set k: nat | i < k < |s| && s[k] == '1'
      {
        if s[i] == '1' { SetBit(i); }
        i := i - 1;
      }
      if s[0] == '1' { SetBit(0); }
    }

    /** One turn of the loop: the text once `pos`, above all positions seen, is added. */
    static method NumberPosition(ghost seen: set<nat>, ghost runs: seq<Run>, range: bool, text: string, lastPos: nat,
                                 pos: nat)
      returns (range': bool, text': string)
      requires OpenText(seen, runs, range, text) && (lastPos == NPOS <==> runs == []) && (runs == [] ==> !range)
      requires runs != [] ==>
                 runs[|runs| - 1].high == lastPos < pos && range == (runs[|runs| - 1].low < lastPos)
      ensures OpenText(seen + {pos}, Grow(runs, pos), range', text')
      ensures var run := Grow(runs, pos)[|Grow(runs, pos)| - 1]; run.high == pos && range' == (run.low < pos)
    {
      hide Decimal, OpenText;
      range', text' := range, text;
      if lastPos == NPOS {
        OpenFirst(seen, range, text, pos);
        assert Grow(runs, pos) == [Run(pos, pos)];
        text' := text + Decimal(pos);
      } else if pos == lastPos + 1 {
        OpenExtend(seen, runs, range, text, pos);
        range' := true;
      } else if range {
        OpenNext(seen, runs, range, text, pos);
        text' := text + ("-" + Decimal(lastPos));
        text' := text' + "," + Decimal(pos);
        range' := false;
      } else {
        OpenNext(seen, runs, range, text, pos);
        assert text + "" == text;
        text' := text + "," + Decimal(pos);
      }
    }

    /** The text decodes to the list of maximal runs of the members. */
    method ToNumberedString() returns (text: string)
      requires Valid()
      ensures Decode(text).Some? && MaximalRuns(Members(), Decode(text).value)
    {
      CanonicalEmpty(blocks);
      if |blocks| == 0 {
        DecodePrint([]);
        assert MaximalRuns({}, []);
        return "-";
      }
      text := "";
      var range := false;
      var lastPos := NPOS;
      ghost var elems := Elements(blocks);
      ghost var runs: seq<Run> := [];
      var pos := FindFirst();
      OpenEmpty(range);
      assert Under(elems, pos) == {} && forall p | p in elems :: p < NPOS;
      hide Decimal, OpenText, MaximalRuns, Elements, Decode, Canonical, Under;
      while pos != NPOS
        invariant IsNext(elems, if runs == [] then -1 else lastPos, pos) && pos <= NPOS
        invariant lastPos == NPOS <==> runs == []
        invariant runs == [] ==> pos != NPOS && !range
        invariant runs != [] ==> runs[|runs| - 1].high == lastPos < NPOS && range == (runs[|runs| - 1].low < lastPos)
        invariant OpenText(Under(elems, pos), runs, range, text)
        decreases NPOS - pos
      {
        range, text := NumberPosition(Under(elems, pos), runs, range, text, lastPos, pos);
        runs := Grow(runs, pos);
        var next := FindNext(pos);
        UnderNext(elems, pos, next);
        lastPos := pos;
        pos := next;
      }
      UnderAll(elems);
      CloseText(elems, runs, range, text);
      if range {
        text := text + ("-" + Decimal(lastPos));
      } else {
        assert text + "" == text;
      }
    }
  }

  // ---- iterating

  /** What a loop of `find_next` visits from `from` on (`find_first`: from -1) until it meets `npos`. */
  ghost predicate Iteration(elems: set<nat>, from: int, visited: seq<nat>)
    decreases |visited|
  {
    if visited == [] then IsNext(elems, from, NPOS)
    else visited[0] != NPOS && IsNext(elems, from, visited[0]) && Iteration(elems, visited[0], visited[1..])
  }

  /** Such a loop visits exactly the members above its start, each once and in ascending order. */
  lemma {:induction false} Enumerates(elems: set<nat>, from: int, visited: seq<nat>)
    requires Iteration(elems, from, visited)
    ensures forall p: nat :: p in visited <==> p in elems && p > from
    ensures forall i, j | 0 <= i < j < |visited| :: visited[i] < visited[j]
    decreases |visited|
  {
    if visited != [] {
      var rest := visited[1..];
      Enumerates(elems, visited[0], rest);
      assert visited == [visited[0]] + rest;
      forall j | 0 < j < |visited| ensures visited[0] < visited[j] {
        assert visited[j] == rest[j - 1] && rest[j - 1] in rest;
      }
    }
  }

  // ---- the binary text

  /** Character `i` tells whether `i` is a member, up to the greatest member. */
  ghost predicate BinaryText(elems: set<nat>, s: string) {
    && (forall i: nat | i < |s| :: s[i] == if i in elems then '1' else '0')
    && (forall p | p in elems :: p < |s|)
    && (|s| > 0 ==> s[|s| - 1] == '1')
  }

  ghost function OnesOf(s: string): set<nat> {
    set i: nat | i < |s| && s[i] == '1'
  }

  /** Reading back a printed text gives the set, and a set has one text only. */
  lemma BinaryRoundTrip(elems: set<nat>, s: string, t: string)
    requires BinaryText(elems, s)
    ensures OnesOf(s) == elems
    ensures BinaryText(elems, t) ==> s == t
  {
    forall p: nat ensures p in OnesOf(s) <==> p in elems {}
    if BinaryText(elems, t) {
      assert |s| > 0 ==> |s| - 1 in elems;
      assert |t| > 0 ==> |t| - 1 in elems;
    }
  }

  /** Printing what was read gives the text back exactly for binary digits that end in '1'. */
  /** The text as it looks. */
  lemma BinarySample()
    ensures BinaryText({}, "") && BinaryText({0, 2, 3}, "1011") && OnesOf("0100") == {1}
  {
    assert forall p: nat :: p in OnesOf("0100") <==> p == 1;
  }

  lemma BinaryReprint(s: string)
    ensures BinaryText(OnesOf(s), s) <==> (forall c | c in s :: c == '0' || c == '1') && (|s| > 0 ==> s[|s| - 1] == '1')
  {
    if BinaryText(OnesOf(s), s) {
      forall c | c in s ensures c == '0' || c == '1' { var i: nat :| i < |s| && s[i] == c; }
    }
    if forall c | c in s :: c == '0' || c == '1' {
      forall i: nat | i < |s| ensures s[i] == if i in OnesOf(s) then '1' else '0' { assert s[i] in s; }
    }
  }

  lemma DisjointBlock(a: seq<Word>, b: seq<Word>, idx: nat)
    requires BitsOf(At(a, idx)) * BitsOf(At(b, idx)) == {}
    ensures forall p | p in Elements(a) * Elements(b) :: p / 64 != idx
  {
    forall p | p in Elements(a) * Elements(b) ensures p / 64 != idx {
      HasElement(a, p); HasElement(b, p);
      assert p % 64 !in BitsOf(At(a, idx)) * BitsOf(At(b, idx));
    }
  }

  lemma NoDifference(a: set<nat>, b: set<nat>)
    requires a - b == {}
    ensures a <= b
  {
    forall x | x in a ensures x in b { assert x !in a - b; }
  }

  lemma AllZero(b: seq<Word>)
    requires forall k: nat | k < |b| :: b[k] == 0
    ensures Elements(b) == {}
  {
    ZeroBits(0);
  }

  ghost function Under(elems: set<nat>, pos: nat): set<nat> {
    set p | p in elems && p < pos
  }

  lemma UnderNext(elems: set<nat>, pos: nat, next: nat)
    requires pos in elems && pos < NPOS && IsNext(elems, pos, next)
    requires forall p | p in elems :: p < NPOS
    ensures Under(elems, next) == Under(elems, pos) + {pos}
  {
  }

  lemma UnderAll(elems: set<nat>)
    requires forall p | p in elems :: p < NPOS
    ensures Under(elems, NPOS) == elems
  {
  }

  lemma CountBlock(blocks: seq<Word>, idx: nat)
    requires idx < |blocks|
    ensures |Elements(blocks[..idx + 1])| == |Elements(blocks[..idx])| + |BitsOf(blocks[idx])|
  {
    var block := Shift(BitsOf(blocks[idx]), 64 * idx);
    ShiftedSize(BitsOf(blocks[idx]), 64 * idx);
    forall p: nat ensures p in Elements(blocks[..idx + 1]) <==> p in Elements(blocks[..idx]) || p in block {
      HasElement(blocks[..idx + 1], p); HasElement(blocks[..idx], p);
      if p in Elements(blocks[..idx + 1]) && p / 64 == idx { assert p == 64 * idx + p % 64; }
      ZeroBits(0);
    }
    assert Elements(blocks[..idx + 1]) == Elements(blocks[..idx]) + block;
    assert Elements(blocks[..idx]) !! block;
  }

  ghost function Shift(s: set<nat>, base: nat): set<nat> {
    set i | i in s :: base + i
  }

  lemma {:induction false} ShiftedSize(s: set<nat>, base: nat)
    ensures |Shift(s, base)| == |s|
  {
    if s != {} {
      var x :| x in s;
      var rest := s - {x};
      ShiftedSize(rest, base);
      forall y ensures y in Shift(s, base) <==> y in Shift(rest, base) + {base + x} {
        if y in Shift(s, base) && y != base + x {
          var i :| i in s && y == base + i;
          assert i in rest;
        }
      }
      assert Shift(s, base) == Shift(rest, base) + {base + x};
    }
  }

  /** `block & ~((1LL << (offset + 1)) - 1)`: the bits above the offset. */
  function AboveOffset(block: Word, offset: nat): Word
    requires offset < 63
  {
    MaskBits(offset + 1);
    And(block, Not(Pow2(offset + 1) - 1))
  }

  lemma AboveOffsetBits(block: Word, offset: nat)
    requires offset < 63
    ensures forall i :: i in BitsOf(AboveOffset(block, offset)) <==> i in BitsOf(block) && i > offset
  {
    MaskBits(offset + 1);
    AndNotBits(block, Pow2(offset + 1) - 1);
    var below := Pow2(offset + 1) - 1;
    forall i: nat ensures Bit(below, i) == (i < offset + 1) { BitOfBelow(offset + 1, i); }
  }

  /** The least bit found in (part of) a block is the next member. */
  lemma FirstInBlock(blocks: seq<Word>, idx: nat, pos: int, word: Word, bit: nat)
    requires idx < |blocks| <= MAX_BLOCKS && 0 < bit <= 64
    requires forall i :: i in BitsOf(word) <==> i in BitsOf(blocks[idx]) && 64 * idx + i > pos
    requires bit - 1 in BitsOf(word) && forall j | j in BitsOf(word) :: bit - 1 <= j
    requires forall q | q in Elements(blocks) && pos < q :: q >= 64 * idx
    ensures IsNext(Elements(blocks), pos, 64 * idx + (bit - 1))
  {
    BlockOf(blocks, idx, bit - 1);
    forall q | q in Elements(blocks) && pos < q ensures 64 * idx + (bit - 1) <= q {
      HasElement(blocks, q);
      if q / 64 == idx { assert q == 64 * idx + q % 64; }
    }
  }

  lemma SkipBlock(blocks: seq<Word>, idx: nat)
    requires idx < |blocks| && BitsOf(blocks[idx]) == {}
    ensures forall q | q in Elements(blocks) && q >= 64 * idx :: q >= 64 * (idx + 1)
  {
    forall q | q in Elements(blocks) && q >= 64 * idx ensures q >= 64 * (idx + 1) { HasElement(blocks, q); }
  }

  lemma NothingAbove(blocks: seq<Word>, idx: nat, pos: nat, word: Word)
    requires idx == pos / 64 < |blocks| && BitsOf(word) == {}
    requires forall i :: i in BitsOf(word) <==> i in BitsOf(blocks[idx]) && 64 * idx + i > pos
    ensures forall q | q in Elements(blocks) && pos < q :: q >= 64 * (idx + 1)
  {
    forall q | q in Elements(blocks) && pos < q ensures q >= 64 * (idx + 1) {
      HasElement(blocks, q);
    }
  }

  /** `block | ((1LL << (offset + 1)) - 1)`: the bits up to the offset filled in. */
  function FilledTo(block: Word, offset: nat): Word
    requires offset < 63
  {
    MaskBits(offset + 1);
    Or(block, Pow2(offset + 1) - 1)
  }

  lemma FilledToBits(block: Word, offset: nat)
    requires offset < 63
    ensures forall i: nat | i < 64 :: i in BitsOf(FilledTo(block, offset)) <==> i in BitsOf(block) || i <= offset
  {
    MaskBits(offset + 1);
    OrBits(block, Pow2(offset + 1) - 1);
    var below := Pow2(offset + 1) - 1;
    forall i: nat ensures Bit(below, i) == (i < offset + 1) { BitOfBelow(offset + 1, i); }
  }

  lemma NotBits(w: Word)
    ensures forall i: nat | i < 64 :: i in BitsOf(Not(w)) <==> i !in BitsOf(w)
  {
    Pow2At64();
    forall i: nat | i < 64 ensures Bit(Not(w), i) == !Bit(w, i) { BitOfComplement(w, 64, i); }
  }

  /** The least clear bit found in (part of) a block is the next free position. */
  lemma ClearInBlock(blocks: seq<Word>, idx: nat, pos: int, word: Word, bit: nat)
    requires idx < |blocks| && 0 < bit <= 64
    requires forall i: nat | i < 64 :: i in BitsOf(word) <==> i in BitsOf(blocks[idx]) || 64 * idx + i <= pos
    requires bit - 1 in BitsOf(Not(word)) && forall j | j in BitsOf(Not(word)) :: bit - 1 <= j
    requires forall q: nat | pos < q < 64 * idx :: q in Elements(blocks)
    ensures IsNextClear(Elements(blocks), pos, 64 * idx + (bit - 1))
  {
    NotBits(word);
    BlockOf(blocks, idx, bit - 1);
    forall q: nat | pos < q < 64 * idx + (bit - 1) ensures q in Elements(blocks) {
      if q >= 64 * idx { BlockOf(blocks, idx, q - 64 * idx); }
    }
  }

  lemma FullBlock(blocks: seq<Word>, idx: nat)
    requires idx < |blocks| && BitsOf(Not(blocks[idx])) == {}
    ensures forall q: nat | 64 * idx <= q < 64 * (idx + 1) :: q in Elements(blocks)
  {
    NotBits(blocks[idx]);
    forall q: nat | 64 * idx <= q < 64 * (idx + 1) ensures q in Elements(blocks) {
      BlockOf(blocks, idx, q - 64 * idx);
    }
  }

  lemma FullAbove(blocks: seq<Word>, idx: nat, pos: nat, word: Word)
    requires idx == pos / 64 < |blocks| && BitsOf(Not(word)) == {}
    requires forall i: nat | i < 64 :: i in BitsOf(word) <==> i in BitsOf(blocks[idx]) || 64 * idx + i <= pos
    ensures forall q: nat | pos < q < 64 * (idx + 1) :: q in Elements(blocks)
  {
    NotBits(word);
    forall q: nat | pos < q < 64 * (idx + 1) ensures q in Elements(blocks) { BlockOf(blocks, idx, q - 64 * idx); }
  }

  lemma OrZero()
    ensures forall w: Word :: Or(w, 0) == w && Or(0, w) == w
  {
  }

  lemma AndZero()
    ensures forall w: Word :: And(w, 0) == 0 && And(0, w) == 0
  {
  }

  lemma AndNotZero()
    ensures forall w: Word :: And(w, Not(0)) == w
  {
    forall w: Word ensures And(w, Not(0)) == w { Pow2At64(); BelowMask(w, 64); }
  }
}
