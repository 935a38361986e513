/**
 Unsigned machine words as bounded naturals. The C++ operators `&`, `|` and `~` are defined
 digit by digit, and the lemmas relate each to the set of offsets of the set bits.
 */
module Words {

  const TWO_64: nat := 0x1_0000_0000_0000_0000
  const TWO_32: nat := 0x1_0000_0000

  type Word = w: nat | w < TWO_64

  /** `1 << i`, before any truncation. */
  function Pow2(i: nat): (p: nat)
    ensures p > 0
  {
    if i == 0 then 1 else 2 * Pow2(i - 1)
  }

  /** Whether the binary digit of weight `1 << i` is set. */
  predicate Bit(w: nat, i: nat) {
    if i == 0 then w % 2 == 1 else Bit(w / 2, i - 1)
  }

  /** The offsets of the set bits of a word. */
  ghost function BitsOf(w: Word): set<nat> {
    set i: nat | i < 64 && Bit(w, i)
  }

  function And(a: nat, b: nat): (r: nat)
    ensures r <= a && r <= b
  {
    if a == 0 || b == 0 then 0
    else (if a % 2 == 1 && b % 2 == 1 then 1 else 0) + 2 * And(a / 2, b / 2)
  }

  function OrDigits(a: nat, b: nat): nat {
    if a == 0 then b else if b == 0 then a
    else (if a % 2 == 1 || b % 2 == 1 then 1 else 0) + 2 * OrDigits(a / 2, b / 2)
  }

  function Or(a: Word, b: Word): Word {
    Pow2At64();
    OrBound(a, b, 64);
    OrDigits(a, b)
  }

  function Not(a: Word): Word {
    TWO_64 - 1 - a
  }

  lemma Pow2At64()
    ensures Pow2(64) == TWO_64 && Pow2(32) == TWO_32
  {
    Pow2Plus8(0); Pow2Plus8(8); Pow2Plus8(16); Pow2Plus8(24);
    Pow2Plus8(32); Pow2Plus8(40); Pow2Plus8(48); Pow2Plus8(56);
  }

  lemma Pow2Plus8(i: nat)
    ensures Pow2(i + 8) == 0x100 * Pow2(i)
  {
    assert Pow2(i + 4) == 16 * Pow2(i) by { assert Pow2(i + 2) == 4 * Pow2(i); }
    assert Pow2(i + 8) == 16 * Pow2(i + 4) by { assert Pow2(i + 6) == 4 * Pow2(i + 4); }
  }

  lemma {:induction false} OrBound(a: nat, b: nat, n: nat)
    requires a < Pow2(n) && b < Pow2(n)
    ensures OrDigits(a, b) < Pow2(n)
  {
    if n > 0 && a > 0 && b > 0 { OrBound(a / 2, b / 2, n - 1); }
  }

  // ---- the bits of combined words

  lemma {:induction false} BitOfZero(i: nat)
    ensures !Bit(0, i)
  {
    if i > 0 { BitOfZero(i - 1); }
  }

  lemma {:induction false} BitOfAnd(a: nat, b: nat, i: nat)
    ensures Bit(And(a, b), i) == (Bit(a, i) && Bit(b, i))
  {
    if i == 0 {
    } else {
      BitOfZero(i);
      assert And(a, b) / 2 == And(a / 2, b / 2);
      BitOfAnd(a / 2, b / 2, i - 1);
    }
  }

  lemma {:induction false} BitOfOr(a: nat, b: nat, i: nat)
    ensures Bit(OrDigits(a, b), i) == (Bit(a, i) || Bit(b, i))
  {
    if i == 0 {
    } else {
      BitOfZero(i);
      assert OrDigits(a, b) / 2 == OrDigits(a / 2, b / 2);
      BitOfOr(a / 2, b / 2, i - 1);
    }
  }

  lemma {:induction false} BitOfComplement(a: nat, n: nat, i: nat)
    requires a < Pow2(n) && i < n
    ensures Bit(Pow2(n) - 1 - a, i) == !Bit(a, i)
  {
    if i > 0 {
      assert (Pow2(n) - 1 - a) / 2 == Pow2(n - 1) - 1 - a / 2;
      BitOfComplement(a / 2, n - 1, i - 1);
    }
  }

  lemma {:induction false} BitOfPow2(k: nat, i: nat)
    ensures Bit(Pow2(k), i) == (i == k)
  {
    if k == 0 {
      if i > 0 { BitOfZero(i - 1); }
    } else if i > 0 {
      BitOfPow2(k - 1, i - 1);
    }
  }

  lemma {:induction false} BitOfBelow(n: nat, i: nat)
    ensures Bit(Pow2(n) - 1, i) == (i < n)
  {
    if n == 0 {
      BitOfZero(i);
    } else if i > 0 {
      assert (Pow2(n) - 1) / 2 == Pow2(n - 1) - 1;
      BitOfBelow(n - 1, i - 1);
    }
  }

  lemma {:induction false} BitBeyond(w: nat, n: nat, i: nat)
    requires w < Pow2(n) && n <= i
    ensures !Bit(w, i)
  {
    if n == 0 { BitOfZero(i); } else { BitBeyond(w / 2, n - 1, i - 1); }
  }

  lemma {:induction false} SomeBit(w: nat, n: nat) returns (i: nat)
    requires 0 < w < Pow2(n)
    ensures i < n && Bit(w, i)
  {
    if w % 2 == 1 { i := 0; } else { i := SomeBit(w / 2, n - 1); i := i + 1; }
  }

  lemma {:induction false} SameDigits(a: nat, b: nat, n: nat)
    requires a < Pow2(n) && b < Pow2(n)
    requires forall i: nat | i < n :: Bit(a, i) == Bit(b, i)
    ensures a == b
  {
    if n > 0 {
      assert Bit(a, 0) == Bit(b, 0);
      forall i: nat | i < n - 1 ensures Bit(a / 2, i) == Bit(b / 2, i) { assert Bit(a, i + 1) == Bit(b, i + 1); }
      SameDigits(a / 2, b / 2, n - 1);
    }
  }

  // ---- words as sets of offsets

  lemma ZeroBits(w: Word)
    ensures BitsOf(w) == {} <==> w == 0
  {
    if w != 0 {
      Pow2At64();
      var i := SomeBit(w, 64);
      assert i in BitsOf(w);
    }
    forall i: nat ensures !Bit(0, i) { BitOfZero(i); }
  }

  lemma SameBits(a: Word, b: Word)
    requires BitsOf(a) == BitsOf(b)
    ensures a == b
  {
    Pow2At64();
    forall i: nat | i < 64 ensures Bit(a, i) == Bit(b, i) { assert i in BitsOf(a) <==> i in BitsOf(b); }
    SameDigits(a, b, 64);
  }

  lemma OrBits(a: Word, b: Word)
    ensures BitsOf(Or(a, b)) == BitsOf(a) + BitsOf(b)
  {
    forall i: nat ensures Bit(Or(a, b), i) == (Bit(a, i) || Bit(b, i)) { BitOfOr(a, b, i); }
  }

  lemma AndBits(a: Word, b: Word)
    ensures BitsOf(And(a, b)) == BitsOf(a) * BitsOf(b)
  {
    forall i: nat ensures Bit(And(a, b), i) == (Bit(a, i) && Bit(b, i)) { BitOfAnd(a, b, i); }
  }

  lemma AndNotBits(a: Word, b: Word)
    ensures BitsOf(And(a, Not(b))) == BitsOf(a) - BitsOf(b)
  {
    Pow2At64();
    forall i: nat | i < 64 ensures Bit(And(a, Not(b)), i) == (Bit(a, i) && !Bit(b, i)) {
      BitOfAnd(a, Not(b), i); BitOfComplement(b, 64, i);
    }
  }

  lemma MaskBits(i: nat)
    requires i < 64
    ensures Pow2(i) < TWO_64 && BitsOf(Pow2(i)) == {i}
  {
    Pow2Less(i, 64); Pow2At64();
    forall j: nat ensures Bit(Pow2(i), j) == (j == i) { BitOfPow2(i, j); }
  }

  lemma {:induction false} Pow2Less(i: nat, n: nat)
    requires i < n
    ensures Pow2(i) < Pow2(n)
  {
    if i + 1 < n { Pow2Less(i, n - 1); }
  }

  // ---- `w & (w - 1)`

  lemma {:induction false} AndSelf(w: nat)
    ensures And(w, w) == w
  {
    if w > 0 { AndSelf(w / 2); }
  }

  lemma KernighanOdd(w: nat, j: nat)
    requires w % 2 == 1
    ensures Bit(And(w, w - 1), j) == (Bit(w, j) && j != 0)
  {
    AndSelf(w / 2);
    assert And(w, w - 1) == 2 * (w / 2) by { assert (w - 1) / 2 == w / 2; }
  }

  /** `w & (w - 1)` drops the least set bit and keeps every other. */
  lemma {:induction false} BitOfKernighan(w: nat, least: nat, j: nat)
    requires w > 0
    requires Bit(w, least) && forall k: nat | k < least :: !Bit(w, k)
    ensures Bit(And(w, w - 1), j) == (Bit(w, j) && j != least)
  {
    if least == 0 {
      KernighanOdd(w, j);
    } else {
      assert !Bit(w, 0);
      assert And(w, w - 1) == 2 * And(w / 2, w / 2 - 1) by { assert (w - 1) / 2 == w / 2 - 1; }
      if j > 0 {
        forall k: nat | k < least - 1 ensures !Bit(w / 2, k) { assert !Bit(w, k + 1); }
        BitOfKernighan(w / 2, least - 1, j - 1);
      }
    }
  }

  lemma LeastBit(w: Word) returns (least: nat)
    requires w != 0
    ensures least in BitsOf(w) && forall j | j in BitsOf(w) :: least <= j
  {
    ZeroBits(w);
    least :| least in BitsOf(w);
    while exists j :: j in BitsOf(w) && j < least
      invariant least in BitsOf(w)
      decreases least
    {
      var j :| j in BitsOf(w) && j < least;
      least := j;
    }
  }

  lemma KernighanBits(w: Word) returns (least: nat)
    requires w != 0
    ensures least in BitsOf(w) && forall j | j in BitsOf(w) :: least <= j
    ensures BitsOf(And(w, w - 1)) == BitsOf(w) - {least}
  {
    least := LeastBit(w);
    forall k: nat | k < least ensures !Bit(w, k) { assert k !in BitsOf(w); }
    forall j: nat | j < 64 ensures Bit(And(w, w - 1), j) == (Bit(w, j) && j != least) { BitOfKernighan(w, least, j); }
    assert BitsOf(And(w, w - 1)) == BitsOf(w) - {least};
  }

  /** The number of set bits, by dropping the least one until none is left. */
  method NumBitsSet(value: Word) returns (count: nat)
    ensures count == |BitsOf(value)|
  {
    var v := value;
    count := 0;
    while v != 0
      invariant count + |BitsOf(v)| == |BitsOf(value)|
    {
      ghost var least := KernighanBits(v);
      assert |BitsOf(v)| == |BitsOf(v) - {least}| + 1;
      v := And(v, v - 1);
      count := count + 1;
    }
    ZeroBits(v);
  }

  // ---- the least set bit

  /** The low `n` digits come from `low`, the others from `high`. */
  lemma {:induction false} BitOfPair(low: nat, high: nat, n: nat, i: nat)
    requires low < Pow2(n)
    ensures Bit(low + Pow2(n) * high, i) == if i < n then Bit(low, i) else Bit(high, i - n)
  {
    if n > 0 {
      var rest := Pow2(n - 1) * high;
      assert Pow2(n) * high == 2 * rest;
      assert (low + 2 * rest) / 2 == low / 2 + rest;
      if i > 0 { BitOfPair(low / 2, high, n - 1, i - 1); }
    }
  }

  /** The libc `ffs`: 1-based position of the least set bit of an `int`, 0 when there is none. */
  function Ffs(v: nat, from: nat := 0): (bit: nat)
    requires from <= 32
    ensures bit <= 32
    ensures bit == 0 ==> forall j: nat | from <= j < 32 :: !Bit(v, j)
    ensures bit > 0 ==> from < bit && Bit(v, bit - 1) && forall j: nat | from <= j < bit - 1 :: !Bit(v, j)
    decreases 32 - from
  {
    if from == 32 then 0
    else if Bit(v, from) then from + 1
    else Ffs(v, from + 1)
  }

  lemma Halves(w: Word)
    ensures forall i: nat | i < 32 :: Bit(w % TWO_32, i) == Bit(w, i)
    ensures forall i: nat | 32 <= i < 64 :: Bit(w / TWO_32, i - 32) == Bit(w, i)
  {
    Pow2At64();
    var low, high := w % TWO_32, w / TWO_32;
    forall i: nat ensures Bit(w, i) == if i < 32 then Bit(low, i) else Bit(high, i - 32) {
      BitOfPair(low, high, 32, i);
    }
  }

  /** The 1-based position of the least set bit, 0 when there is none. */
  method FindFirstSet64(value: Word) returns (bit: nat)
    ensures bit <= 64
    ensures bit == 0 <==> BitsOf(value) == {}
    ensures bit > 0 ==> bit - 1 in BitsOf(value) && forall j | j in BitsOf(value) :: bit - 1 <= j
  {
    Halves(value);
    bit := Ffs(value % TWO_32);
    if bit > 0 { assert bit - 1 in BitsOf(value); return bit; }
    bit := Ffs(value / TWO_32);
    if bit > 0 { assert bit + 31 in BitsOf(value); return 32 + bit; }
  }

  // ---- the greatest set bit

  /** A mask of the top digits is clear of `v` exactly when `v` lies below them. */
  lemma {:induction false} HighMask(v: nat, n: nat, k: nat)
    requires k <= n && v < Pow2(n)
    ensures Pow2(k) <= Pow2(n)
    ensures And(v, Pow2(n) - Pow2(k)) == 0 <==> v < Pow2(k)
  {
    if k > 0 {
      HighMask(v / 2, n - 1, k - 1);
    } else {
      BelowMask(v, n);
    }
  }

  lemma {:induction false} BelowMask(v: nat, n: nat)
    requires v < Pow2(n)
    ensures And(v, Pow2(n) - 1) == v
  {
    if n > 0 && v > 0 {
      assert (Pow2(n) - 1) / 2 == Pow2(n - 1) - 1;
      BelowMask(v / 2, n - 1);
    }
  }

  lemma {:induction false} TopBit(v: nat, n: nat)
    requires Pow2(n) <= v < Pow2(n + 1)
    ensures Bit(v, n)
  {
    if n > 0 { TopBit(v / 2, n - 1); }
  }

  /** `value` is `v` moved up `n` places. */
  ghost predicate Raised(v: nat, value: nat, n: nat) {
    forall j: nat :: Bit(value, j) == (j >= n && Bit(v, j - n))
  }

  lemma Raise(v: nat, value: nat, n: nat, k: nat)
    requires Raised(v, value, n)
    ensures Raised(v, Pow2(k) * value, n + k)
  {
    hide Bit;
    forall j: nat ensures Bit(Pow2(k) * value, j) == (j >= n + k && Bit(v, j - (n + k))) {
      BitOfPair(0, value, k, j); BitOfZero(j);
    }
  }

  lemma AtTop(v: nat, value: nat, n: nat)
    requires Raised(v, value, n) && Pow2(31) <= value < Pow2(32)
    ensures n <= 31 && Bit(v, 31 - n) && forall j: nat | 32 - n <= j :: !Bit(v, j)
  {
    hide Bit, Pow2;
    TopBit(value, 31);
    forall j: nat | 32 - n <= j ensures !Bit(v, j) { BitBeyond(value, 32, j + n); }
  }

  lemma Masks()
    ensures Pow2(31) == 0x8000_0000 && Pow2(30) == 0x4000_0000 && Pow2(28) == 0x1000_0000
    ensures Pow2(24) == 0x100_0000 && Pow2(16) == 0x1_0000 && Pow2(32) == TWO_32
    ensures Pow2(8) == 0x100 && Pow2(4) == 0x10 && Pow2(2) == 4 && Pow2(1) == 2 && Pow2(0) == 1
  {
    Pow2Plus8(0); Pow2Plus8(8); Pow2Plus8(16); Pow2At64();
    assert Pow2(32) == 2 * Pow2(31) && Pow2(31) == 2 * Pow2(30) && Pow2(30) == 2 * Pow2(29) && Pow2(29) == 2 * Pow2(28);
  }

  /** One halving step: when the top `k` digits are clear, the word moves up by `k`. */
  method Narrow(ghost v: nat, value: nat, bit: int, mask: nat, k: nat) returns (value': nat, bit': int)
    requires k <= 16 && bit <= 32 && mask == Pow2(32) - Pow2(32 - k)
    requires Raised(v, value, 32 - bit) && Pow2(32 - 2 * k) <= value < Pow2(32)
    ensures bit' <= 32 && Raised(v, value', 32 - bit') && Pow2(32 - k) <= value' < Pow2(32)
  {
    hide *;
    Pow2At64();
    HighMask(value, 32, 32 - k);
    if And(value, mask) == 0 {
      Raise(v, value, 32 - bit, k);
      Fits(value, k);
      value' := ShiftLeft32(value, k);
      bit' := bit - k;
    } else {
      value', bit' := value, bit;
    }
  }

  /** `value << k` on a 32-bit word. */
  function ShiftLeft32(value: nat, k: nat): nat {
    Pow2(k) * value % TWO_32
  }

  lemma Fits(value: nat, k: nat)
    requires k <= 16 && Pow2(32 - 2 * k) <= value < Pow2(32 - k)
    ensures ShiftLeft32(value, k) == Pow2(k) * value
    ensures Pow2(32 - k) <= ShiftLeft32(value, k) < Pow2(32)
  {
    Pow2At64();
    hide Pow2;
    Pow2Sum(k, 32 - k); Pow2Sum(k, 32 - 2 * k);
    Scale(Pow2(32 - 2 * k), value, Pow2(32 - k), Pow2(k));
  }

  lemma Scale(a: nat, b: nat, c: nat, p: nat)
    requires a <= b < c && p > 0
    ensures p * a <= p * b < p * c
  {
  }

  lemma {:induction false} Pow2Sum(a: nat, b: nat)
    ensures Pow2(a + b) == Pow2(a) * Pow2(b)
  {
    if a > 0 { Pow2Sum(a - 1, b); assert Pow2(a) * Pow2(b) == 2 * (Pow2(a - 1) * Pow2(b)); }
  }

  /** The 1-based position of the greatest set bit of a 32-bit word, by halving. */
  method FindLastSet32(v: nat) returns (bit: nat)
    requires v < TWO_32
    ensures bit <= 32
    ensures bit == 0 <==> v == 0
    ensures bit > 0 ==> Bit(v, bit - 1) && forall j: nat | bit <= j :: !Bit(v, j)
  {
    if v == 0 { return 0; }
    assert Raised(v, v, 0);
    hide *;
    Masks();
    var value, b := Narrow(v, v, 32, 0xFFFF_0000, 16);
    value, b := Narrow(v, value, b, 0xFF00_0000, 8);
    value, b := Narrow(v, value, b, 0xF000_0000, 4);
    value, b := Narrow(v, value, b, 0xC000_0000, 2);
    value, b := Narrow(v, value, b, 0x8000_0000, 1);
    AtTop(v, value, 32 - b);
    return b;
  }

  /** The 1-based position of the greatest set bit, 0 when there is none. */
  method FindLastSet64(value: Word) returns (bit: nat)
    ensures bit <= 64
    ensures bit == 0 <==> BitsOf(value) == {}
    ensures bit > 0 ==> bit - 1 in BitsOf(value) && forall j | j in BitsOf(value) :: j <= bit - 1
  {
    Halves(value);
    forall i: nat ensures !Bit(0, i) { BitOfZero(i); }
    bit := FindLastSet32(value / TWO_32);
    if bit > 0 { assert bit + 31 in BitsOf(value); return 32 + bit; }
    bit := FindLastSet32(value % TWO_32);
    if bit > 0 { assert bit - 1 in BitsOf(value); return bit; }
  }
}
