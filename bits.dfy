/** Bit masks as the solver uses them. A C# `int` mask is modelled by its
    32-bit pattern read as an unsigned number (0 <= x < 2^32); bit d-1 stands
    for digit d. The bitwise operators the solver applies (`|`, `&`, `~`, `-x`,
    `x - 1`, `1 << k`, PopCount, TrailingZeroCount) are defined bit by bit. */
module Bits {

  const WordBits := 32

  /** 2^k. */
  function Pow2(k: nat): nat
    ensures Pow2(k) >= 1
  {
    if k == 0 then 1 else 2 * Pow2(k - 1)
  }

  /** The 32-bit patterns. */
  predicate IsWord(x: int)
  {
    0 <= x < Pow2(WordBits)
  }

  /** Bit k of x. */
  function Bit(x: nat, k: nat): bool
  {
    if k == 0 then x % 2 == 1 else Bit(x / 2, k - 1)
  }

  /** `x | y`. */
  function Or(x: nat, y: nat): nat
    decreases x + y
  {
    if x == 0 && y == 0 then 0
    else 2 * Or(x / 2, y / 2) + (if x % 2 == 1 || y % 2 == 1 then 1 else 0)
  }

  /** `x & y`. */
  function And(x: nat, y: nat): nat
    decreases x + y
  {
    if x == 0 || y == 0 then 0
    else 2 * And(x / 2, y / 2) + (if x % 2 == 1 && y % 2 == 1 then 1 else 0)
  }

  /** `~x` on a 32-bit pattern. */
  function Not(x: nat): nat
    requires IsWord(x)
  {
    Pow2(WordBits) - 1 - x
  }

  /** `-x` in 32-bit two's complement. */
  function Neg(x: nat): nat
    requires IsWord(x)
  {
    if x == 0 then 0 else Pow2(WordBits) - x
  }

  /** `x - 1` in 32-bit two's complement. */
  function Dec(x: nat): nat
    requires IsWord(x)
  {
    if x == 0 then Pow2(WordBits) - 1 else x - 1
  }

  /** `1 << k` on a C# `int`: the shift count is taken modulo 32. */
  function ShiftOne(k: int): (p: nat)
    ensures IsWord(p)
  {
    PowMonotone(k % WordBits, WordBits);
    Pow2(k % WordBits)
  }

  /** The bit of digit d, written `1 << digit - 1` in the source. */
  function DigitBit(d: int): (p: nat)
    ensures IsWord(p)
  {
    ShiftOne(d - 1)
  }

  /** Digit d (1..32) is set in mask m. */
  predicate Has(m: nat, d: int)
  {
    1 <= d <= WordBits && Bit(m, d - 1)
  }

  /** The digits a mask holds. */
  ghost function Digits(m: nat): set<int>
  {
    set d | 1 <= d <= WordBits && Has(m, d)
  }

  /** Number of set bits among the first w. */
  function CountBits(x: nat, w: nat): nat
  {
    if w == 0 then 0 else CountBits(x, w - 1) + (if Bit(x, w - 1) then 1 else 0)
  }

  /** `BitOperations.PopCount((uint)x)`. */
  function PopCount(x: nat): nat
  {
    CountBits(x, WordBits)
  }

  /** `BitOperations.TrailingZeroCount(x)` for x != 0: the index of the lowest set bit. */
  function TrailingZeroCount(x: nat): (k: nat)
    requires x != 0
    ensures Bit(x, k) && forall j :: 0 <= j < k ==> !Bit(x, j)
  {
    if x % 2 == 1 then 0 else TrailingZeroCount(x / 2) + 1
  }

  /** The least digit a non-empty mask holds: `TrailingZeroCount(x) + 1`. */
  function LowestDigit(x: nat): int
    requires x != 0
  {
    TrailingZeroCount(x) + 1
  }

  // ---------------------------------------------------------------------------
  // Bit-level facts

  lemma {:induction false} BitOfSmall(x: nat, w: nat, k: nat)
    requires x < Pow2(w) && w <= k
    ensures !Bit(x, k)
    decreases w
  {
    if w != 0 {
      BitOfSmall(x / 2, w - 1, k - 1);
    } else {
      ZeroBits(k);
    }
  }

  lemma {:induction false} BitOr(x: nat, y: nat, k: nat)
    ensures Bit(Or(x, y), k) <==> Bit(x, k) || Bit(y, k)
    decreases x + y
  {
    if x == 0 && y == 0 {
      ZeroBits(k);
    } else if k > 0 {
      BitOr(x / 2, y / 2, k - 1);
    }
  }

  lemma {:induction false} BitAnd(x: nat, y: nat, k: nat)
    ensures Bit(And(x, y), k) <==> Bit(x, k) && Bit(y, k)
    decreases x + y
  {
    ZeroBits(k);
    if x != 0 && y != 0 && k > 0 {
      BitAnd(x / 2, y / 2, k - 1);
    }
  }

  lemma {:induction false} ZeroBits(k: nat)
    ensures !Bit(0, k)
  {
    if k > 0 {
      ZeroBits(k - 1);
    }
  }

  lemma {:induction false} OrBound(x: nat, y: nat, w: nat)
    requires x < Pow2(w) && y < Pow2(w)
    ensures Or(x, y) < Pow2(w)
    decreases w
  {
    if w > 0 && !(x == 0 && y == 0) {
      OrBound(x / 2, y / 2, w - 1);
    }
  }

  lemma {:induction false} AndBound(x: nat, y: nat)
    ensures And(x, y) <= x
    decreases x + y
  {
    if x != 0 && y != 0 {
      AndBound(x / 2, y / 2);
    }
  }

  /** Bits of `2^w - 1 - x`: the complement within w bits. */
  lemma {:induction false} BitComplement(x: nat, w: nat, k: nat)
    requires x < Pow2(w)
    ensures Bit(Pow2(w) - 1 - x, k) <==> k < w && !Bit(x, k)
    decreases w
  {
    if w == 0 {
      ZeroBits(k);
    } else {
      var c := Pow2(w) - 1 - x;
      assert c / 2 == Pow2(w - 1) - 1 - x / 2;
      if k > 0 {
        BitComplement(x / 2, w - 1, k - 1);
      }
    }
  }

  /** Bits of `2^w - x` for 0 < x < 2^w: two's-complement negation within w bits. */
  lemma {:induction false} BitNegation(x: nat, w: nat, k: nat)
    requires 0 < x < Pow2(w)
    ensures var l := TrailingZeroCount(x);
      Bit(Pow2(w) - x, k) <==> k == l || (l < k < w && !Bit(x, k))
    decreases w
  {
    var n := Pow2(w) - x;
    if x % 2 == 1 {
      assert n / 2 == Pow2(w - 1) - 1 - x / 2;
      if k > 0 {
        BitComplement(x / 2, w - 1, k - 1);
      }
    } else {
      assert n / 2 == Pow2(w - 1) - x / 2;
      if k > 0 {
        BitNegation(x / 2, w - 1, k - 1);
      }
    }
  }

  /** Bits of `x - 1` for x > 0. */
  lemma {:induction false} BitDecrement(x: nat, k: nat)
    requires x > 0
    ensures var l := TrailingZeroCount(x);
      Bit(x - 1, k) <==> k < l || (l < k && Bit(x, k))
    decreases x
  {
    if x % 2 == 1 {
      assert TrailingZeroCount(x) == 0;
      if k > 0 {
        assert (x - 1) / 2 == x / 2;
        assert Bit(x - 1, k) == Bit(x / 2, k - 1) == Bit(x, k);
      }
    } else {
      assert TrailingZeroCount(x) == TrailingZeroCount(x / 2) + 1;
      if k > 0 {
        assert (x - 1) / 2 == x / 2 - 1;
        assert Bit(x - 1, k) == Bit(x / 2 - 1, k - 1);
        assert Bit(x, k) == Bit(x / 2, k - 1);
        BitDecrement(x / 2, k - 1);
      }
    }
  }

  lemma {:induction false} BitPow2(j: nat, k: nat)
    ensures Bit(Pow2(j), k) <==> j == k
    decreases j
  {
    if j == 0 {
      if k > 0 {
        ZeroBits(k - 1);
      }
    } else if k > 0 {
      BitPow2(j - 1, k - 1);
    } else {
      assert Pow2(j) % 2 == 0;
    }
  }

  /** Bits of `2^j - 1`. */
  lemma BitLowMask(j: nat, k: nat)
    ensures Bit(Pow2(j) - 1, k) <==> k < j
  {
    BitComplement(0, j, k);
    ZeroBits(k);
  }

  /** Two patterns of at most w bits that agree on every bit are equal. */
  lemma {:induction false} BitsDetermine(x: nat, y: nat, w: nat)
    requires x < Pow2(w) && y < Pow2(w)
    requires forall k :: 0 <= k < w ==> Bit(x, k) == Bit(y, k)
    ensures x == y
    decreases w
  {
    if w > 0 {
      assert Bit(x, 0) == Bit(y, 0);
      forall k | 0 <= k < w - 1
        ensures Bit(x / 2, k) == Bit(y / 2, k)
      {
        assert Bit(x, k + 1) == Bit(y, k + 1);
      }
      BitsDetermine(x / 2, y / 2, w - 1);
    }
  }

  /** `x & -x` isolates the lowest set bit. */
  lemma IsolateLowest(x: nat)
    requires IsWord(x) && x != 0
    ensures And(x, Neg(x)) == Pow2(TrailingZeroCount(x))
  {
    var l := TrailingZeroCount(x);
    forall k | 0 <= k < WordBits
      ensures Bit(And(x, Neg(x)), k) == Bit(Pow2(l), k)
    {
      BitAnd(x, Neg(x), k);
      BitNegation(x, WordBits, k);
      BitPow2(l, k);
    }
    AndBound(x, Neg(x));
    BitsOfWord(x);
    PowMonotone(l, WordBits);
    BitsDetermine(And(x, Neg(x)), Pow2(l), WordBits);
  }

  /** `x & (x - 1)` clears the lowest set bit. */
  lemma ClearLowest(x: nat, k: nat)
    requires IsWord(x) && x != 0
    ensures Bit(And(x, Dec(x)), k) <==> Bit(x, k) && k != TrailingZeroCount(x)
  {
    BitAnd(x, Dec(x), k);
    BitDecrement(x, k);
  }

  lemma {:induction false} PowMonotone(j: nat, k: nat)
    requires j < k
    ensures Pow2(j) < Pow2(k)
    decreases k
  {
    if j < k - 1 {
      PowMonotone(j, k - 1);
    }
  }

  lemma {:induction false} BitsOfWord(x: nat)
    requires IsWord(x)
    ensures forall k :: k >= WordBits ==> !Bit(x, k)
  {
    forall k | k >= WordBits
      ensures !Bit(x, k)
    {
      BitOfSmall(x, WordBits, k);
    }
  }

  lemma {:induction false} AndBoundRight(x: nat, y: nat)
    ensures And(x, y) <= y
    decreases x + y
  {
    if x != 0 && y != 0 {
      AndBoundRight(x / 2, y / 2);
    }
  }

  // ---------------------------------------------------------------------------
  // Digit-level facts

  lemma DigitBitWord(d: int)
    ensures IsWord(DigitBit(d))
  {
    var k := (d - 1) % WordBits;
    PowMonotone(k, WordBits);
  }

  /** `1 << digit - 1` holds exactly digit d, for 1 <= d <= 32. */
  lemma HasDigitBit(d: int, e: int)
    requires 1 <= d <= WordBits
    ensures Has(DigitBit(d), e) <==> e == d
  {
    assert (d - 1) % WordBits == d - 1;
    if 1 <= e {
      BitPow2(d - 1, e - 1);
    }
  }

  lemma HasOr(x: nat, y: nat, d: int)
    ensures Has(Or(x, y), d) <==> Has(x, d) || Has(y, d)
  {
    if 1 <= d {
      BitOr(x, y, d - 1);
    }
  }

  lemma HasAnd(x: nat, y: nat, d: int)
    ensures Has(And(x, y), d) <==> Has(x, d) && Has(y, d)
  {
    if 1 <= d {
      BitAnd(x, y, d - 1);
    }
  }

  lemma HasNot(x: nat, d: int)
    requires IsWord(x)
    ensures Has(Not(x), d) <==> 1 <= d <= WordBits && !Has(x, d)
  {
    if 1 <= d {
      BitComplement(x, WordBits, d - 1);
    }
  }

  lemma WordOr(x: nat, y: nat)
    requires IsWord(x) && IsWord(y)
    ensures IsWord(Or(x, y))
  {
    OrBound(x, y, WordBits);
  }

  lemma WordAnd(x: nat, y: nat)
    requires IsWord(x) || IsWord(y)
    ensures IsWord(And(x, y))
  {
    AndBound(x, y);
    AndBoundRight(x, y);
  }

  /** Two words holding the same digits are equal. */
  lemma DigitsDetermine(x: nat, y: nat)
    requires IsWord(x) && IsWord(y)
    requires forall d :: 1 <= d <= WordBits ==> (Has(x, d) <==> Has(y, d))
    ensures x == y
  {
    forall k | 0 <= k < WordBits
      ensures Bit(x, k) == Bit(y, k)
    {
      assert Has(x, k + 1) <==> Has(y, k + 1);
    }
    BitsDetermine(x, y, WordBits);
  }

  /** `(x & (1 << d - 1)) != 0` tests digit d. */
  lemma TestDigit(x: nat, d: int)
    requires 1 <= d <= WordBits
    ensures And(x, DigitBit(d)) != 0 <==> Has(x, d)
  {
    var a := And(x, DigitBit(d));
    assert (d - 1) % WordBits == d - 1;
    if a != 0 {
      var l := TrailingZeroCount(a);
      BitAnd(x, DigitBit(d), l);
      BitPow2(d - 1, l);
    }
    if Has(x, d) {
      BitAnd(x, DigitBit(d), d - 1);
      BitPow2(d - 1, d - 1);
      ZeroBits(d - 1);
    }
  }

  /** The lowest digit of a non-empty mask is held by it, and no smaller digit is. */
  lemma LowestDigitLeast(x: nat)
    requires IsWord(x) && x != 0
    ensures Has(x, LowestDigit(x)) && forall d :: d < LowestDigit(x) ==> !Has(x, d)
  {
    BitsOfWord(x);
  }

  /** The digits among the first w bits, as a set of digits 1..w. */
  ghost function DigitsBelow(x: nat, w: nat): set<int>
  {
    set d | 1 <= d <= w && Has(x, d)
  }

  lemma {:induction false} CountBitsDigits(x: nat, w: nat)
    requires w <= WordBits
    ensures CountBits(x, w) == |DigitsBelow(x, w)|
  {
    if w > 0 {
      CountBitsDigits(x, w - 1);
      if Has(x, w) {
        assert DigitsBelow(x, w) == DigitsBelow(x, w - 1) + {w};
      } else {
        assert DigitsBelow(x, w) == DigitsBelow(x, w - 1);
      }
    } else {
      assert DigitsBelow(x, w) == {};
    }
  }

  /** At most w of the first w bits are set. */
  lemma {:induction false} CountBitsBound(x: nat, w: nat)
    ensures CountBits(x, w) <= w
  {
    if w > 0 {
      CountBitsBound(x, w - 1);
    }
  }

  /** `PopCount` counts the digits a mask holds. */
  lemma PopCountDigits(x: nat)
    ensures PopCount(x) == |Digits(x)|
  {
    CountBitsDigits(x, WordBits);
    assert DigitsBelow(x, WordBits) == Digits(x);
  }

  /** A mask with a single set bit holds exactly its lowest digit. */
  lemma SingleDigit(x: nat)
    requires IsWord(x) && x != 0 && PopCount(x) == 1
    ensures forall d :: Has(x, d) <==> d == LowestDigit(x)
  {
    PopCountDigits(x);
    LowestDigitLeast(x);
    var l := LowestDigit(x);
    assert l in Digits(x);
    forall d | Has(x, d)
      ensures d == l
    {
      assert d in Digits(x);
      if d != l {
        assert {l, d} <= Digits(x);
        assert |{l, d}| == 2;
        SubsetCard({l, d}, Digits(x));
      }
    }
  }

  lemma SubsetCard(a: set<int>, b: set<int>)
    requires a <= b
    ensures |a| <= |b|
  {
    assert b == a + (b - a);
  }

  /** `x & -x` is the bit of the lowest digit; `TrailingZeroCount` of it gives that digit back. */
  lemma LowestBit(x: nat)
    requires IsWord(x) && x != 0
    ensures x != 0 && And(x, Neg(x)) != 0 && TrailingZeroCount(And(x, Neg(x))) + 1 == LowestDigit(x)
  {
    IsolateLowest(x);
    var l := TrailingZeroCount(x);
    var p := Pow2(l);
    ZeroBits(l);
    BitPow2(l, l);
    BitPow2(l, TrailingZeroCount(p));
  }

  /** `x & (x - 1)` drops the lowest digit and keeps the others; the mask shrinks. */
  lemma DropLowest(x: nat)
    requires IsWord(x) && x != 0
    ensures IsWord(And(x, Dec(x))) && And(x, Dec(x)) < x
    ensures forall d :: Has(And(x, Dec(x)), d) <==> Has(x, d) && d != LowestDigit(x)
  {
    AndBoundRight(x, Dec(x));
    forall d
      ensures Has(And(x, Dec(x)), d) <==> Has(x, d) && d != LowestDigit(x)
    {
      if 1 <= d {
        ClearLowest(x, d - 1);
      }
    }
  }

  /** The mask of digits 1..n: its n low bits set. */
  function LowMask(n: nat): (m: nat)
    requires n <= WordBits
    ensures IsWord(m)
    ensures forall d :: Has(m, d) <==> 1 <= d <= n
  {
    LowMaskDigits(n, Pow2(n) - 1);
    Pow2(n) - 1
  }

  lemma LowMaskDigits(n: nat, m: nat)
    requires n <= WordBits && m == Pow2(n) - 1
    ensures IsWord(m)
    ensures forall d :: Has(m, d) <==> 1 <= d <= n
  {
    if n < WordBits {
      PowMonotone(n, WordBits);
    }
    forall d
      ensures Has(m, d) <==> 1 <= d <= n
    {
      if 1 <= d {
        BitLowMask(n, d - 1);
      }
    }
  }
}
