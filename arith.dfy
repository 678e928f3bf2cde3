/** Integer facts the board geometry needs: Euclidean division by the block
    size, and the integer square root that stands for `(int)Math.Sqrt(n)`. */
module Arith {

  lemma {:induction false} MulNonneg(a: int, b: int)
    requires a >= 0 && b >= 0
    ensures a * b >= 0
  {
  }

  lemma {:induction false} Distrib(a: int, x: int, b: int)
    ensures (x - a) * b == x * b - a * b
  {
  }

  /** a < x implies (a + 1) * b <= x * b. */
  lemma MulMono(a: int, x: int, b: int)
    requires a < x && b > 0
    ensures a * b + b <= x * b
  {
    Distrib(a, x, b);
    MulNonneg(x - a - 1, b);
    Distrib(a + 1, x, b);
  }

  lemma {:induction false} MulLe(a: int, x: int, b: int)
    requires a <= x && b >= 0
    ensures a * b <= x * b
  {
    Distrib(a, x, b);
    MulNonneg(x - a, b);
  }

  lemma {:induction false} DivChar(a: int, b: int)
    requires b > 0
    ensures a == (a / b) * b + a % b && 0 <= a % b < b
  {
  }

  /** Base-b digits are unique: q*b + i == q'*b + i' with 0 <= i, i' < b forces q == q'. */
  lemma IndexUnique(a: int, b: int, x: int, y: int, bs: int)
    requires bs > 0 && 0 <= b < bs && 0 <= y < bs
    requires a * bs + b == x * bs + y
    ensures a == x && b == y
  {
    if a < x {
      MulMono(a, x, bs);
    } else if x < a {
      MulMono(x, a, bs);
    }
  }

  lemma DivMulAdd(q: int, b: int, i: int)
    requires b > 0 && 0 <= i < b
    ensures (q * b + i) / b == q && (q * b + i) % b == i
  {
    var a := q * b + i;
    DivChar(a, b);
    IndexUnique(a / b, a % b, q, i, b);
  }

  /** For 0 <= a < b*b the quotient a / b is below b. */
  lemma DivBelow(a: int, b: int)
    requires b > 0 && 0 <= a < b * b
    ensures 0 <= a / b < b
  {
    DivChar(a, b);
    if a / b < 0 {
      MulMono(a / b, 0, b);
    }
    if a / b >= b {
      MulLe(b, a / b, b);
    }
  }

  /** The block number `r / bs * bs + c / bs` lies in 0 .. bs*bs - 1. */
  lemma BlockNumberBound(q: int, p: int, bs: int)
    requires bs > 0 && 0 <= q < bs && 0 <= p < bs
    ensures 0 <= q * bs + p < bs * bs
  {
    MulNonneg(q, bs);
    MulMono(q, bs, bs);
  }

  /** Integer square root, the value of `(int)Math.Sqrt(n)`. */
  function ISqrt(n: nat): (s: nat)
    ensures s * s <= n < (s + 1) * (s + 1)
  {
    SqrtFrom(n, 0)
  }

  function SqrtFrom(n: nat, s: nat): (r: nat)
    requires s * s <= n
    ensures r * r <= n < (r + 1) * (r + 1)
    decreases n - s
  {
    if (s + 1) * (s + 1) <= n then
      MulLe(1, s + 1, s + 1);
      SqrtFrom(n, s + 1)
    else
      s
  }

  /** A perfect square has exactly one integer root. */
  lemma {:induction false} SquareRootUnique(s: nat, t: nat)
    requires s * s == t * t
    ensures s == t
  {
    if s < t {
      MulLe(s, t, s);
      MulMono(s, t, t);
    } else if t < s {
      MulLe(t, s, t);
      MulMono(t, s, s);
    }
  }

  lemma ISqrtOfSquare(s: nat)
    ensures ISqrt(s * s) == s
  {
    var r := ISqrt(s * s);
    if r < s {
      MulLe(r + 1, s, r + 1);
      MulLe(r + 1, s, s);
    } else if s < r {
      MulLe(s + 1, r, s + 1);
      MulLe(s + 1, r, r);
    }
  }
}
