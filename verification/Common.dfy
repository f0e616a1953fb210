/** Machine integers of the C program and the small values every other module shares. */
module Common {

  type byte = x: int | 0 <= x < 256

  /** `short` and `signed char` of the C program. */
  type int16 = x: int | -0x8000 <= x < 0x8000
  type int8 = x: int | -0x80 <= x < 0x80

  /** A value of type `unsigned int`. */
  type uint32 = x: int | 0 <= x < 0x1_0000_0000

  datatype Option<+T> = None | Some(value: T)

  /** The conversion of an integer to `short`: reduction modulo 2^16 into the signed range. */
  function ToInt16(x: int): (r: int16)
    ensures (r - x) % 0x1_0000 == 0
    ensures -0x8000 <= x < 0x8000 ==> r == x
  {
    (x + 0x8000) % 0x1_0000 - 0x8000
  }

  /** The conversion of an integer to `signed char`. */
  function ToInt8(x: int): (r: int8)
    ensures (r - x) % 0x100 == 0
    ensures -0x80 <= x < 0x80 ==> r == x
  {
    (x + 0x80) % 0x100 - 0x80
  }

  /** The conversion of an integer to `int`. */
  function ToInt32(x: int): (r: int)
    ensures -0x8000_0000 <= r < 0x8000_0000
    ensures (r - x) % 0x1_0000_0000 == 0
    ensures -0x8000_0000 <= x < 0x8000_0000 ==> r == x
  {
    (x + 0x8000_0000) % 0x1_0000_0000 - 0x8000_0000
  }

  lemma Regroup<T>(a: seq<T>, b: seq<T>, c: seq<T>)
    ensures a + (b + c) == (a + b) + c
  {
  }

  function Min(a: int, b: int): int { if a < b then a else b }

  function Max(a: int, b: int): int { if a > b then a else b }

  function Abs(a: int): nat { if a < 0 then -a else a }

  lemma DivModNat(n: nat, d: nat)
    requires d != 0
    ensures n / d * d <= n < n / d * d + d
  {
    assert n == n / d * d + n % d;
  }

  /** The C quotient, which truncates toward zero. */
  function Quot(a: int, b: int): (q: int)
    requires b != 0
    ensures Abs(q) == Abs(a) / Abs(b)
  {
    DivModNat(Abs(a), Abs(b));
    if (a < 0) == (b < 0) then Abs(a) / Abs(b) else -(Abs(a) / Abs(b))
  }

  lemma SignedProduct(q: int, d: int)
    ensures q * (-d) == -(q * d) && (-q) * d == -(q * d) && (-q) * (-d) == q * d
  {
  }

  /** The multiple that a truncated quotient stands for has the sign of the dividend. */
  lemma QuotTimes(a: int, b: int)
    requires b != 0
    ensures Quot(a, b) * b == if a < 0 then -(Abs(a) / Abs(b) * Abs(b)) else Abs(a) / Abs(b) * Abs(b)
  {
    SignedProduct(Abs(a) / Abs(b), Abs(b));
  }

  lemma MulMonotone(a: nat, b: nat, c: nat)
    ensures a <= b ==> a * c <= b * c
  {
  }

  /** The remainder of truncating division has the sign of the dividend and is smaller than the divisor. */
  lemma QuotRemainder(a: int, b: int)
    requires b != 0
    ensures var r := a - Quot(a, b) * b;
            Abs(r) < Abs(b) && Abs(r) <= Abs(a) && (r == 0 || (r < 0) == (a < 0))
  {
    QuotTimes(a, b);
    DivModNat(Abs(a), Abs(b));
    MulMonotone(0, Abs(a) / Abs(b), Abs(b));
  }

  lemma QuotientBelow(n: nat, d: nat, k: nat)
    requires d != 0
    ensures n < k * d ==> n / d < k
    ensures n <= k * d ==> n / d <= k
  {
    DivModNat(n, d);
    MulMonotone(k, n / d, d);
    MulMonotone(k + 1, n / d, d);
    assert (k + 1) * d == k * d + d;
  }

  lemma QuotBelow(a: int, b: int, k: nat)
    requires b != 0
    ensures Abs(a) < k * Abs(b) ==> Abs(Quot(a, b)) < k
    ensures Abs(a) <= k * Abs(b) ==> Abs(Quot(a, b)) <= k
  {
    QuotientBelow(Abs(a), Abs(b), k);
  }

  lemma MulGap(v: int, w: int, d: nat)
    requires v < w
    ensures v * d + d <= w * d
  {
    MulMonotone(1, w - v, d);
    assert w * d == v * d + (w - v) * d;
  }

  lemma Product(a: int, b: int)
    ensures Abs(a * b) == Abs(a) * Abs(b)
  {
    SignedProduct(Abs(a), Abs(b));
  }

  lemma ProductSign(a: int, b: int)
    ensures a == 0 || b == 0 ==> a * b == 0
    ensures a != 0 && b != 0 ==> a * b != 0 && (a * b < 0 <==> (a < 0) != (b < 0))
  {
    if a < 0 {
      SignedProduct(-a, b);
    }
    if b < 0 {
      SignedProduct(a, -b);
    }
    MulMonotone(1, Abs(a), Abs(b));
    SignedProduct(Abs(a), Abs(b));
  }

  lemma RemainderIs(n: nat, d: nat, k: nat, r: nat)
    requires r < d && n == k * d + r
    ensures n % d == r
  {
    DivModNat(n, d);
    if n / d < k {
      MulGap(n / d, k, d);
    } else if k < n / d {
      MulGap(k, n / d, d);
    }
  }

  lemma Triangle(t: int, x: int, y: int, z: int, p: nat, q: nat, r: nat)
    requires t == x + y + z && Abs(x) <= p && Abs(y) <= q && Abs(z) <= r
    ensures Abs(t) <= p + q + r
  {
  }

  lemma Distribute(a: nat, b: nat, c: nat)
    ensures (a + b) * c == a * c + b * c
  {
  }

  lemma Total(i: nat, j: nat, n: nat, m: nat, d: nat)
    requires n == i + j
    ensures i * m + j * m + d * n == (m + d) * n
  {
    Distribute(i, j, m);
    Distribute(m, d, n);
  }

  lemma Cancel(n: nat, e: nat, k: nat)
    requires n > 0
    ensures n * e <= k * n ==> e <= k
  {
    if k < e {
      MulGap(k, e, n);
    }
  }

  lemma Weigh(i: int, a: int, m: nat)
    requires Abs(a) <= m
    ensures Abs(i * a) <= Abs(i) * m
  {
    Product(i, a);
    MulMonotone(Abs(a), m, Abs(i));
  }

  /** A weighted mean of two small numbers and a small fraction is small. */
  lemma BlendBound(n: int, e: int, i: int, j: int, a: int, b: int, d: int, c: int, m: nat)
    requires n != 0 && n == i + j && ((i >= 0 && j >= 0) || (i <= 0 && j <= 0))
    requires Abs(a) <= m && Abs(b) <= m && Abs(c) <= Abs(n)
    requires n * e == i * a + j * b + d * c
    ensures Abs(e) <= m + Abs(d)
  {
    Weigh(i, a, m);
    Weigh(j, b, m);
    Weigh(d, c, Abs(n));
    Triangle(n * e, i * a, j * b, d * c, Abs(i) * m, Abs(j) * m, Abs(d) * Abs(n));
    Total(Abs(i), Abs(j), Abs(n), m, Abs(d));
    Product(n, e);
    Cancel(Abs(n), Abs(e), m + Abs(d));
  }

  /** Offset of column `x` of row `y` in a buffer with rows of `w` cells. */
  function Offset(w: int, x: int, y: int): int {
    y * w + x
  }

  lemma OffsetInBuffer(w: int, h: int, x: int, y: int)
    requires 0 <= x < w && 0 <= y < h
    ensures 0 <= Offset(w, x, y) < w * h
  {
    MulMonotone(y + 1, h, w);
    assert (y + 1) * w == y * w + w;
    MulMonotone(0, y, w);
  }

  lemma OffsetInjective(w: int, x: int, y: int, x': int, y': int)
    requires 0 <= x < w && 0 <= x' < w && Offset(w, x, y) == Offset(w, x', y')
    ensures x == x' && y == y'
  {
    if y < y' {
      MulGap(y, y', w);
    } else if y' < y {
      MulGap(y', y, w);
    }
  }
}
