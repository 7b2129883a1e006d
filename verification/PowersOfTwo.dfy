/** Powers, powers of two, and arithmetic modulo a power of two. */
module PowersOfTwo {

  function Pow2(n: nat): (r: int)
    ensures r > 0
  {
    if n == 0 then 1 else 2 * Pow2(n - 1)
  }

  function Power(b: int, n: nat): int {
    if n == 0 then 1 else b * Power(b, n - 1)
  }

  /** The low k bits of a, as an unsigned number. */
  function Low(a: int, k: nat): (r: int)
    ensures 0 <= r < Pow2(k)
  {
    a % Pow2(k)
  }

  /** The integer that a w-bit vector stands for when it is read as a two's complement number. */
  function AsSigned(v: nat, w: nat): int {
    if w > 0 && v >= Pow2(w - 1) then v - Pow2(w) else v
  }

  /** The integers that a w-bit vector can stand for. */
  predicate InRange(a: int, w: nat, signed: bool) {
    if signed then w > 0 && -Pow2(w - 1) <= a < Pow2(w - 1) else 0 <= a < Pow2(w)
  }

  /** The integer that a w-bit vector stands for. */
  function Interpret(v: nat, w: nat, signed: bool): int {
    if signed then AsSigned(v, w) else v
  }

  lemma {:induction false} Pow2Add(a: nat, b: nat)
    ensures Pow2(a + b) == Pow2(a) * Pow2(b)
  {
    if a == 0 {
    } else {
      Pow2Add(a - 1, b);
      MulAssociates(2, Pow2(a - 1), Pow2(b));
    }
  }

  lemma MulAssociates(a: int, b: int, c: int)
    ensures a * (b * c) == (a * b) * c
  {
  }

  lemma {:induction false} Pow2Monotone(a: nat, b: nat)
    requires a <= b
    ensures Pow2(a) <= Pow2(b)
  {
    if a == b {
    } else {
      Pow2Monotone(a, b - 1);
    }
  }

  lemma Pow2Of32()
    ensures Pow2(32) == 0x1_0000_0000
  {
    assert Pow2(8) == 256;
    Pow2Add(8, 8);
    Pow2Add(16, 16);
  }

  lemma RangeWidens(a: int, w: nat, w': nat, signed: bool)
    requires InRange(a, w, signed) && w <= w'
    ensures InRange(a, w', signed)
  {
    Pow2Monotone(w, w');
    if signed {
      Pow2Monotone(w - 1, w' - 1);
    }
  }

  lemma AtLeastOnce(d: int, m: int)
    requires d >= 1 && m > 0
    ensures d * m >= m
  {
  }

  lemma TimesNonNegative(a: nat, b: nat)
    ensures a * b >= 0
  {
  }

  /** Division with remainder has one answer. */
  lemma RemainderUnique(a: int, m: int, q: int, r: int)
    requires m > 0 && a == q * m + r && 0 <= r < m
    ensures a % m == r && a / m == q
  {
    var q', r' := a / m, a % m;
    assert a == q' * m + r';
    Distribute(q, -q', m);
    Distribute(q', -q, m);
    if q > q' {
      AtLeastOnce(q - q', m);
    } else if q < q' {
      AtLeastOnce(q' - q, m);
    }
  }

  lemma LowOfSum(a: int, q: int, k: nat)
    ensures Low(a + q * Pow2(k), k) == Low(a, k)
  {
    var m := Pow2(k);
    assert a + q * m == (a / m + q) * m + a % m;
    RemainderUnique(a + q * m, m, a / m + q, a % m);
  }

  /** a and b agree modulo 2^k exactly when they differ by a multiple of it. */
  lemma LowSplit(a: int, k: nat) returns (q: int)
    ensures a == Low(a, k) + q * Pow2(k)
  {
    q := a / Pow2(k);
  }

  lemma LowSmall(a: int, k: nat)
    requires 0 <= a < Pow2(k)
    ensures Low(a, k) == a
  {
    RemainderUnique(a, Pow2(k), 0, a);
  }

  lemma LowLow(a: int, k: nat, j: nat)
    requires j <= k
    ensures Low(Low(a, k), j) == Low(a, j)
  {
    var q := LowSplit(a, k);
    Pow2Add(k - j, j);
    MulAssociates(q, Pow2(k - j), Pow2(j));
    LowOfSum(Low(a, k), q * Pow2(k - j), j);
  }

  lemma LowAdd(a: int, b: int, k: nat)
    ensures Low(Low(a, k) + Low(b, k), k) == Low(a + b, k)
  {
    var m := Pow2(k);
    var p := LowSplit(a, k);
    var q := LowSplit(b, k);
    Distribute(p, q, m);
    LowOfSum(Low(a, k) + Low(b, k), p + q, k);
  }

  lemma Distribute(p: int, q: int, m: int)
    ensures (p + q) * m == p * m + q * m
    ensures m * (p + q) == m * p + m * q
  {
  }

  lemma LowMulOne(a: int, b: int, k: nat)
    ensures Low(Low(a, k) * b, k) == Low(a * b, k)
  {
    var m := Pow2(k);
    var p := LowSplit(a, k);
    assert a * b == Low(a, k) * b + (p * b) * m by {
      Distribute(Low(a, k), p * m, b);
      assert (p * m) * b == (p * b) * m;
    }
    LowOfSum(Low(a, k) * b, p * b, k);
  }

  lemma LowMul(a: int, b: int, k: nat)
    ensures Low(Low(a, k) * Low(b, k), k) == Low(a * b, k)
  {
    LowMulOne(a, Low(b, k), k);
    assert a * Low(b, k) == Low(b, k) * a && b * a == a * b;
    LowMulOne(b, a, k);
  }

  lemma LowNegate(a: int, k: nat)
    ensures Low(-Low(a, k), k) == Low(-a, k)
  {
    LowMulOne(a, -1, k);
  }

  lemma LowSub(a: int, b: int, k: nat)
    ensures Low(Low(a, k) - Low(b, k), k) == Low(a - b, k)
  {
    LowAdd(Low(a, k), -Low(b, k), k);
    LowLow(a, k, k);
    LowNegate(b, k);
    LowAdd(a, -b, k);
    assert Low(Low(a, k), k) == Low(a, k);
    assert a + -b == a - b && Low(a, k) + -Low(b, k) == Low(a, k) - Low(b, k);
  }

  /** Reading back the low bits of an integer in range gives that integer. */
  lemma InterpretLow(a: int, w: nat, signed: bool)
    requires InRange(a, w, signed)
    ensures Interpret(Low(a, w), w, signed) == a
  {
    if 0 <= a {
      if signed { assert Pow2(w) == 2 * Pow2(w - 1); }
      LowSmall(a, w);
    } else {
      assert Pow2(w) == 2 * Pow2(w - 1);
      LowOfSum(a, 1, w);
      LowSmall(a + Pow2(w), w);
    }
  }

  lemma AsSignedInRange(v: nat, w: nat)
    requires v < Pow2(w) && w > 0
    ensures InRange(AsSigned(v, w), w, true)
    ensures Low(AsSigned(v, w), w) == v
  {
    assert Pow2(w) == 2 * Pow2(w - 1);
    if v >= Pow2(w - 1) {
      LowOfSum(v - Pow2(w), 1, w);
    }
    LowSmall(v, w);
  }

  /** What is left of a above its low k bits. */
  function High(a: nat, k: nat): nat {
    QuotientNonNegative(a, Pow2(k));
    a / Pow2(k)
  }

  lemma QuotientNonNegative(a: nat, m: int)
    requires m > 0
    ensures a / m >= 0
  {
  }

  lemma DivideTwice(x: nat, p: nat, q: nat)
    requires p > 0 && q > 0
    ensures p * q > 0 && x / p / q == x / (p * q) && ((x / p) % q) * p + x % p == x % (p * q)
  {
    var y, r := x / p, x % p;
    var z, s := y / q, y % q;
    AtLeastOnce(q, p);
    assert x == y * p + r && y == z * q + s;
    Distribute(z * q, s, p);
    assert (z * q) * p == z * (p * q);
    ScaledSum(s, q, p, r);
    RemainderUnique(x, p * q, z, s * p + r);
  }

  lemma ScaledSum(s: nat, q: nat, p: nat, r: nat)
    requires s < q && r < p
    ensures 0 <= s * p + r < p * q
  {
    Distribute(q - s, s, p);
    AtLeastOnce(q - s, p);
    assert s * p >= 0;
  }

  lemma HighHigh(x: nat, a: nat, b: nat)
    ensures High(High(x, a), b) == High(x, a + b)
    ensures Low(High(x, a), b) * Pow2(a) + Low(x, a) == Low(x, a + b)
  {
    Pow2Add(a, b);
    DivideTwice(x, Pow2(a), Pow2(b));
  }

  lemma HighOfLow(x: nat, n: nat, w: nat)
    requires w <= n
    ensures High(Low(x, n), w) == Low(High(x, w), n - w)
  {
    HighHigh(x, w, n - w);
    RemainderUnique(Low(x, n), Pow2(w), Low(High(x, w), n - w), Low(x, w));
  }
}
