/** Bitwise operators on unbounded integers, as Python defines them: a negative number
    has infinitely many leading one bits, and a right shift is a floor division. */
module Bits {

  function Pow2(n: nat): (p: nat)
    ensures p > 0
  {
    if n == 0 then 1 else 2 * Pow2(n - 1)
  }

  /** Bit `i` of `x`. */
  predicate Bit(x: int, i: nat) {
    (x / Pow2(i)) % 2 == 1
  }

  /** `x & m`, for a mask that is not negative. */
  function And(x: int, m: nat): (r: nat)
    ensures r <= m
    ensures x >= 0 ==> r <= x
    decreases m
  {
    if m == 0 then 0
    else (if x % 2 == 1 && m % 2 == 1 then 1 else 0) + 2 * And(x / 2, m / 2)
  }

  /** `x | m` */
  function Or(x: int, m: nat): int {
    x + m - And(x, m)
  }

  /** `x & ~m` */
  function AndNot(x: int, m: nat): int {
    x - And(x, m)
  }

  lemma {:induction false} Pow2Add(m: nat, n: nat)
    ensures Pow2(m + n) == Pow2(m) * Pow2(n)
  {
    if m != 0 {
      Pow2Add(m - 1, n);
      assert Pow2(m + n) == 2 * (Pow2(m - 1) * Pow2(n));
      assert Pow2(m) * Pow2(n) == (2 * Pow2(m - 1)) * Pow2(n);
    }
  }

  lemma {:induction false} Pow2Mono(m: nat, n: nat)
    requires m <= n
    ensures Pow2(m) <= Pow2(n)
  {
    if m < n {
      Pow2Mono(m, n - 1);
    }
  }

  /** The quotient and remainder of a division are determined by the division equation. */
  lemma DivModUnique(x: int, d: int, q: int, r: int)
    requires d > 0 && x == q * d + r && 0 <= r < d
    ensures x / d == q && x % d == r
  {
    var q', r' := x / d, x % d;
    assert x == q' * d + r';
    assert (q - q') * d == r' - r;
    assert (q' - q) * d == -((q - q') * d);
    if q > q' {
      MulGe(q - q', d);
    } else if q < q' {
      MulGe(q' - q, d);
    }
  }

  lemma MulGe(k: int, d: int)
    requires k >= 1 && d >= 0
    ensures k * d >= d
  {
    assert k * d == (k - 1) * d + d;
    assert (k - 1) * d >= 0;
  }

  lemma MulLe(a: int, b: int, d: int)
    requires a <= b && d >= 0
    ensures a * d <= b * d
  {
    assert (b - a) * d >= 0;
    assert (b - a) * d == b * d - a * d;
  }

  lemma DivDiv(x: int, a: int, b: int)
    requires a > 0 && b > 0
    ensures a * b > 0
    ensures (x / a) / b == x / (a * b)
    ensures x % (a * b) == (x / a) % b * a + x % a
  {
    var q, r := x / a, x % a;
    var q2, r2 := q / b, q % b;
    assert x == (q2 * b + r2) * a + r;
    assert (q2 * b + r2) * a == q2 * (a * b) + r2 * a;
    MulLe(r2, b - 1, a);
    assert (b - 1) * a == a * b - a;
    assert a * b > 0 by { MulGe(b, a); assert b * a == a * b; }
    DivModUnique(x, a * b, q2, r2 * a + r);
  }

  lemma DivPow2(x: int, m: nat, n: nat)
    ensures (x / Pow2(m)) / Pow2(n) == x / Pow2(m + n)
    ensures x % Pow2(m + n) == (x / Pow2(m)) % Pow2(n) * Pow2(m) + x % Pow2(m)
  {
    Pow2Add(m, n);
    DivDiv(x, Pow2(m), Pow2(n));
  }

  lemma BitShift(x: int, k: nat, i: nat)
    ensures Bit(x / Pow2(k), i) == Bit(x, k + i)
  {
    DivPow2(x, k, i);
  }

  lemma BitZero(x: int)
    ensures Bit(x, 0) == (x % 2 == 1)
  {}

  /** Bit `i` of a number is bit `i - 1` of its half. */
  lemma HalfBit(x: int, i: nat)
    requires i > 0
    ensures Bit(x / 2, i - 1) == Bit(x, i)
  {
    assert Pow2(1) == 2;
    BitShift(x, 1, i - 1);
  }

  lemma {:induction false} BitOfZero(i: nat)
    ensures !Bit(0, i)
  {}

  /** And is the bit by bit conjunction. */
  lemma {:induction false} BitOfAnd(x: int, m: nat, i: nat)
    ensures Bit(And(x, m), i) == (Bit(x, i) && Bit(m, i))
    decreases i
  {
    if m == 0 {
      BitOfZero(i);
    } else {
      var b := if x % 2 == 1 && m % 2 == 1 then 1 else 0;
      DivModUnique(And(x, m), 2, And(x / 2, m / 2), b);
      if i == 0 {
        BitZero(x);
        BitZero(m);
        BitZero(And(x, m));
      } else {
        BitOfAnd(x / 2, m / 2, i - 1);
        HalfBit(x, i);
        HalfBit(m, i);
        HalfBit(And(x, m), i);
      }
    }
  }

  /** Or is the bit by bit disjunction. */
  lemma {:induction false} BitOfOr(x: int, m: nat, i: nat)
    ensures Bit(Or(x, m), i) == (Bit(x, i) || Bit(m, i))
    decreases i
  {
    OrHalves(x, m);
    if i == 0 {
      BitZero(x);
      BitZero(m);
      BitZero(Or(x, m));
    } else {
      BitOfOr(x / 2, m / 2, i - 1);
      HalfBit(x, i);
      HalfBit(m, i);
      HalfBit(Or(x, m), i);
    }
  }

  lemma OrHalves(x: int, m: nat)
    ensures Or(x, m) / 2 == Or(x / 2, m / 2) && Or(x, m) % 2 == (if x % 2 == 1 || m % 2 == 1 then 1 else 0)
  {
    DivModUnique(Or(x, m), 2, Or(x / 2, m / 2), if x % 2 == 1 || m % 2 == 1 then 1 else 0);
  }

  /** AndNot keeps the bits that the mask does not have. */
  lemma {:induction false} BitOfAndNot(x: int, m: nat, i: nat)
    ensures Bit(AndNot(x, m), i) == (Bit(x, i) && !Bit(m, i))
    decreases i
  {
    AndNotHalves(x, m);
    if i == 0 {
      BitZero(x);
      BitZero(m);
      BitZero(AndNot(x, m));
    } else {
      BitOfAndNot(x / 2, m / 2, i - 1);
      HalfBit(x, i);
      HalfBit(m, i);
      HalfBit(AndNot(x, m), i);
    }
  }

  lemma AndNotHalves(x: int, m: nat)
    ensures AndNot(x, m) / 2 == AndNot(x / 2, m / 2) && AndNot(x, m) % 2 == (if x % 2 == 1 && m % 2 == 0 then 1 else 0)
  {
    DivModUnique(AndNot(x, m), 2, AndNot(x / 2, m / 2), if x % 2 == 1 && m % 2 == 0 then 1 else 0);
  }

  /** `And` with an odd mask. */
  lemma AndOdd(x: int, half: nat)
    ensures And(x, 2 * half + 1) == x % 2 + 2 * And(x / 2, half)
  {
    DivModUnique(2 * half + 1, 2, half, 1);
  }

  lemma HalfPow2(x: int, k: nat)
    requires k > 0
    ensures Pow2(k) == 2 * Pow2(k - 1)
    ensures (x / 2) / Pow2(k - 1) == x / Pow2(k)
    ensures x % Pow2(k) == 2 * ((x / 2) % Pow2(k - 1)) + x % 2
  {
    DivDiv(x, 2, Pow2(k - 1));
  }

  lemma ByOne(x: int)
    ensures Pow2(0) == 1 && x / Pow2(0) == x && x % Pow2(0) == 0 && And(x, 0) == 0
  {}

  /** A low mask keeps the remainder. */
  lemma {:induction false} AndMask(x: int, w: nat)
    ensures And(x, Pow2(w) - 1) == x % Pow2(w)
    decreases w
  {
    hide Pow2, And;
    if w == 0 {
      ByOne(x);
    } else {
      HalfPow2(x, w);
      AndMask(x / 2, w - 1);
      AndOdd(x, Pow2(w - 1) - 1);
    }
  }

  lemma {:induction false} AndShifted(x: int, m: nat, k: nat, y: nat)
    requires y == m * Pow2(k)
    ensures And(x, y) == And(x / Pow2(k), m) * Pow2(k)
    decreases k
  {
    hide Pow2, And;
    if k == 0 {
      ByOne(x);
    } else {
      HalfPow2(x, k);
      MulTwo(m, Pow2(k - 1));
      MulTwo(And(x / Pow2(k), m), Pow2(k - 1));
      AndEven(x, m * Pow2(k - 1));
      AndShifted(x / 2, m, k - 1, m * Pow2(k - 1));
    }
  }

  lemma MulTwo(m: nat, p: nat)
    ensures m * p >= 0 && m * (2 * p) == 2 * (m * p)
  {}

  lemma AndEven(x: int, half: nat)
    ensures And(x, 2 * half) == 2 * And(x / 2, half)
  {
    DivModUnique(2 * half, 2, half, 0);
  }

  /** The field of width `w` at bit `k`, still in place. */
  lemma AndField(x: int, w: nat, k: nat)
    ensures (Pow2(w) - 1) * Pow2(k) >= 0
    ensures And(x, (Pow2(w) - 1) * Pow2(k)) == (x / Pow2(k)) % Pow2(w) * Pow2(k)
  {
    AndShifted(x, Pow2(w) - 1, k, (Pow2(w) - 1) * Pow2(k));
    AndMask(x / Pow2(k), w);
  }

  /** Parts that do not overlap: the low `k` bits of `x` are clear and `y` has only those. */
  lemma {:induction false} AndDisjoint(x: int, y: nat, k: nat)
    requires x % Pow2(k) == 0 && y < Pow2(k)
    ensures And(x, y) == 0
    decreases k
  {
    if k > 0 {
      DivDiv(x, 2, Pow2(k - 1));
      assert 2 * Pow2(k - 1) == Pow2(k);
      var r := (x / 2) % Pow2(k - 1);
      assert 0 == r * 2 + x % 2;
      AndDisjoint(x / 2, y / 2, k - 1);
    }
  }

  lemma {:induction false} AndComm(x: nat, m: nat)
    ensures And(x, m) == And(m, x)
    decreases m
  {
    if m == 0 {
      AndZero(x);
    } else if x > 0 {
      AndComm(x / 2, m / 2);
    }
  }

  lemma {:induction false} AndZero(m: nat)
    ensures And(0, m) == 0
  {
    if m != 0 {
      AndZero(m / 2);
    }
  }

  lemma {:induction false} AndSelf(x: nat)
    ensures And(x, x) == x
  {
    if x > 0 {
      AndSelf(x / 2);
    }
  }

  /** `low | (high << k)` puts a low part under a high one. */
  lemma OrHighLow(low: nat, high: nat, k: nat)
    requires low < Pow2(k)
    ensures high * Pow2(k) >= 0
    ensures Or(low, high * Pow2(k)) == low + high * Pow2(k)
  {
    hide Pow2, And;
    MulLe(0, high, Pow2(k));
    DivModUnique(high * Pow2(k), Pow2(k), high, 0);
    AndDisjoint(high * Pow2(k), low, k);
    AndComm(low, high * Pow2(k));
  }

  lemma {:induction false} BitBeyond(x: nat, w: nat, i: nat)
    requires x < Pow2(w) && w <= i
    ensures !Bit(x, i)
  {
    Pow2Mono(w, i);
    DivModUnique(x, Pow2(i), 0, x);
  }

  /** Two numbers below 2^w with the same bits are equal. */
  lemma {:induction false} Extensional(x: nat, y: nat, w: nat)
    requires x < Pow2(w) && y < Pow2(w)
    requires forall i :: 0 <= i < w ==> Bit(x, i) == Bit(y, i)
    ensures x == y
  {
    if w > 0 {
      assert Bit(x, 0) == Bit(y, 0);
      assert Pow2(1) == 2;
      forall i | 0 <= i < w - 1 ensures Bit(x / 2, i) == Bit(y / 2, i) {
        BitShift(x, 1, i);
        BitShift(y, 1, i);
        assert Bit(x, i + 1) == Bit(y, i + 1);
      }
      Extensional(x / 2, y / 2, w - 1);
    }
  }

  lemma BitOfMod(x: int, w: nat, i: nat)
    ensures Bit(x % Pow2(w), i) == (i < w && Bit(x, i))
  {
    if i < w {
      DivPow2(x, i, w - i);
      var q := x / Pow2(i);
      // x % 2^w == (q % 2^(w-i)) * 2^i + x % 2^i
      DivModUnique(x % Pow2(w), Pow2(i), q % Pow2(w - i), x % Pow2(i));
      DivDiv(q, 2, Pow2(w - i - 1));
      DivModUnique(q % Pow2(w - i), 2, (q / 2) % Pow2(w - i - 1), q % 2);
    } else {
      BitBeyond(x % Pow2(w), w, i);
    }
  }

  /** Clearing the low bits changes nothing above them. */
  lemma ClearLowBits(x: int, n: nat)
    ensures AndNot(x, Pow2(n) - 1) / Pow2(n) == x / Pow2(n)
  {
    AndMask(x, n);
    DivCleared(x, Pow2(n));
  }

  lemma DivCleared(x: int, p: nat)
    requires p > 0
    ensures (x - x % p) / p == x / p
  {
    var q, r := x / p, x % p;
    assert x == q * p + r;
    DivModUnique(x - r, p, q, 0);
  }
}
