/** Machine words as numbers: bits and reduction to a width. */
module MachineWords {
  import opened Powers

  type Byte = x: int | 0 <= x < 256

  /** The width of `size_t`. */
  type Width = w: int | w == 32 || w == 64 witness 32

  lemma Pow2Seven(n: nat)
    ensures Pow2(n + 7) == 128 * Pow2(n)
  {
    Pow2Sum(7, n);
    assert Pow2(7) == 128 by { assert Pow2(4) == 16; }
  }

  /** The C operator `|` on the bits of two numbers. */
  function BitOr(a: nat, b: nat): nat
    decreases a + b
  {
    if a == 0 && b == 0 then 0
    else 2 * BitOr(a / 2, b / 2) + if a % 2 == 1 || b % 2 == 1 then 1 else 0
  }

  lemma OrZero(b: nat)
    ensures BitOr(0, b) == b && BitOr(b, 0) == b
  {
  }

  /** Numbers without a common bit are added by `|`. */
  lemma {:induction false} DisjointOr(a: nat, b: nat, n: nat)
    requires a < Pow2(n)
    ensures BitOr(a, b * Pow2(n)) == a + b * Pow2(n)
    decreases n
  {
    if n == 0 {
      OrZero(b);
    } else {
      var p := Pow2(n - 1);
      assert b * Pow2(n) == 2 * (b * p);
      DisjointOr(a / 2, b, n - 1);
    }
  }

  /** A number as a word of `w` bits. */
  function Wrap(v: int, w: nat): (r: nat)
    ensures r < Pow2(w)
  {
    v % Pow2(w)
  }

  lemma ModUnique(v: int, r: int, q: int, m: int)
    requires m > 0 && 0 <= r < m && v == r + q * m
    ensures v % m == r
  {
    var d := v / m - q;
    assert v % m - r == -(d * m) by {
      assert v == m * (v / m) + v % m;
      assert d * m == (v / m) * m - q * m;
    }
    assert d >= 1 ==> d * m >= m;
    assert d <= -1 ==> d * m <= -m;
  }

  lemma WrapUnique(v: int, r: int, q: int, w: nat)
    requires 0 <= r < Pow2(w) && v == r + q * Pow2(w)
    ensures Wrap(v, w) == r
  {
    ModUnique(v, r, q, Pow2(w));
  }

  lemma Distribute(a: int, b: int, p: int)
    ensures (a + b) * p == a * p + b * p && (a - b) * p == a * p - b * p
  {
  }

  lemma Associate(a: int, b: int, p: int)
    ensures (a * b) * p == a * (b * p)
  {
  }

  lemma ScaleLess(a: nat, b: nat, p: nat, q: nat)
    requires a < p && b < q
    ensures 0 <= a + b * p < q * p
  {
    assert b * p <= (q - 1) * p;
    Distribute(q, 1, p);
  }

  /** A value below the width is its own word. */
  lemma Within(value: nat, shift: nat, w: nat)
    requires value < Pow2(shift) && shift <= w
    ensures Wrap(value, w) == value
  {
    hide Pow2;
    Pow2Sum(w - shift, shift);
    ScaleLess(value, 0, Pow2(shift), Pow2(w - shift));
    WrapUnique(value, value, 0, w);
  }

  // ---------------------------------------------------------------- bits of numbers

  /** The C operator `&` on the bits of two numbers, ... */
  function BitAnd(a: nat, b: nat): (r: nat)
    ensures r <= a && r <= b
    decreases a
  {
    if a == 0 then 0 else 2 * BitAnd(a / 2, b / 2) + if a % 2 == 1 && b % 2 == 1 then 1 else 0
  }

  /** ... and the operator `^`. */
  function BitXor(a: nat, b: nat): nat
    decreases a + b
  {
    if a == 0 && b == 0 then 0 else 2 * BitXor(a / 2, b / 2) + if a % 2 != b % 2 then 1 else 0
  }

  predicate Bit(a: nat, n: nat) {
    if n == 0 then a % 2 == 1 else Bit(a / 2, n - 1)
  }

  /** Bit `n` has the weight 2^n. */
  lemma {:induction false} BitExact(a: nat, n: nat)
    ensures Bit(a, n) <==> a / Pow2(n) % 2 == 1
  {
    if n > 0 {
      BitExact(a / 2, n - 1);
      Halves(a, Pow2(n - 1));
    }
  }

  lemma Halves(a: nat, p: nat)
    requires p > 0
    ensures a / 2 / p == a / (2 * p)
  {
    var q := a / (2 * p);
    assert a == 2 * p * q + a % (2 * p);
    var r := a % (2 * p);
    assert a / 2 == p * q + r / 2 && r / 2 < p;
    DivUnique(a / 2, p, q, r / 2);
  }

  lemma DivUnique(a: nat, p: nat, q: nat, r: nat)
    requires p > 0 && a == p * q + r && r < p
    ensures a / p == q && a % p == r
  {
    assert a == r + q * p;
    ModUnique(a, r, q, p);
    assert p * (a / p) == p * q;
    Cancel(p, a / p, q);
  }

  lemma Cancel(p: nat, x: int, y: int)
    requires p > 0 && p * x == p * y
    ensures x == y
  {
    assert x > y ==> p * x >= p * (y + 1) == p * y + p;
    assert x < y ==> p * y >= p * (x + 1) == p * x + p;
  }

  /** Bit by bit the operators are conjunction, inclusive and exclusive disjunction. */
  lemma {:induction false} BitsOf(a: nat, b: nat, n: nat)
    ensures Bit(BitAnd(a, b), n) <==> Bit(a, n) && Bit(b, n)
    ensures Bit(BitOr(a, b), n) <==> Bit(a, n) || Bit(b, n)
    ensures Bit(BitXor(a, b), n) <==> Bit(a, n) != Bit(b, n)
  {
    BitStep(a, b);
    hide BitAnd, BitOr, BitXor;
    if n > 0 {
      BitsOf(a / 2, b / 2, n - 1);
    }
  }

  /** Both operators work on the low `n` bits and on the rest separately. */
  lemma {:induction false} Apart(a: nat, x: nat, b: nat, y: nat, n: nat)
    requires a < Pow2(n) && b < Pow2(n)
    ensures BitXor(a + Pow2(n) * x, b + Pow2(n) * y) == BitXor(a, b) + Pow2(n) * BitXor(x, y)
    ensures BitAnd(a + Pow2(n) * x, b + Pow2(n) * y) == BitAnd(a, b) + Pow2(n) * BitAnd(x, y)
    ensures BitXor(a, b) < Pow2(n) && BitAnd(a, b) < Pow2(n)
  {
    hide BitXor, BitAnd, Pow2;
    PowSteps(n);
    if n == 0 {
      SameBits(0);
    } else {
      Apart(a / 2, x, b / 2, y, n - 1);
      Doubled(a, x, n);
      Doubled(b, y, n);
      BitStep(a + Pow2(n) * x, b + Pow2(n) * y);
      BitStep(a, b);
      Associate(2, Pow2(n - 1), BitXor(x, y));
      Associate(2, Pow2(n - 1), BitAnd(x, y));
    }
  }

  lemma PowSteps(n: nat)
    ensures Pow2(n) == if n == 0 then 1 else 2 * Pow2(n - 1)
  {
  }

  lemma BitStep(a: nat, b: nat)
    ensures BitXor(a, b) == 2 * BitXor(a / 2, b / 2) + if a % 2 != b % 2 then 1 else 0
    ensures BitAnd(a, b) == 2 * BitAnd(a / 2, b / 2) + if a % 2 == 1 && b % 2 == 1 then 1 else 0
    ensures BitOr(a, b) == 2 * BitOr(a / 2, b / 2) + if a % 2 == 1 || b % 2 == 1 then 1 else 0
  {
  }

  lemma Doubled(a: nat, x: nat, n: nat)
    requires n > 0
    ensures (a + Pow2(n) * x) / 2 == a / 2 + Pow2(n - 1) * x && (a + Pow2(n) * x) % 2 == a % 2
  {
    Associate(2, Pow2(n - 1), x);
  }

  lemma {:induction false} AllOnes(a: nat, n: nat)
    requires a < Pow2(n)
    ensures BitAnd(a, Pow2(n) - 1) == a
  {
    if n > 0 {
      AllOnes(a / 2, n - 1);
      assert (Pow2(n) - 1) / 2 == Pow2(n - 1) - 1;
    }
  }

  lemma {:induction false} SameBits(a: nat)
    ensures BitXor(a, a) == 0 && BitXor(a, 0) == a && BitXor(0, a) == a && BitAnd(a, 0) == 0 && BitAnd(0, a) == 0
  {
    if a > 0 {
      SameBits(a / 2);
    }
  }

  lemma {:induction false} Complement(a: nat, n: nat)
    requires a < Pow2(n)
    ensures BitAnd(a, Pow2(n) - 1 - a) == 0
  {
    if n > 0 {
      Complement(a / 2, n - 1);
      assert (Pow2(n) - 1 - a) / 2 == Pow2(n - 1) - 1 - a / 2;
    }
  }

  /** A mask of one bit tests that bit. */
  lemma {:induction false} OneBitMask(a: nat, n: nat)
    ensures BitAnd(a, Pow2(n)) != 0 <==> Bit(a, n)
    decreases n
  {
    if n == 0 {
      SameBits(a / 2);
      BitStep(a, 1);
    } else {
      OneBitMask(a / 2, n - 1);
      BitStep(a, Pow2(n));
    }
  }
}
