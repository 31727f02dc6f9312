// Machine words as natural numbers.  The bitwise operators of the source are
// defined bit by bit, and each lemma says what one of its idioms computes in
// ordinary arithmetic.
module Bits {

  const W64: nat := 0x1_0000_0000_0000_0000

  type u64 = x: nat | x < 0x1_0000_0000_0000_0000

  type byte = x: nat | x < 256

  function Pow2(e: nat): (p: nat)
    ensures p >= 1
  {
    if e == 0 then 1 else 2 * Pow2(e - 1)
  }

  function And(x: nat, y: nat): nat {
    if x == 0 || y == 0 then 0
    else (if x % 2 == 1 && y % 2 == 1 then 1 else 0) + 2 * And(x / 2, y / 2)
  }

  function Or(x: nat, y: nat): nat
    decreases x + y
  {
    if x == 0 then y else if y == 0 then x
    else (if x % 2 == 1 || y % 2 == 1 then 1 else 0) + 2 * Or(x / 2, y / 2)
  }

  /** The k-th bit. */
  predicate Bit(x: nat, k: nat) { if k == 0 then x % 2 == 1 else Bit(x / 2, k - 1) }

  /** A bit is set in the conjunction exactly if it is set in both, and in the disjunction if in either. */
  lemma {:induction false} AndOrAreBitwise(x: nat, y: nat, k: nat)
    ensures Bit(And(x, y), k) <==> Bit(x, k) && Bit(y, k)
    ensures Bit(Or(x, y), k) <==> Bit(x, k) || Bit(y, k)
  {
    NoBit(k);
    if k > 0 && x > 0 && y > 0 {
      assert And(x, y) / 2 == And(x / 2, y / 2) && Or(x, y) / 2 == Or(x / 2, y / 2);
      AndOrAreBitwise(x / 2, y / 2, k - 1);
    }
  }

  lemma {:induction false} NoBit(k: nat)
    ensures !Bit(0, k)
  {
    if k > 0 { NoBit(k - 1); }
  }

  function Not(x: u64): u64 { W64 - 1 - x }

  /** 64-bit arithmetic wraps around. */
  function Wrap(x: nat): u64 {
    if x < W64 then x else Wrap(x - W64)
  }

  function Neg(x: u64): u64 { Wrap(W64 - x) }

  /** The value of the least significant set bit. */
  function Lsb(n: nat): (b: nat)
    requires n > 0
    ensures 1 <= b <= n
  {
    if n % 2 == 1 then 1 else 2 * Lsb(n / 2)
  }

  /** Number of zero bits below the least significant set bit. */
  function TrailingZeros(n: nat): nat
    requires n > 0
  {
    if n % 2 == 1 then 0 else 1 + TrailingZeros(n / 2)
  }

  function Log2(n: nat): nat
    requires n > 0
  {
    if n == 1 then 0 else 1 + Log2(n / 2)
  }

  function PopCount(n: nat): nat {
    if n == 0 then 0 else n % 2 + PopCount(n / 2)
  }

  /** a shifted left by e bits. */
  function Shl(a: nat, e: nat): (s: nat)
    ensures s == 0 <==> a == 0
  {
    if e == 0 then a else 2 * Shl(a, e - 1)
  }

  // ----- powers of two and their multiples -----

  lemma Pow2Byte(e: nat)
    ensures Pow2(e + 8) == 256 * Pow2(e)
  {
    assert Pow2(e + 2) == 4 * Pow2(e);
    assert Pow2(e + 4) == 4 * Pow2(e + 2);
    assert Pow2(e + 6) == 4 * Pow2(e + 4);
  }

  lemma Pow2Word()
    ensures Pow2(64) == W64
    ensures Pow2(63) == 0x8000_0000_0000_0000
    ensures Pow2(62) == 0x4000_0000_0000_0000
  {
    Pow2Byte(0);
    Pow2Byte(8);
    Pow2Byte(16);
    Pow2Byte(24);
    Pow2Byte(32);
    Pow2Byte(40);
    Pow2Byte(48);
    Pow2Byte(56);
  }

  lemma {:induction false} Pow2Monotone(a: nat, b: nat)
    ensures a <= b ==> Pow2(a) <= Pow2(b)
    ensures a < b ==> 2 * Pow2(a) <= Pow2(b)
  {
    if a < b {
      Pow2Monotone(a, b - 1);
    }
  }

  lemma {:induction false} Log2Bounds(n: nat)
    requires n > 0
    ensures Pow2(Log2(n)) <= n < 2 * Pow2(Log2(n))
  {
    if n > 1 {
      Log2Bounds(n / 2);
    }
  }

  lemma {:induction false} ShlNext(a: nat, e: nat)
    ensures Shl(a + 1, e) == Shl(a, e) + Pow2(e)
  {
    if e > 0 {
      ShlNext(a, e - 1);
    }
  }

  lemma {:induction false} ShlDouble(a: nat, e: nat)
    ensures Shl(2 * a, e) == 2 * Shl(a, e) == Shl(a, e + 1)
  {
    if e > 0 {
      ShlDouble(a, e - 1);
    }
  }

  lemma {:induction false} ShlShl(a: nat, d: nat, e: nat)
    ensures Shl(Shl(a, d), e) == Shl(a, d + e)
  {
    if e > 0 {
      ShlShl(a, d, e - 1);
    }
  }

  lemma {:induction false} ShlOrder(a: nat, b: nat, e: nat)
    ensures a <= b ==> Shl(a, e) <= Shl(b, e)
    ensures a < b ==> Shl(a, e) + Pow2(e) <= Shl(b, e)
  {
    if e > 0 {
      ShlOrder(a, b, e - 1);
    }
  }

  lemma {:induction false} ShlUnique(q: nat, r: nat, d: nat, s: nat, e: nat)
    requires r < Pow2(e) && s < Pow2(e) && Shl(q, e) + r == Shl(d, e) + s
    ensures q == d && r == s
  {
    ShlOrder(q, d, e);
    ShlOrder(d, q, e);
  }

  lemma NoRemainder(q: nat, m: nat, r: nat, f: nat, e: nat)
    requires m <= e && r < Pow2(m) && Shl(q, m) + r == Shl(f, e)
    ensures r == 0
  {
    ShlShl(f, e - m, m);
    ShlUnique(q, r, Shl(f, e - m), 0, m);
  }

  lemma {:induction false} ShlSplit(n: nat, e: nat) returns (q: nat, r: nat)
    ensures n == Shl(q, e) + r && r < Pow2(e)
  {
    if e == 0 {
      q, r := n, 0;
    } else {
      q, r := ShlSplit(n / 2, e - 1);
      r := 2 * r + n % 2;
    }
  }

  // ----- the least significant bit -----

  lemma {:induction false} LsbDecompose(n: nat) returns (q: nat)
    requires n > 0
    ensures Lsb(n) == Pow2(TrailingZeros(n))
    ensures n == Shl(2 * q + 1, TrailingZeros(n))
  {
    if n % 2 == 1 {
      q := n / 2;
    } else {
      q := LsbDecompose(n / 2);
    }
  }

  lemma {:induction false} LsbScale(q: nat, e: nat)
    requires q > 0
    ensures Shl(q, e) > 0 && Lsb(Shl(q, e)) == Shl(Lsb(q), e) >= Pow2(e)
    ensures TrailingZeros(Shl(q, e)) == TrailingZeros(q) + e
  {
    if e > 0 {
      LsbScale(q, e - 1);
    }
  }

  /** Strictly between two multiples of 2^e, the low bits alone decide the LSB. */
  lemma {:induction false} LsbBetween(q: nat, e: nat, r: nat)
    requires 0 < r < Pow2(e)
    ensures Lsb(Shl(q, e) + r) == Lsb(r)
    ensures 2 * Lsb(r) <= Pow2(e) && r + Lsb(r) <= Pow2(e)
  {
    if r % 2 == 0 {
      LsbBetween(q, e - 1, r / 2);
    }
  }

  // ----- idioms of the source -----

  lemma {:induction false} AndComplement(w: nat, x: nat)
    requires x < Pow2(w)
    ensures And(x, Pow2(w) - 1 - x) == 0
  {
    if x > 0 && Pow2(w) - 1 - x > 0 {
      var y := Pow2(w) - 1 - x;
      assert y / 2 == Pow2(w - 1) - 1 - x / 2;
      assert x % 2 + y % 2 == 1;
      AndComplement(w - 1, x / 2);
    }
  }

  lemma {:induction false} AndNegWidth(w: nat, n: nat)
    requires 0 < n < Pow2(w)
    ensures And(n, Pow2(w) - n) == Lsb(n)
  {
    var y, h := Pow2(w) - n, Pow2(w - 1);
    if n % 2 == 1 {
      assert y % 2 == 1 && y / 2 == h - 1 - n / 2;
      AndComplement(w - 1, n / 2);
      assert And(n, y) == 1 + 2 * And(n / 2, y / 2);
    } else {
      assert y % 2 == 0 && y / 2 == h - n / 2;
      AndNegWidth(w - 1, n / 2);
      assert And(n, y) == 2 * And(n / 2, y / 2);
    }
  }

  /** node & -node is the least significant bit, and 0 for node 0. */
  lemma AndNegIsLsb(n: u64)
    ensures And(n, Neg(n)) == if n == 0 then 0 else Lsb(n)
  {
    if n > 0 {
      Pow2Word();
      AndNegWidth(64, n);
    }
  }

  /** & with 2^e - 1 keeps the low e bits. */
  lemma {:induction false} AndLow(e: nat, a: nat, b: nat)
    requires b < Pow2(e)
    ensures And(Shl(a, e) + b, Pow2(e) - 1) == b
  {
    if e > 0 {
      var x, m := Shl(a, e) + b, Pow2(e) - 1;
      assert x / 2 == Shl(a, e - 1) + b / 2 && x % 2 == b % 2;
      assert m / 2 == Pow2(e - 1) - 1 && m % 2 == 1;
      AndLow(e - 1, a, b / 2);
    }
  }

  lemma {:induction false} AndOnes(w: nat, x: nat)
    requires x < Pow2(w)
    ensures And(x, Pow2(w) - 1) == x
  {
    if x > 0 {
      var m := Pow2(w) - 1;
      assert m / 2 == Pow2(w - 1) - 1 && m % 2 == 1;
      AndOnes(w - 1, x / 2);
    }
  }

  /** & with ~(2^e - 1), in w-bit words, clears the low e bits. */
  lemma {:induction false} AndHigh(e: nat, w: nat, a: nat, b: nat)
    requires b < Pow2(e) && e <= w
    requires Shl(a, e) + b < Pow2(w)
    ensures Pow2(e) <= Pow2(w) && And(Shl(a, e) + b, Pow2(w) - Pow2(e)) == Shl(a, e)
    decreases w
  {
    hide And;
    Pow2Monotone(e, w);
    var x, m := Shl(a, e) + b, Pow2(w) - Pow2(e);
    if e == 0 {
      AndOnes(w, x);
    } else {
      assert x / 2 == Shl(a, e - 1) + b / 2;
      assert m / 2 == Pow2(w - 1) - Pow2(e - 1) && m % 2 == 0;
      AndHigh(e - 1, w - 1, a, b / 2);
      AndEven(x, m);
    }
  }

  lemma AndEven(x: nat, m: nat)
    requires m % 2 == 0
    ensures And(x, m) == 2 * And(x / 2, m / 2)
  {
  }

  /** mask | (mask << 1) grows a run of low ones by one bit. */
  lemma OrShift(e: nat)
    requires e >= 1
    ensures Or(Pow2(e) - 1, 2 * (Pow2(e) - 1)) == Pow2(e + 1) - 1
  {
    var m := Pow2(e) - 1;
    assert m / 2 == Pow2(e - 1) - 1 && m % 2 == 1;
    assert Or(m, 2 * m) == 1 + 2 * Or(m / 2, m);
    OrOnes(e - 1);
  }

  lemma GrowMask(e: nat, mask: u64)
    requires 1 <= e < 63 && mask == Pow2(e) - 1
    ensures Or(mask, Wrap(mask * 2)) == Pow2(e + 1) - 1
  {
    assert 2 * mask < W64 by { Pow2Word(); Pow2Monotone(e, 62); }
    OrShift(e);
  }

  lemma {:induction false} OrOnes(e: nat)
    ensures Or(Pow2(e) - 1, Pow2(e + 1) - 1) == Pow2(e + 1) - 1
  {
    if e > 0 {
      OrOnes(e - 1);
      var x, y := Pow2(e) - 1, Pow2(e + 1) - 1;
      assert x / 2 == Pow2(e - 1) - 1 && x % 2 == 1;
      assert y / 2 == Pow2(e) - 1 && y % 2 == 1;
    }
  }
}
