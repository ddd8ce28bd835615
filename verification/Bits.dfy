/** Powers of two and the bitwise operators of the kernel's unsigned words, on natural numbers.
    `Bit(x, i)` is the meaning of bit `i`; every operator is characterised through it. */
module Bits {

  /** The number of 32-bit words. */
  const WORD: nat := 0x1_0000_0000

  function Min(a: nat, b: nat): nat { if a < b then a else b }
  function Max(a: nat, b: nat): nat { if a < b then b else a }

  function Pow2(n: nat): (r: nat)
    ensures r >= 1
  {
    if n == 0 then 1 else 2 * Pow2(n - 1)
  }

  predicate Bit(x: nat, i: nat) {
    if i == 0 then x % 2 == 1 else Bit(x / 2, i - 1)
  }

  /** The C operator `x >> t`. */
  function Shr(x: nat, t: nat): nat
    decreases t
  {
    if t == 0 then x else Shr(x / 2, t - 1)
  }

  lemma {:induction false} ShrBit(x: nat, t: nat, i: nat)
    ensures Bit(Shr(x, t), i) <==> Bit(x, i + t)
    decreases t
  {
    if t > 0 { ShrBit(x / 2, t - 1, i); }
  }

  lemma {:induction false} ShrBound(x: nat, t: nat)
    ensures Shr(x, t) <= x
    decreases t
  {
    if t > 0 { ShrBound(x / 2, t - 1); }
  }

  /** The C operator `x | y`. */
  function Or(x: nat, y: nat): nat {
    if x == 0 then y else
      2 * Or(x / 2, y / 2) + (if x % 2 == 1 || y % 2 == 1 then 1 else 0)
  }

  /** The C operator `x & ~y`. */
  function AndNot(x: nat, y: nat): nat {
    if x == 0 then 0 else
      2 * AndNot(x / 2, y / 2) + (if x % 2 == 1 && y % 2 == 0 then 1 else 0)
  }

  /** The C operator `x ^ y`. */
  function Xor(x: nat, y: nat): nat
    decreases x + y
  {
    if x == 0 then y else
      2 * Xor(x / 2, y / 2) + (if x % 2 != y % 2 then 1 else 0)
  }

  function PopCount(x: nat): nat {
    if x == 0 then 0 else PopCount(x / 2) + x % 2
  }

  lemma {:induction false} ZeroBit(i: nat)
    ensures !Bit(0, i)
  {
    if i > 0 { ZeroBit(i - 1); }
  }

  lemma ByteOnes(j: nat)
    requires j < 8
    ensures Bit(0xFF, j)
  {
    assert j == 0 || j == 1 || j == 2 || j == 3 || j == 4 || j == 5 || j == 6 || j == 7;
  }

  lemma {:induction false} OrBit(x: nat, y: nat, i: nat)
    ensures Bit(Or(x, y), i) <==> Bit(x, i) || Bit(y, i)
  {
    if x == 0 {
      ZeroBit(i);
    } else if i > 0 {
      OrBit(x / 2, y / 2, i - 1);
    }
  }

  lemma {:induction false} AndNotBit(x: nat, y: nat, i: nat)
    ensures Bit(AndNot(x, y), i) <==> Bit(x, i) && !Bit(y, i)
  {
    if x == 0 {
      ZeroBit(i);
    } else if i > 0 {
      AndNotBit(x / 2, y / 2, i - 1);
    }
  }

  lemma {:induction false} XorBit(x: nat, y: nat, i: nat)
    ensures Bit(Xor(x, y), i) <==> Bit(x, i) != Bit(y, i)
    decreases i
  {
    if x == 0 {
      ZeroBit(i);
    } else if i > 0 {
      XorBit(x / 2, y / 2, i - 1);
    }
  }

  /** `1 << s` has exactly bit `s`. */
  lemma {:induction false} ShiftBit(s: nat, i: nat)
    ensures Bit(Pow2(s), i) <==> i == s
  {
    if s == 0 {
      if i > 0 { ZeroBit(i - 1); }
    } else if i > 0 {
      ShiftBit(s - 1, i - 1);
    }
  }

  /** A word is determined by its bits. */
  lemma {:induction false} BitsDetermine(x: nat, y: nat)
    requires forall i: nat :: Bit(x, i) == Bit(y, i)
    ensures x == y
    decreases x + y
  {
    assert Bit(x, 0) == Bit(y, 0);
    if x + y > 0 {
      forall i: nat ensures Bit(x / 2, i) == Bit(y / 2, i) {
        assert Bit(x, i + 1) == Bit(y, i + 1);
      }
      BitsDetermine(x / 2, y / 2);
    }
  }

  /** Truncation to `w` bits keeps exactly the bits below `w`. */
  lemma {:induction false} TruncateBit(x: nat, w: nat, i: nat)
    ensures Bit(x % Pow2(w), i) <==> i < w && Bit(x, i)
    decreases w
  {
    if w == 0 {
      ZeroBit(i);
    } else {
      HalfOfMod(x, w);
      if i > 0 { TruncateBit(x / 2, w - 1, i - 1); }
    }
  }

  lemma HalfOfMod(x: nat, w: nat)
    requires w > 0
    ensures (x % Pow2(w)) / 2 == (x / 2) % Pow2(w - 1)
    ensures (x % Pow2(w)) % 2 == x % 2
  {
    var p := Pow2(w - 1);
    var q, r := (x / 2) / p, (x / 2) % p;
    assert x == q * (2 * p) + (2 * r + x % 2) by {
      assert x / 2 == q * p + r;
      assert (q * p + r) * 2 == q * (2 * p) + 2 * r;
    }
    ModUnique(x, 2 * p, q, 2 * r + x % 2);
  }

  lemma ModUnique(x: int, d: int, q: int, r: int)
    requires 0 <= r < d && x == q * d + r
    ensures x / d == q && x % d == r
  {
    var e := x / d - q;
    assert x % d == x - (x / d) * d;
    assert r - x % d == e * d by { assert (x / d) * d == e * d + q * d; }
    MulAtLeast(e, d);
  }

  lemma MulAtLeast(e: int, d: int)
    requires d > 0
    ensures e >= 1 ==> e * d >= d
    ensures e <= -1 ==> e * d <= -d
  {
    if e >= 1 {
      assert e * d == (e - 1) * d + d;
    } else {
      assert e * d == (e + 1) * d - d;
    }
  }

  lemma {:induction false} BitBound(x: nat, w: nat, i: nat)
    requires x < Pow2(w) && w <= i
    ensures !Bit(x, i)
  {
    if w == 0 {
      ZeroBit(i);
    } else {
      BitBound(x / 2, w - 1, i - 1);
    }
  }

  lemma {:induction false} OrBound(x: nat, y: nat, w: nat)
    requires x < Pow2(w) && y < Pow2(w)
    ensures Or(x, y) < Pow2(w)
    decreases w
  {
    if x != 0 && w > 0 { OrBound(x / 2, y / 2, w - 1); }
  }

  lemma {:induction false} AndNotBound(x: nat, y: nat)
    ensures AndNot(x, y) <= x
  {
    if x != 0 { AndNotBound(x / 2, y / 2); }
  }

  lemma {:induction false} XorBound(x: nat, y: nat, w: nat)
    requires x < Pow2(w) && y < Pow2(w)
    ensures Xor(x, y) < Pow2(w)
    decreases w
  {
    if x != 0 && w > 0 { XorBound(x / 2, y / 2, w - 1); }
  }

  lemma PopCountDouble(h: nat, b: nat)
    requires b < 2
    ensures PopCount(2 * h + b) == PopCount(h) + b
  {
    assert (2 * h + b) / 2 == h && (2 * h + b) % 2 == b;
  }

  /** Flipping or setting bit `s` leaves the lowest digit alone, or is about it alone. */
  lemma MaskStep(x: nat, s: nat)
    requires x > 0
    ensures s > 0 ==> Xor(x, Pow2(s)) == 2 * Xor(x / 2, Pow2(s - 1)) + x % 2
    ensures s > 0 ==> Or(x, Pow2(s)) == 2 * Or(x / 2, Pow2(s - 1)) + x % 2
    ensures Xor(x, 1) == 2 * (x / 2) + (1 - x % 2) && Or(x, 1) == 2 * (x / 2) + 1
  {
    XorZero(x / 2);
    OrZero(x / 2);
  }

  /** Clearing a set bit with `^` lowers the population count by one. */
  lemma {:induction false} XorPopCount(x: nat, s: nat)
    ensures PopCount(Xor(x, Pow2(s))) == if Bit(x, s) then PopCount(x) - 1 else PopCount(x) + 1
    ensures Bit(x, s) ==> PopCount(x) >= 1
    decreases s
  {
    if x == 0 {
      ZeroBit(s);
      PopCountPow2(s);
    } else {
      MaskStep(x, s);
      if s == 0 {
        PopCountDouble(x / 2, 1 - x % 2);
      } else {
        XorPopCount(x / 2, s - 1);
        PopCountDouble(Xor(x / 2, Pow2(s - 1)), x % 2);
      }
    }
  }

  /** Setting a clear bit with `|` raises the population count by one. */
  lemma {:induction false} OrPopCount(x: nat, s: nat)
    ensures PopCount(Or(x, Pow2(s))) == if Bit(x, s) then PopCount(x) else PopCount(x) + 1
    decreases s
  {
    if x == 0 {
      ZeroBit(s);
      PopCountPow2(s);
    } else {
      MaskStep(x, s);
      if s == 0 {
        PopCountDouble(x / 2, 1);
      } else {
        OrPopCount(x / 2, s - 1);
        PopCountDouble(Or(x / 2, Pow2(s - 1)), x % 2);
      }
    }
  }

  lemma {:induction false} PopCountPow2(s: nat)
    ensures PopCount(Pow2(s)) == 1
  {
    if s > 0 { PopCountPow2(s - 1); }
  }

  lemma {:induction false} XorZero(x: nat)
    ensures Xor(x, 0) == x
  {
    if x > 0 { XorZero(x / 2); }
  }

  lemma {:induction false} OrZero(x: nat)
    ensures Or(x, 0) == x
  {
    if x > 0 { OrZero(x / 2); }
  }

  lemma {:induction false} Pow2Monotone(a: nat, b: nat)
    requires a <= b
    ensures Pow2(a) <= Pow2(b)
    ensures a < b ==> 2 * Pow2(a) <= Pow2(b)
  {
    if a < b { Pow2Monotone(a, b - 1); }
  }

  lemma {:induction false} Pow2Sum(a: nat, b: nat)
    ensures Pow2(a + b) == Pow2(a) * Pow2(b)
  {
    if b == 0 {
    } else {
      Pow2Sum(a, b - 1);
      assert 2 * (Pow2(a) * Pow2(b - 1)) == Pow2(a) * (2 * Pow2(b - 1));
    }
  }
}
