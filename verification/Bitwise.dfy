/** Exclusive or of bytes. */
module Bitwise {
  import opened Arithmetic
  import opened Bytes

  /** Exclusive or of the `n` low bits. */
  function XorBits(a: nat, b: nat, n: nat): (r: nat)
    ensures r < Pow2(n)
  {
    if n == 0 then 0 else 2 * XorBits(a / 2, b / 2, n - 1) + (a + b) % 2
  }

  lemma {:induction false} XorBitsTwice(a: nat, b: nat, n: nat)
    requires a < Pow2(n)
    ensures XorBits(XorBits(a, b, n), b, n) == a
  {
    hide XorBits;
    XorStep(a, b, n);
    var y := XorBits(a, b, n);
    XorStep(y, b, n);
    if n > 0 {
      XorBitsTwice(a / 2, b / 2, n - 1);
      assert y / 2 == XorBits(a / 2, b / 2, n - 1) && y % 2 == (a + b) % 2;
      assert (y + b) % 2 == a % 2;
    }
  }

  lemma {:induction false} XorStep(a: nat, b: nat, n: nat)
    ensures XorBits(a, b, n) == if n == 0 then 0 else 2 * XorBits(a / 2, b / 2, n - 1) + (a + b) % 2
  {
  }

  lemma {:induction false} Width()
    ensures Pow2(8) == 256
  {
    assert Pow2(2) == 4 && Pow2(4) == 16 && Pow2(6) == 64;
  }

  function Xor(a: byte, b: byte): (r: byte)
  {
    Width();
    XorBits(a as int, b as int, 8) as byte
  }

  /** Bit `k` of a number. */
  function Bit(a: nat, k: nat): (b: nat)
    ensures b < 2
  {
    a / Pow2(k) % 2
  }

  lemma {:induction false} BitStep(a: nat, k: nat)
    ensures Bit(a, 0) == a % 2 && Bit(a, k + 1) == Bit(a / 2, k)
  {
    hide Pow2;
    Pow2Step(k);
    One();
    Halves(a, Pow2(k));
    Quotient(a, 1, a, 0);
  }

  lemma {:induction false} One()
    ensures Pow2(0) == 1
  {
  }

  /** Dropping low bits. */
  lemma {:induction false} BitDown(a: nat, n: nat, k: nat, q: nat)
    requires q == a / Pow2(n)
    ensures Bit(q, k) == Bit(a, n + k)
    decreases n
  {
    hide Bit, Pow2;
    if n == 0 {
      One();
      Quotient(a, 1, a, 0);
    } else {
      Pow2Step(n - 1);
      Halves(a, Pow2(n - 1));
      BitDown(a / 2, n - 1, k, q);
      BitStep(a, n - 1 + k);
    }
  }

  /** Keeping low bits. */
  lemma {:induction false} BitLow(a: nat, n: nat, k: nat)
    requires k < n
    ensures Bit(a % Pow2(n), k) == Bit(a, k)
    decreases n
  {
    hide Bit, Pow2;
    Pow2Step(n - 1);
    ModDouble(a, Pow2(n - 1));
    var x := a % Pow2(n);
    assert x / 2 == a / 2 % Pow2(n - 1) && x % 2 == a % 2;
    BitStep(x, if k == 0 then 0 else k - 1);
    BitStep(a, if k == 0 then 0 else k - 1);
    if k > 0 {
      BitLow(a / 2, n - 1, k - 1);
    }
  }

  /** High bits above low ones. */
  lemma {:induction false} BitJoin(h: nat, l: nat, n: nat, k: nat)
    requires l < Pow2(n)
    ensures Bit(h * Pow2(n) + l, k) == if k < n then Bit(l, k) else Bit(h, k - n)
    decreases n
  {
    hide Bit, Pow2;
    if n == 0 {
      One();
    } else {
      Pow2Step(n - 1);
      var p := Pow2(n - 1);
      Associate(h, 2, p);
      Associate(2, h, p);
      var x := h * Pow2(n) + l;
      assert x == 2 * (h * p) + l;
      assert x / 2 == h * p + l / 2 && x % 2 == l % 2;
      BitStep(x, if k == 0 then 0 else k - 1);
      BitStep(l, if k == 0 then 0 else k - 1);
      if k > 0 {
        BitJoin(h, l / 2, n - 1, k - 1);
      }
    }
  }

  lemma {:induction false} XorBitsAt(a: nat, b: nat, n: nat, k: nat)
    requires k < n
    ensures Bit(XorBits(a, b, n), k) == (Bit(a, k) + Bit(b, k)) % 2
  {
    hide XorBits, Bit;
    var x := XorBits(a, b, n);
    XorStep(a, b, n);
    if k == 0 {
      BitStep(a, 0);
      BitStep(b, 0);
      BitStep(x, 0);
    } else {
      BitStep(a, k - 1);
      BitStep(b, k - 1);
      BitStep(x, k - 1);
      assert x / 2 == XorBits(a / 2, b / 2, n - 1);
      XorBitsAt(a / 2, b / 2, n - 1, k - 1);
    }
  }

  /** A bit of the result is set exactly when the bits of the operands differ. */
  lemma {:induction false} XorAt(a: byte, b: byte, k: nat)
    requires k < 8
    ensures Xor(a, b) as int / Pow2(k) % 2 == (a as int / Pow2(k) + b as int / Pow2(k)) % 2
  {
    hide XorBits, Pow2;
    XorBitsAt(a as int, b as int, 8, k);
    Parity(a as int / Pow2(k), b as int / Pow2(k));
  }

  /** `w` is the exclusive or of `a` and `b`, bit by bit. */
  ghost predicate Differs(w: byte, a: byte, b: byte)
  {
    forall k: nat :: k < 8 ==> w as int / Pow2(k) % 2 == (a as int / Pow2(k) + b as int / Pow2(k)) % 2
  }

  lemma {:induction false} XorDiffering(a: byte, b: byte)
    ensures Differs(Xor(a, b), a, b)
  {
    hide Xor, Pow2;
    forall k: nat | k < 8
      ensures Xor(a, b) as int / Pow2(k) % 2 == (a as int / Pow2(k) + b as int / Pow2(k)) % 2
    {
      XorAt(a, b, k);
    }
  }

  lemma {:induction false} Parity(a: nat, b: nat)
    ensures (a % 2 + b % 2) % 2 == (a + b) % 2
  {
  }

  lemma {:induction false} XorBitsZero(a: nat, n: nat)
    requires a < Pow2(n)
    ensures XorBits(a, 0, n) == a && XorBits(a, a, n) == 0
  {
    if n > 0 {
      XorBitsZero(a / 2, n - 1);
    }
  }

  lemma {:induction false} XorZero(a: byte)
    ensures Xor(a, 0) == a && Xor(a, a) == 0
  {
    hide XorBits;
    Width();
    XorBitsZero(a as int, 8);
  }

  lemma {:induction false} XorTwice(a: byte, b: byte)
    ensures Xor(Xor(a, b), b) == a
  {
    hide XorBits;
    Width();
    XorBitsTwice(a as int, b as int, 8);
  }

  /** Different masks give different results. */
  lemma {:induction false} XorDiffers(a: byte, b: byte, c: byte)
    requires Xor(a, b) == Xor(a, c)
    ensures b == c
  {
    hide XorBits;
    XorSwap(a, b);
    XorSwap(a, c);
    XorTwice(b, a);
    XorTwice(c, a);
  }

  lemma {:induction false} XorSwap(a: byte, b: byte)
    ensures Xor(a, b) == Xor(b, a)
  {
    hide XorBits;
    XorBitsSwap(a as int, b as int, 8);
  }

  lemma {:induction false} XorBitsSwap(a: nat, b: nat, n: nat)
    ensures XorBits(a, b, n) == XorBits(b, a, n)
  {
    if n > 0 {
      XorBitsSwap(a / 2, b / 2, n - 1);
    }
  }
}
