/**
 * Machine words of a given bit width, as naturals. LLVM's `iN` values are the
 * naturals below 2^N; its `not`, `and`, `or`, `xor` and `add` are the functions
 * below, with results reduced modulo 2^N.
 */
module Bits {

  /** Widest word the simulator allocates (descriptors.py MAX_WIDTH). */
  const MAX_WIDTH: nat := 64

  /** 2^64: the values of a 64-bit word are the naturals below it. */
  const WORD: nat := 0x1_0000_0000_0000_0000

  /** A pin width: between 1 and 64 bits. */
  type Width = w: nat | 1 <= w <= MAX_WIDTH witness 1

  function Pow2(n: nat): (r: nat)
    ensures r >= 1
  {
    if n == 0 then 1 else 2 * Pow2(n - 1)
  }

  /** All ones in the low `w` bits. */
  function Mask(w: nat): nat
  {
    Pow2(w) - 1
  }

  /** `x` is a value of a `w`-bit word. */
  predicate Fits(w: nat, x: nat)
  {
    x < Pow2(w)
  }

  /** Keep the low `w` bits of `x` (LLVM `trunc`, or storing into an `iw` cell). */
  function Trunc(w: nat, x: nat): (r: nat)
    ensures Fits(w, r)
    ensures Fits(w, x) ==> r == x
  {
    var p := Pow2(w);
    if x < p then x else x % p
  }

  /** Reducing a value below the modulus leaves it alone. */
  lemma ModBelow(x: nat, p: nat)
    requires x < p
    ensures x % p == x
  {
  }

  /** Reducing a value below twice the modulus subtracts it at most once. */
  lemma ModOnce(x: nat, p: nat)
    requires 0 < p <= x < 2 * p
    ensures x % p == x - p
  {
  }

  function BitAnd(x: nat, y: nat): nat
    decreases x + y
  {
    if x == 0 || y == 0 then 0 else 2 * BitAnd(x / 2, y / 2) + (x % 2) * (y % 2)
  }

  function BitOr(x: nat, y: nat): nat
    decreases x + y
  {
    if x == 0 then y
    else if y == 0 then x
    else 2 * BitOr(x / 2, y / 2) + (if x % 2 == 1 || y % 2 == 1 then 1 else 0)
  }

  function BitXor(x: nat, y: nat): nat
    decreases x + y
  {
    if x == 0 then y
    else if y == 0 then x
    else 2 * BitXor(x / 2, y / 2) + (x % 2 + y % 2) % 2
  }

  /** LLVM `not` on a `w`-bit word: every one of the low `w` bits flipped. */
  function BitNot(w: nat, x: nat): (r: nat)
    ensures Fits(w, r)
    ensures Trunc(w, x) + r == Mask(w)
  {
    Mask(w) - Trunc(w, x)
  }

  lemma NotInvolutive(w: nat, x: nat)
    ensures BitNot(w, BitNot(w, x)) == Trunc(w, x)
  {
  }

  lemma Pow2Half(w: nat)
    requires w >= 1
    ensures Pow2(w) == 2 * Pow2(w - 1)
  {
  }

  lemma {:induction false} Pow2Monotone(a: nat, b: nat)
    requires a <= b
    ensures Pow2(a) <= Pow2(b)
  {
    if a < b {
      Pow2Monotone(a, b - 1);
    }
  }

  lemma {:induction false} AndFits(w: nat, x: nat, y: nat)
    requires Fits(w, x)
    ensures Fits(w, BitAnd(x, y))
    ensures Fits(w, BitAnd(y, x))
    decreases x + y
  {
    AndComm(x, y);
    if x != 0 && y != 0 {
      assert w >= 1;
      AndFits(w - 1, x / 2, y / 2);
    }
  }

  lemma {:induction false} AndComm(x: nat, y: nat)
    ensures BitAnd(x, y) == BitAnd(y, x)
    decreases x + y
  {
    if x != 0 && y != 0 {
      AndComm(x / 2, y / 2);
    }
  }

  lemma {:induction false} OrFits(w: nat, x: nat, y: nat)
    requires Fits(w, x) && Fits(w, y)
    ensures Fits(w, BitOr(x, y))
    decreases x + y
  {
    if x != 0 && y != 0 {
      assert w >= 1;
      OrFits(w - 1, x / 2, y / 2);
    }
  }

  lemma {:induction false} XorFits(w: nat, x: nat, y: nat)
    requires Fits(w, x) && Fits(w, y)
    ensures Fits(w, BitXor(x, y))
    decreases x + y
  {
    if x != 0 && y != 0 {
      assert w >= 1;
      XorFits(w - 1, x / 2, y / 2);
    }
  }

  /** All-ones is the identity of `and` on `w`-bit words. */
  lemma AndMask(w: nat, x: nat)
    requires Fits(w, x)
    ensures BitAnd(Mask(w), x) == x
    ensures BitAnd(x, Mask(w)) == x
  {
    MaskAnd(w, x);
    AndComm(x, Mask(w));
  }

  lemma {:induction false} MaskAnd(w: nat, x: nat)
    requires Fits(w, x)
    ensures BitAnd(Mask(w), x) == x
    decreases w
  {
    if x != 0 {
      assert w >= 1;
      var m := Mask(w);
      MaskHalf(w);
      FitsHalf(w, x);
      MaskAnd(w - 1, x / 2);
      assert BitAnd(m, x) == 2 * BitAnd(m / 2, x / 2) + (m % 2) * (x % 2);
      assert BitAnd(m, x) == 2 * (x / 2) + x % 2;
    }
  }

  /** Halving an all-ones word drops one bit and leaves an odd word. */
  lemma MaskHalf(w: nat)
    requires w >= 1
    ensures Mask(w) / 2 == Mask(w - 1) && Mask(w) % 2 == 1
  {
    assert Pow2(w) == 2 * Pow2(w - 1);
  }

  /** Halving a `w`-bit value gives a `w - 1`-bit value. */
  lemma FitsHalf(w: nat, x: nat)
    requires w >= 1 && Fits(w, x)
    ensures Fits(w - 1, x / 2)
  {
    assert Pow2(w) == 2 * Pow2(w - 1);
  }

  /** `and` with 1 keeps only bit 0. */
  lemma AndOne(x: nat)
    ensures BitAnd(1, x) == x % 2
  {
    if x != 0 {
      assert BitAnd(0, x / 2) == 0;
    }
  }

  /** `and` with all ones but bit 0 clears bit 0. */
  lemma {:induction false} AndMaskButOne(w: nat, x: nat)
    requires w >= 1 && Fits(w, x)
    ensures BitAnd(Mask(w) - 1, x) == x - x % 2
  {
    if w == 1 {
      assert Mask(w) - 1 == 0;
    } else if x != 0 {
      assert (Mask(w) - 1) / 2 == Mask(w - 1) && (Mask(w) - 1) % 2 == 0;
      AndMask(w - 1, x / 2);
    }
  }

  /** Setting bit 0 of an even number. */
  lemma OrLowBit(b: nat, k: nat)
    requires b <= 1
    ensures BitOr(b, 2 * k) == 2 * k + b
  {
    if b != 0 && k != 0 {
      assert BitOr(b / 2, k) == k;
    }
  }

  lemma {:induction false} XorSelf(x: nat)
    ensures BitXor(x, x) == 0
    decreases x
  {
    if x != 0 {
      XorSelf(x / 2);
    }
  }

  /** Bit `k` of `x`. */
  function Bit(x: nat, k: nat): nat
  {
    if k == 0 then x % 2 else Bit(x / 2, k - 1)
  }

  /** `and` is bitwise: a bit of the result is set iff it is set in both operands. */
  lemma {:induction false} AndBit(x: nat, y: nat, k: nat)
    ensures Bit(BitAnd(x, y), k) == Bit(x, k) * Bit(y, k)
    decreases k
  {
    if x == 0 || y == 0 {
      ZeroBit(k);
    } else {
      var b := (x % 2) * (y % 2);
      assert b <= 1 by {
        if x % 2 == 0 { assert b == 0; } else { assert b == y % 2; }
      }
      Digits(BitAnd(x / 2, y / 2), b);
      if k > 0 {
        AndBit(x / 2, y / 2, k - 1);
      }
    }
  }

  /** The last binary digit and the rest of `2a + b`. */
  lemma Digits(a: nat, b: nat)
    requires b <= 1
    ensures (2 * a + b) % 2 == b && (2 * a + b) / 2 == a
  {
  }

  /** `or` is bitwise: a bit of the result is set iff it is set in either operand. */
  lemma {:induction false} OrBit(x: nat, y: nat, k: nat)
    ensures Bit(BitOr(x, y), k) == if Bit(x, k) == 1 || Bit(y, k) == 1 then 1 else 0
    decreases k
  {
    BitRange(x, k);
    BitRange(y, k);
    if x == 0 {
      ZeroBit(k);
    } else if y == 0 {
      ZeroBit(k);
    } else {
      Digits(BitOr(x / 2, y / 2), if x % 2 == 1 || y % 2 == 1 then 1 else 0);
      if k > 0 {
        OrBit(x / 2, y / 2, k - 1);
      }
    }
  }

  /** `xor` is bitwise: a bit of the result is the parity of the operands' bits. */
  lemma {:induction false} XorBit(x: nat, y: nat, k: nat)
    ensures Bit(BitXor(x, y), k) == (Bit(x, k) + Bit(y, k)) % 2
    decreases k
  {
    BitRange(x, k);
    BitRange(y, k);
    if x == 0 {
      ZeroBit(k);
    } else if y == 0 {
      ZeroBit(k);
    } else {
      Digits(BitXor(x / 2, y / 2), (x % 2 + y % 2) % 2);
      if k > 0 {
        XorBit(x / 2, y / 2, k - 1);
      }
    }
  }

  lemma {:induction false} ZeroBit(k: nat)
    ensures Bit(0, k) == 0
  {
    if k > 0 {
      ZeroBit(k - 1);
    }
  }

  lemma {:induction false} BitRange(x: nat, k: nat)
    ensures Bit(x, k) <= 1
  {
    if k > 0 {
      BitRange(x / 2, k - 1);
    }
  }

  /** A value of a `w`-bit word has no bit set at or above position `w`. */
  lemma {:induction false} FitsBitZero(w: nat, y: nat, k: nat)
    requires Fits(w, y) && k >= w
    ensures Bit(y, k) == 0
    decreases w
  {
    if w == 0 {
      ZeroBit(k);
    } else {
      Pow2Half(w);
      FitsBitZero(w - 1, y / 2, k - 1);
    }
  }

  /** `trunc` to `w` bits keeps bits below `w` and clears the others. */
  lemma {:induction false} TruncBit(w: nat, x: nat, k: nat)
    ensures Bit(Trunc(w, x), k) == if k < w then Bit(x, k) else 0
    decreases k
  {
    if k >= w {
      FitsBitZero(w, Trunc(w, x), k);
    } else {
      TruncHalf(w, x);
      if k > 0 {
        TruncBit(w - 1, x / 2, k - 1);
      }
    }
  }

  /** The last bit and the rest of a truncated value. */
  lemma TruncHalf(w: nat, x: nat)
    requires w >= 1
    ensures Trunc(w, x) % 2 == x % 2
    ensures Trunc(w, x) / 2 == Trunc(w - 1, x / 2)
  {
    var P := Pow2(w - 1);
    Pow2Half(w);
    var t := TruncIsMod(w, x);
    var q := x / (2 * P);
    HalfOf(x, q, t, P);
    ModUnique(x / 2, P, q, t / 2);
    var t' := TruncIsMod(w - 1, x / 2);
  }

  /** `Trunc` is the remainder modulo 2^w. */
  lemma TruncIsMod(w: nat, x: nat) returns (t: nat)
    ensures t == Trunc(w, x) == x % Pow2(w)
    ensures x == (x / Pow2(w)) * Pow2(w) + t
  {
    t := x % Pow2(w);
    if x < Pow2(w) {
      ModBelow(x, Pow2(w));
    }
  }

  /** Halving `q * 2P + t` halves `t` and keeps its last bit. */
  lemma HalfOf(x: nat, q: nat, t: nat, P: nat)
    requires x == q * (2 * P) + t
    ensures x / 2 == q * P + t / 2 && x % 2 == t % 2
  {
    var a := q * P;
    assert q * (2 * P) == 2 * a;
    assert x == 2 * (a + t / 2) + t % 2;
    Digits(a + t / 2, t % 2);
  }

  /** Complementing a `w`-bit value flips its bits below `w`. */
  lemma {:induction false} MaskMinusBit(w: nat, y: nat, k: nat)
    requires Fits(w, y)
    ensures Bit(Mask(w) - y, k) == if k < w then 1 - Bit(y, k) else 0
    decreases w
  {
    if w == 0 {
      ZeroBit(k);
    } else {
      Pow2Half(w);
      var h := Mask(w - 1) - y / 2;
      assert Mask(w) - y == 2 * h + (1 - y % 2);
      Digits(h, 1 - y % 2);
      if k > 0 {
        MaskMinusBit(w - 1, y / 2, k - 1);
      }
    }
  }

  /**
   * LLVM `not` is bitwise: bit `k` of the complement is the flipped bit `k`
   * of the operand below the width, and clear above it.
   */
  lemma NotBit(w: nat, x: nat, k: nat)
    ensures Bit(BitNot(w, x), k) == if k < w then 1 - Bit(x, k) else 0
  {
    MaskMinusBit(w, Trunc(w, x), k);
    TruncBit(w, x, k);
  }

  lemma {:induction false} Pow2Add(a: nat, b: nat)
    ensures Pow2(a + b) == Pow2(a) * Pow2(b)
    decreases a
  {
    if a > 0 {
      Pow2Add(a - 1, b);
      assert Pow2(a + b) == 2 * Pow2(a - 1 + b);
    }
  }

  lemma {:induction false} MulAtLeast(d: nat, p: nat)
    requires d >= 1
    ensures d * p >= p
    decreases d
  {
    if d > 1 {
      MulAtLeast(d - 1, p);
      assert d * p == (d - 1) * p + p;
    }
  }

  /** Multiplication distributes over the predecessor. */
  lemma MulPred(a: int, p: int)
    ensures (a - 1) * p == a * p - p
  {
  }

  /** The remainder is the `r` of any decomposition `q * p + r` with `r < p`. */
  lemma ModUnique(x: nat, p: nat, q: nat, r: nat)
    requires r < p && x == q * p + r
    ensures x % p == r
  {
    var q2, r2 := x / p, x % p;
    assert x == q2 * p + r2;
    assert (q2 - q) * p == r - r2;
    if q2 > q {
      MulAtLeast(q2 - q, p);
    } else if q2 < q {
      MulAtLeast(q - q2, p);
    }
  }

  /**
   * Complementing in a wide word and keeping the low `w` bits is
   * complementing in a `w`-bit word.
   */
  lemma NotNarrows(w: nat, v: nat, x: nat)
    requires w <= v && Fits(w, x)
    ensures Trunc(w, BitNot(v, x)) == BitNot(w, x)
  {
    Pow2Monotone(w, v);
    Pow2Add(v - w, w);
    var P := Pow2(w);
    var q := Pow2(v - w) - 1;
    var r := Mask(w) - x;
    var y := Mask(v) - x;
    MulPred(Pow2(v - w), P);
    assert y == q * P + r;
    ModUnique(y, P, q, r);
    if y < P {
      ModBelow(y, P);
    }
  }
}
