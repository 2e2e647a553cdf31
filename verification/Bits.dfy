/** Bitwise operators of the C sources on non-negative integers, with the few facts the
    allocators rely on. Everything is defined by halving, bit by bit. */
module Bits {

  function Pow2(n: nat): (r: nat)
    ensures r >= 1
  {
    if n == 0 then 1 else 2 * Pow2(n - 1)
  }

  /** `a ^ b` */
  function Xor(a: nat, b: nat): nat
    decreases a + b
  {
    if a == 0 && b == 0 then 0 else 2 * Xor(a / 2, b / 2) + (if a % 2 == b % 2 then 0 else 1)
  }

  /** `a & b` */
  function And(a: nat, b: nat): nat
  {
    if a == 0 || b == 0 then 0 else 2 * And(a / 2, b / 2) + (if a % 2 == 1 && b % 2 == 1 then 1 else 0)
  }

  /** Bit `o` of `p`. */
  predicate Bit(p: nat, o: nat)
  {
    if o == 0 then p % 2 == 1 else Bit(p / 2, o - 1)
  }

  /** The low `o` bits of `p` are zero. */
  predicate Aligned(p: nat, o: nat)
  {
    o == 0 || (p % 2 == 0 && Aligned(p / 2, o - 1))
  }

  /** `Aligned` is divisibility by the power of two. */
  lemma {:induction false} AlignedIsMultiple(p: nat, o: nat)
    ensures Aligned(p, o) <==> exists m: nat :: p == m * Pow2(o)
  {
    if o == 0 {
      assert p == p * Pow2(0);
    } else {
      AlignedIsMultiple(p / 2, o - 1);
      if p % 2 == 0 && Aligned(p / 2, o - 1) {
        var m: nat :| p / 2 == m * Pow2(o - 1);
        assert p == m * Pow2(o);
      }
      forall m: nat | p == m * Pow2(o)
        ensures p % 2 == 0 && Aligned(p / 2, o - 1)
      {
        assert m * Pow2(o) == 2 * (m * Pow2(o - 1));
        assert p / 2 == m * Pow2(o - 1);
      }
    }
  }

  lemma {:induction false} XorZero(a: nat)
    ensures Xor(a, 0) == a
  {
    if a != 0 {
      XorZero(a / 2);
    }
  }

  lemma {:induction false} AndSelf(a: nat)
    ensures And(a, a) == a
  {
    if a != 0 {
      AndSelf(a / 2);
    }
  }

  /** XOR with a single bit flips exactly that bit. */
  lemma {:induction false} XorPow2(p: nat, o: nat)
    ensures Bit(p, o) ==> p >= Pow2(o)
    ensures Xor(p, Pow2(o)) == if Bit(p, o) then p - Pow2(o) else p + Pow2(o)
  {
    if o == 0 {
      XorZero(p / 2);
    } else {
      XorPow2(p / 2, o - 1);
      var b := Pow2(o - 1);
      assert Xor(p, 2 * b) == 2 * Xor(p / 2, b) + p % 2 by {
        assert (2 * b) / 2 == b && (2 * b) % 2 == 0;
      }
    }
  }

  /** `p & (p ^ bit)` clears the bit. */
  lemma {:induction false} AndXorPow2(p: nat, o: nat)
    ensures Bit(p, o) ==> p >= Pow2(o)
    ensures And(p, Xor(p, Pow2(o))) == if Bit(p, o) then p - Pow2(o) else p
  {
    XorPow2(p, o);
    var x := Xor(p, Pow2(o));
    hide Xor;
    if o == 0 {
      assert x / 2 == p / 2;
      AndSelf(p / 2);
    } else {
      XorPow2(p / 2, o - 1);
      AndXorPow2(p / 2, o - 1);
      assert x / 2 == Xor(p / 2, Pow2(o - 1)) && x % 2 == p % 2;
    }
  }

  /** `p ^ (p ^ bit)` is the bit again. */
  lemma {:induction false} XorTwice(p: nat, o: nat)
    ensures Xor(p, Xor(p, Pow2(o))) == Pow2(o)
  {
    XorPow2(p, o);
    if o == 0 {
      XorSelf(p / 2);
      assert Xor(p, Pow2(0)) / 2 == p / 2;
    } else {
      XorPow2(p / 2, o - 1);
      XorTwice(p / 2, o - 1);
      assert Xor(p, Pow2(o)) / 2 == Xor(p / 2, Pow2(o - 1)) && Xor(p, Pow2(o)) % 2 == p % 2;
    }
  }

  lemma {:induction false} XorSelf(a: nat)
    ensures Xor(a, a) == 0
  {
    if a != 0 {
      XorSelf(a / 2);
    }
  }

  lemma {:induction false} ZeroBit(w: nat, i: nat)
    requires w == 0
    ensures !Bit(w, i)
  {
    if i > 0 {
      ZeroBit(w / 2, i - 1);
    }
  }

  // ----- shifts -----

  /** `x >> k` */
  function Shr(x: nat, k: nat): nat
  {
    if k == 0 then x else Shr(x / 2, k - 1)
  }

  /** The low `k` bits of `x`. */
  function Low(x: nat, k: nat): (r: nat)
    ensures r < Pow2(k)
  {
    if k == 0 then 0 else 2 * Low(x / 2, k - 1) + x % 2
  }

  /** `x & (2^k - 1)` keeps the low bits. */
  lemma {:induction false} AndMask(x: nat, k: nat)
    ensures And(x, Pow2(k) - 1) == Low(x, k)
  {
    if k > 0 {
      AndMask(x / 2, k - 1);
      var m := Pow2(k - 1) - 1;
      assert Pow2(k) - 1 == 2 * m + 1 && (2 * m + 1) / 2 == m;
      if x == 0 {
        LowZero(x, k);
      }
    }
  }

  lemma {:induction false} LowZero(x: nat, k: nat)
    requires x == 0
    ensures Low(x, k) == 0
  {
    if k > 0 {
      LowZero(x / 2, k - 1);
    }
  }

  lemma {:induction false} ShrZero(x: nat, k: nat)
    requires x == 0
    ensures Shr(x, k) == 0
  {
    if k > 0 {
      ShrZero(x / 2, k - 1);
    }
  }

  lemma {:induction false} ShrMono(a: nat, b: nat, k: nat)
    requires a <= b
    ensures Shr(a, k) <= Shr(b, k)
  {
    if k > 0 {
      ShrMono(a / 2, b / 2, k - 1);
    }
  }

  lemma {:induction false} ShrStep(a: nat, k: nat)
    ensures Shr(a, k) <= Shr(a + 1, k) <= Shr(a, k) + 1
  {
    if k > 0 {
      ShrStep(a / 2, k - 1);
      ShrMono(a / 2, (a + 1) / 2, k - 1);
    }
  }

  /** High and low part determine a number. */
  lemma {:induction false} ShrLow(a: nat, b: nat, k: nat)
    requires Shr(a, k) == Shr(b, k) && Low(a, k) == Low(b, k)
    ensures a == b
  {
    if k > 0 {
      ShrLow(a / 2, b / 2, k - 1);
    }
  }

  lemma {:induction false} MulGap(a: nat, b: nat, s: nat)
    requires a < b
    ensures 0 <= a * s && a * s + s <= b * s
  {
    if s > 0 {
      MulGap(a, b, s - 1);
    }
  }

  lemma {:induction false} ShrSplit(x: nat, k: nat)
    ensures x == Shr(x, k) * Pow2(k) + Low(x, k)
  {
    if k > 0 {
      ShrSplit(x / 2, k - 1);
      DoubleMul(Shr(x / 2, k - 1), Pow2(k - 1));
    }
  }

  lemma {:induction false} DoubleMul(q: nat, p: nat)
    ensures q * (2 * p) == 2 * (q * p)
  {
    if q > 0 {
      DoubleMul(q - 1, p);
    }
  }

  /** Dividing by a power of two is shifting. */
  lemma ShrDiv(x: nat, k: nat)
    ensures x / Pow2(k) == Shr(x, k)
  {
    ShrSplit(x, k);
    DivUnique(x, Pow2(k), Shr(x, k), Low(x, k));
  }

  lemma {:induction false} BitShr(p: nat, o: nat)
    ensures Bit(p, o) <==> Shr(p, o) % 2 == 1
  {
    if o > 0 {
      BitShr(p / 2, o - 1);
    }
  }

  /** Bit `o` of `p`, by division. */
  lemma BitIs(p: nat, o: nat)
    ensures Bit(p, o) <==> p / Pow2(o) % 2 == 1
  {
    BitShr(p, o);
    ShrDiv(p, o);
  }

  lemma DivUnique(n: nat, d: nat, q: nat, r: nat)
    requires 0 <= r < d && n == q * d + r
    ensures n / d == q
  {
    var q0, r0 := n / d, n % d;
    assert n == q0 * d + r0;
    if q0 < q {
      MulGap(q0, q, d);
    } else if q < q0 {
      MulGap(q, q0, d);
    }
  }

  lemma {:induction false} ShrShr(x: nat, a: nat, k: nat)
    ensures Shr(x, a + k) == Shr(Shr(x, a), k)
  {
    if a > 0 {
      ShrShr(x / 2, a - 1, k);
    }
  }

  lemma Pow2Times512(k: nat)
    ensures 512 * Pow2(k) == Pow2(k + 9)
  {
    assert Pow2(k + 2) == 4 * Pow2(k);
    assert Pow2(k + 4) == 4 * Pow2(k + 2);
    assert Pow2(k + 6) == 4 * Pow2(k + 4);
    assert Pow2(k + 8) == 4 * Pow2(k + 6);
  }

  lemma Shr9(x: nat)
    ensures Shr(x, 9) == x / 512
  {
    ShrDiv(x, 9);
    Pow2Times512(0);
  }

  /** Dividing by `512 << k` is dividing by 512 and shifting. */
  lemma DivClust(x: nat, k: nat)
    ensures 512 * Pow2(k) > 0 && x / (512 * Pow2(k)) == Shr(x / 512, k)
  {
    Pow2Times512(k);
    ShrDiv(x, 9 + k);
    ShrShr(x, 9, k);
    Shr9(x);
  }

  // ----- stepping through aligned groups of 2^k -----

  /** Adding a multiple of `2^k` leaves the low bits alone and adds up in the high part. */
  lemma {:induction false} LowAdd(a: nat, b: nat, k: nat)
    requires Low(b, k) == 0
    ensures Low(a + b, k) == Low(a, k) && Shr(a + b, k) == Shr(a, k) + Shr(b, k)
  {
    if k > 0 {
      LowAdd(a / 2, b / 2, k - 1);
      assert b % 2 == 0 && (a + b) / 2 == a / 2 + b / 2;
    }
  }

  lemma {:induction false} LowMultiple(m: nat, k: nat)
    ensures Low(m * Pow2(k), k) == 0 && Shr(m * Pow2(k), k) == m
  {
    if k > 0 {
      LowMultiple(m, k - 1);
      DoubleMul(m, Pow2(k - 1));
      LowDouble(m * Pow2(k - 1), m * Pow2(k), k);
    }
  }

  lemma LowDouble(h: nat, x: nat, k: nat)
    requires k > 0 && x == 2 * h
    ensures Low(x, k) == 2 * Low(h, k - 1) && Shr(x, k) == Shr(h, k - 1)
  {
    assert x / 2 == h;
  }

  /** Counting up by one: either inside the group or on to the next one. */
  lemma {:induction false} LowStep(x: nat, k: nat)
    ensures Low(x, k) + 1 < Pow2(k) ==> Low(x + 1, k) == Low(x, k) + 1 && Shr(x + 1, k) == Shr(x, k)
    ensures Low(x, k) + 1 == Pow2(k) ==> Low(x + 1, k) == 0 && Shr(x + 1, k) == Shr(x, k) + 1
  {
    if k > 0 {
      LowStep(x / 2, k - 1);
      assert (x + 1) / 2 == if x % 2 == 0 then x / 2 else x / 2 + 1;
      assert (x + 1) % 2 == 1 - x % 2;
    }
  }

  /** A number below `2^k` is its own low part. */
  lemma {:induction false} LowSmall(x: nat, k: nat)
    requires x < Pow2(k)
    ensures Low(x, k) == x && Shr(x, k) == 0
  {
    if k > 0 {
      LowSmall(x / 2, k - 1);
    }
  }

  /** The high part counts whole groups. */
  lemma ShrBound(x: nat, m: nat, k: nat)
    ensures Shr(x, k) < m <==> x < m * Pow2(k)
  {
    ShrSplit(x, k);
    var q, p := Shr(x, k), Pow2(k);
    if q < m {
      MulGap(q, m, p);
    } else if m < q {
      MulGap(m, q, p);
    }
  }

  lemma Shr4(x: nat, k: nat)
    ensures Shr(x, 4 + k) == Shr(x / 16, k)
  {
    ShrShr(x, 4, k);
    ShrDiv(x, 4);
    assert Pow2(4) == 2 * Pow2(3) == 4 * Pow2(2) == 8 * Pow2(1) == 16;
  }

  lemma Low4(x: nat, k: nat)
    requires Low(x, 4 + k) == 0
    ensures x % 16 == 0 && Low(x / 16, k) == 0
  {
    assert Low(x, 4 + k) == 2 * Low(x / 2, 3 + k) + x % 2;
    assert Low(x / 2, 3 + k) == 2 * Low(x / 2 / 2, 2 + k) + x / 2 % 2;
    assert Low(x / 2 / 2, 2 + k) == 2 * Low(x / 2 / 2 / 2, 1 + k) + x / 2 / 2 % 2;
    assert Low(x / 2 / 2 / 2, 1 + k) == 2 * Low(x / 2 / 2 / 2 / 2, k) + x / 2 / 2 / 2 % 2;
    assert x / 2 / 2 / 2 / 2 == x / 16;
  }

  lemma LowMod(x: nat, k: nat)
    ensures x % Pow2(k) == Low(x, k)
  {
    ShrSplit(x, k);
    ShrDiv(x, k);
  }

  lemma {:induction false} Pow2Add(a: nat, b: nat)
    ensures Pow2(a + b) == Pow2(a) * Pow2(b)
  {
    if a > 0 {
      Pow2Add(a - 1, b);
      DoubleMul(Pow2(b), Pow2(a - 1));
    }
  }
}
