/**
 Bit operations of the hash table, on unsigned words read as natural numbers.

 `BitAnd` and `BitXor` are defined bit by bit. `Low(x, d)` is the word made of the low `d` bits of `x`; all the
 reasoning about directories is in terms of `Low`, so that no variable modulus reaches the solver. `LowIsMod` says
 that `Low(x, d)` is `x` modulo `2^d`.
 */
module Bits {

  function Pow2(n: nat): (r: nat)
    ensures r >= 1
  {
    if n == 0 then 1 else 2 * Pow2(n - 1)
  }

  function BitAnd(x: nat, y: nat): nat
    decreases x
  {
    if x == 0 || y == 0 then 0
    else (if x % 2 == 1 && y % 2 == 1 then 1 else 0) + 2 * BitAnd(x / 2, y / 2)
  }

  function BitXor(x: nat, y: nat): nat
    decreases x + y
  {
    if x == 0 && y == 0 then 0
    else (if x % 2 != y % 2 then 1 else 0) + 2 * BitXor(x / 2, y / 2)
  }

  /** The low `d` bits of `x`. */
  function Low(x: nat, d: nat): (r: nat)
    ensures r < Pow2(d)
  {
    if d == 0 then 0 else x % 2 + 2 * Low(x / 2, d - 1)
  }

  /** Bit number `k` of `x`. */
  predicate Bit(x: nat, k: nat) {
    if k == 0 then x % 2 == 1 else Bit(x / 2, k - 1)
  }

  lemma {:induction false} Pow2Monotone(d: nat, e: nat)
    requires d <= e
    ensures Pow2(d) <= Pow2(e)
  {
    if d < e {
      Pow2Monotone(d, e - 1);
    }
  }

  lemma Pow2Nine()
    ensures Pow2(9) == 512
  {
    assert Pow2(4) == 16;
    assert Pow2(8) == 256;
  }

  lemma {:induction false} LowQuotient(x: nat, d: nat) returns (q: nat)
    ensures x == q * Pow2(d) + Low(x, d)
  {
    if d == 0 {
      q := x;
    } else {
      var p := Pow2(d - 1);
      q := LowQuotient(x / 2, d - 1);
      assert q * (2 * p) == 2 * (q * p);
    }
  }

  lemma MulAtLeast(a: int, m: nat)
    requires a >= 1
    ensures a * m >= m
  {
    assert a * m == (a - 1) * m + m;
  }

  lemma RemainderUnique(q: int, r: nat, q': int, r': nat, m: nat)
    requires r < m && r' < m && q * m + r == q' * m + r'
    ensures r == r'
  {
    assert (q - q') * m == q * m - q' * m;
    if q > q' {
      MulAtLeast(q - q', m);
    } else if q < q' {
      assert (q' - q) * m == q' * m - q * m;
      MulAtLeast(q' - q, m);
    }
  }

  lemma LowIsMod(x: nat, d: nat)
    ensures Low(x, d) == x % Pow2(d)
  {
    var m: nat := Pow2(d);
    var q := LowQuotient(x, d);
    RemainderUnique(q, Low(x, d), x / m, x % m, m);
  }

  /** A word below `2^d` is its own low part. */
  lemma {:induction false} LowSmall(x: nat, d: nat)
    requires x < Pow2(d)
    ensures Low(x, d) == x
  {
    if d > 0 {
      LowSmall(x / 2, d - 1);
    }
  }

  lemma {:induction false} LowLow(x: nat, d: nat, e: nat)
    requires d <= e
    ensures Low(Low(x, e), d) == Low(x, d)
  {
    if d > 0 {
      LowLow(x / 2, d - 1, e - 1);
    }
  }

  /** Agreement on `e` low bits implies agreement on fewer. */
  lemma LowWeaken(x: nat, y: nat, d: nat, e: nat)
    requires d <= e && Low(x, e) == Low(y, e)
    ensures Low(x, d) == Low(y, d)
  {
    LowLow(x, d, e);
    LowLow(y, d, e);
  }

  /** One more bit. */
  lemma {:induction false} LowStep(x: nat, d: nat)
    ensures Low(x, d + 1) == Low(x, d) + (if Bit(x, d) then Pow2(d) else 0)
  {
    if d > 0 {
      LowStep(x / 2, d - 1);
    }
  }

  lemma LowStepAgree(x: nat, y: nat, d: nat)
    ensures Low(x, d + 1) == Low(y, d + 1) <==> Low(x, d) == Low(y, d) && Bit(x, d) == Bit(y, d)
  {
    LowStep(x, d);
    LowStep(y, d);
    if Low(x, d + 1) == Low(y, d + 1) {
      LowWeaken(x, y, d, d + 1);
    }
  }

  /** Masking with `(1 << d) - 1` keeps the low `d` bits. */
  lemma {:induction false} AndMask(x: nat, d: nat)
    ensures BitAnd(x, Pow2(d) - 1) == Low(x, d)
  {
    if d > 0 && x > 0 {
      var m := Pow2(d) - 1;
      assert m % 2 == 1 && m / 2 == Pow2(d - 1) - 1;
      AndMask(x / 2, d - 1);
    } else if d > 0 {
      LowSmall(0, d);
    }
  }

  lemma {:induction false} XorZero(x: nat)
    ensures BitXor(x, 0) == x
  {
    if x > 0 {
      XorZero(x / 2);
    }
  }

  lemma XorHalves(x: nat, k: nat)
    requires k > 0
    ensures BitXor(x, Pow2(k)) % 2 == x % 2 && BitXor(x, Pow2(k)) / 2 == BitXor(x / 2, Pow2(k - 1))
  {
    hide Low;
    assert Pow2(k) % 2 == 0 && Pow2(k) / 2 == Pow2(k - 1);
  }

  /** Xor with `1 << k` flips bit `k` and no other. */
  lemma {:induction false} XorBit(x: nat, k: nat, j: nat)
    ensures Bit(BitXor(x, Pow2(k)), j) == (if j == k then !Bit(x, j) else Bit(x, j))
  {
    var y := BitXor(x, Pow2(k));
    if k == 0 {
      XorZero(x / 2);
      assert y / 2 == x / 2;
    } else {
      XorHalves(x, k);
      if j > 0 {
        XorBit(x / 2, k - 1, j - 1);
      }
    }
  }

  lemma {:induction false} XorKeepsLow(x: nat, k: nat)
    ensures Low(BitXor(x, Pow2(k)), k) == Low(x, k)
  {
    if k > 0 {
      XorHalves(x, k);
      XorKeepsLow(x / 2, k - 1);
    }
  }

  lemma {:induction false} XorStaysBelow(x: nat, k: nat, g: nat)
    requires k < g && x < Pow2(g)
    ensures BitXor(x, Pow2(k)) < Pow2(g)
  {
    if k == 0 {
      XorZero(x / 2);
    } else {
      XorHalves(x, k);
      XorStaysBelow(x / 2, k - 1, g - 1);
    }
  }

  /** Xor with `1 << k` leaves the `k` low bits alone and stays below any `2^g` with `g > k`. */
  lemma XorKeeps(x: nat, k: nat, g: nat)
    requires k < g && x < Pow2(g)
    ensures Low(BitXor(x, Pow2(k)), k) == Low(x, k)
    ensures BitXor(x, Pow2(k)) < Pow2(g)
  {
    hide Low, BitXor, Pow2;
    XorKeepsLow(x, k);
    XorStaysBelow(x, k, g);
  }

  /** A stride of `2^d` stays in the same residue class. */
  lemma {:induction false} LowStride(x: nat, d: nat)
    ensures Low(x + Pow2(d), d) == Low(x, d)
  {
    if d > 0 {
      assert (x + Pow2(d)) / 2 == x / 2 + Pow2(d - 1);
      LowStride(x / 2, d - 1);
    }
  }

  /** No member of the residue class lies strictly between two strides. */
  lemma {:induction false} LowGap(x: nat, y: nat, d: nat)
    requires x < y < x + Pow2(d)
    ensures Low(y, d) != Low(x, d)
  {
    if Low(y, d) == Low(x, d) {
      assert d > 0;
      assert x % 2 == y % 2;
      assert x / 2 < y / 2 < x / 2 + Pow2(d - 1);
      LowGap(x / 2, y / 2, d - 1);
    }
  }

  lemma SmallRemainder(x: nat, m: nat)
    requires x < m
    ensures x % m == x
  {
  }

  /** The next number congruent to `x` modulo `m` is `x + m`. */
  lemma NextCongruent(x: nat, y: nat, m: nat)
    requires 0 < m && x <= y < x + m
    ensures y % m == x % m <==> y == x
    ensures (x + m) % m == x % m
  {
    var q, r := x / m, x % m;
    assert x == q * m + r;
    RemainderUnique((x + m) / m, (x + m) % m, q + 1, r, m);
    var q', r' := y / m, y % m;
    if r' == r {
      assert (q' - q) * m == y - x;
      if q' > q {
        MulAtLeast(q' - q, m);
      } else if q' < q {
        assert (q - q') * m == x - y;
        MulAtLeast(q - q', m);
      }
    }
  }
}
