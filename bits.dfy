/** Powers of two and the integer facts about shifting and masking that the
    random string generator relies on (utils.go, lines 194 and 206-210). */
module Bits {

  /** 2^k. */
  function Pow2(k: nat): (r: nat)
    ensures r >= 1
  {
    if k == 0 then 1 else 2 * Pow2(k - 1)
  }

  /** On a 64-bit word, masking with six one-bits keeps the remainder by 64
      and shifting right by six divides by 64; the model states the
      generator's `cache & letterIdxMask` and `cache >>= letterIdxBits` in
      these integer forms. */
  lemma MaskAndShift(c: bv64)
    ensures c & 63 == c % 64
    ensures c >> 6 == c / 64
  {
  }

  lemma {:induction false} Pow2Add(a: nat, b: nat)
    ensures Pow2(a + b) == Pow2(a) * Pow2(b)
    decreases a
  {
    if a > 0 {
      Pow2Add(a - 1, b);
    }
  }

  lemma Pow2Six()
    ensures Pow2(6) == 64
  {
  }

  /** The powers the generator's bit layout uses: a group of six bits, the
      sixty bits ten groups cover, and the 63 bits a draw has. */
  lemma Pow2Values()
    ensures Pow2(6) == 64
    ensures Pow2(60) == 0x1000_0000_0000_0000
    ensures Pow2(63) == 0x8000_0000_0000_0000
  {
    assert Pow2(3) == 8;
    Pow2Add(3, 3);
    Pow2Add(6, 6);
    assert Pow2(12) == 0x1000;
    Pow2Add(12, 12);
    assert Pow2(24) == 0x100_0000;
    Pow2Add(24, 24);
    assert Pow2(48) == 0x1_0000_0000_0000;
    Pow2Add(48, 12);
    assert Pow2(60) == 0x1000_0000_0000_0000;
    Pow2Add(60, 3);
  }

  lemma MulAtLeast(d: int, x: int)
    requires 0 < d && 1 <= x
    ensures d * x >= d
  {
  }

  /** Quotient and remainder are the only pair with c = d * q + r, 0 <= r < d. */
  lemma DivUnique(c: int, d: int, q: int, r: int)
    requires 0 < d && c == d * q + r && 0 <= r < d
    ensures c / d == q && c % d == r
  {
    var q', r' := c / d, c % d;
    assert d * (q - q') == r' - r;
    if q' < q {
      MulAtLeast(d, q - q');
    } else if q < q' {
      MulAtLeast(d, q' - q);
    }
  }

  lemma MulSplit(a: int, b: int, q2: int, r2: int)
    ensures a * (b * q2 + r2) == (a * b) * q2 + a * r2
  {
  }

  lemma MulSwap(t: int, a: int, p: int)
    ensures t * (a * p) == a * (t * p)
  {
  }

  lemma MulBelow(a: int, r2: int, b: int)
    requires 0 < a && 0 <= r2 < b
    ensures 0 <= a * r2 <= a * b - a
  {
    assert a * b - a * r2 == a * (b - r2);
    MulAtLeast(a, b - r2);
  }

  /** Shifting right by a, then by b, is shifting right by a + b. */
  lemma DivDiv(c: int, a: int, b: int)
    requires 0 < a && 0 < b
    ensures c / a / b == c / (a * b)
  {
    var q, r := c / a, c % a;
    var q2, r2 := q / b, q % b;
    MulSplit(a, b, q2, r2);
    assert c == (a * b) * q2 + (a * r2 + r);
    MulBelow(a, r2, b);
    DivUnique(c, a * b, q2, a * r2 + r);
  }

  /** Adding a multiple of d leaves the remainder by d and moves the
      quotient by that multiple. */
  lemma DivAddMultiple(c: int, d: int, y: int)
    requires 0 < d
    ensures (c + d * y) % d == c % d
    ensures (c + d * y) / d == c / d + y
  {
    assert c + d * y == d * (c / d + y) + c % d;
    DivUnique(c + d * y, d, c / d + y, c % d);
  }
}
