/** Shifts and powers of two on natural numbers, as the index macros use them. */
module Bits {

  const U32_LIMIT := 0x1_0000_0000
  const U48_LIMIT := 0x1_0000_0000_0000
  const U64_LIMIT := 0x1_0000_0000_0000_0000

  type Byte = x: nat | x < 256
  type U32 = x: nat | x < U32_LIMIT
  type U48 = x: nat | x < U48_LIMIT
  type U64 = x: nat | x < U64_LIMIT

  function Pow2(n: nat): (r: nat)
    ensures r >= 1
  {
    if n == 0 then 1 else 2 * Pow2(n - 1)
  }

  /** x >> n */
  function Shr(x: nat, n: nat): nat {
    if n == 0 then x else Shr(x, n - 1) / 2
  }

  lemma ShrSmall(x: nat)
    ensures Shr(x, 0) == x && Shr(x, 1) == x / 2
  {
  }

  /** A shifted number names the aligned interval the number lies in. */
  lemma {:induction false} ShrInterval(x: nat, n: nat)
    ensures Shr(x, n) * Pow2(n) <= x < (Shr(x, n) + 1) * Pow2(n)
  {
    if n > 0 {
      ShrInterval(x, n - 1);
      HalfInterval(x, Shr(x, n - 1), Pow2(n - 1));
    }
  }

  lemma HalfInterval(x: nat, q: nat, p: nat)
    requires q * p <= x < (q + 1) * p
    ensures q / 2 * (2 * p) <= x < (q / 2 + 1) * (2 * p)
  {
    var r := q / 2;
    MulMono(2 * r, q, p);
    MulMono(q + 1, 2 * r + 2, p);
    assert (2 * r) * p == r * (2 * p);
    assert (2 * r + 2) * p == (r + 1) * (2 * p);
  }

  lemma MulMono(a: nat, b: nat, p: nat)
    requires a <= b
    ensures a * p <= b * p
  {
  }

  /** The interval determines the shifted number. */
  lemma ShrUnique(x: nat, n: nat, q: nat)
    requires q * Pow2(n) <= x < (q + 1) * Pow2(n)
    ensures Shr(x, n) == q
  {
    ShrInterval(x, n);
    var r := Shr(x, n);
    if r < q {
      MulMono(r + 1, q, Pow2(n));
    } else if q < r {
      MulMono(q + 1, r, Pow2(n));
    }
  }

  lemma {:induction false} ShrShr(x: nat, a: nat, b: nat)
    ensures Shr(Shr(x, a), b) == Shr(x, a + b)
  {
    if b > 0 {
      ShrShr(x, a, b - 1);
    }
  }

  lemma {:induction false} ShrHalf(x: nat, n: nat)
    ensures Shr(x / 2, n) == Shr(x, n + 1)
  {
    ShrShr(x, 1, n);
    assert Shr(x, 1) == Shr(x, 0) / 2 == x / 2;
  }

  lemma Pow2Step(n: nat)
    ensures Pow2(n + 1) == 2 * Pow2(n)
  {
  }

  lemma Pow2Sum(a: nat, b: nat)
    ensures Pow2(a + b) == Pow2(a) * Pow2(b)
  {
    if a > 0 {
      Pow2Sum(a - 1, b);
      assert Pow2(a + b) == 2 * Pow2((a - 1) + b);
    }
  }

  lemma Pow2At32()
    ensures Pow2(4) == 16 && Pow2(5) == 32 && Pow2(32) == U32_LIMIT
  {
    assert Pow2(4) == 16 && Pow2(5) == 32;
    assert Pow2(8) == 256;
    Pow2Sum(8, 8);
    Pow2Sum(16, 16);
  }

  lemma {:induction false} Pow2Mono(a: nat, b: nat)
    requires a <= b
    ensures Pow2(a) <= Pow2(b)
    decreases b
  {
    if a < b {
      Pow2Mono(a, b - 1);
    }
  }

  /** The n most significant of a subkey's 32 bits. */
  function Top(k: U32, n: nat): nat
    requires n <= 32
  {
    Shr(k, 32 - n)
  }

  lemma TopStep(k: U32, n: nat)
    requires n < 32
    ensures Top(k, n) == Top(k, n + 1) / 2
  {
  }

  lemma TopBound(k: U32, n: nat)
    requires n <= 32
    ensures Top(k, n) < Pow2(n)
  {
    ShrInterval(k, 32 - n);
    Pow2At32();
    Pow2Sum(n, 32 - n);
    if Top(k, n) >= Pow2(n) {
      MulMono(Pow2(n), Top(k, n), Pow2(32 - n));
    }
  }

  lemma TopShr(k: U32, m: nat, n: nat)
    requires m <= n <= 32
    ensures Shr(Top(k, n), n - m) == Top(k, m)
  {
    ShrShr(k, 32 - n, n - m);
  }
}
