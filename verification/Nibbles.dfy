/** A 64-bit key as its sixteen nibbles, the most significant first: the trie's alphabet. */
module Nibbles {
  import opened Bits

  const WORT_NODE_BITS := 4
  const WORT_MAX_DEPTH := 15
  const WORT_MAX_HEIGHT := WORT_MAX_DEPTH + 1

  type Nibble = x: nat | x < 16

  /** The lowest n nibbles of x. */
  function Digits(x: nat, n: nat): (s: seq<Nibble>)
    ensures |s| == n
  {
    if n == 0 then [] else Digits(x / 16, n - 1) + [x % 16]
  }

  function Nibs(key: U64): (s: seq<Nibble>)
    ensures |s| == WORT_MAX_HEIGHT
  {
    Digits(key, WORT_MAX_HEIGHT)
  }

  /** get_index: the shift and mask pick the nibble at a depth. */
  function GetIndex(key: U64, depth: nat): (index: Nibble)
    requires depth <= WORT_MAX_DEPTH
    ensures index == Nibs(key)[depth]
  {
    DigitAt(key, WORT_MAX_HEIGHT, depth);
    Shr(key, (WORT_MAX_DEPTH - depth) * WORT_NODE_BITS) % 16
  }

  lemma {:induction false} DigitAt(x: nat, n: nat, i: nat)
    requires i < n
    ensures Digits(x, n)[i] == Shr(x, (n - 1 - i) * 4) % 16
  {
    if i < n - 1 {
      DigitAt(x / 16, n - 1, i);
      ShrShr(x, 4, (n - 2 - i) * 4);
      Shr4(x);
    }
  }

  lemma Shr4(x: nat)
    ensures Shr(x, 4) == x / 16
  {
    assert Shr(x, 1) == x / 2 && Shr(x, 2) == x / 2 / 2 && Shr(x, 3) == x / 2 / 2 / 2;
  }

  lemma {:induction false} DigitsInjective(x: nat, y: nat, n: nat)
    requires x < Pow16(n) && y < Pow16(n) && Digits(x, n) == Digits(y, n)
    ensures x == y
  {
    if n > 0 {
      assert Digits(x, n)[..n - 1] == Digits(x / 16, n - 1) && Digits(y, n)[..n - 1] == Digits(y / 16, n - 1);
      assert Digits(x, n)[n - 1] == x % 16 && Digits(y, n)[n - 1] == y % 16;
      DigitsInjective(x / 16, y / 16, n - 1);
    }
  }

  function Pow16(n: nat): (p: nat)
    ensures p >= 1
  {
    if n == 0 then 1 else 16 * Pow16(n - 1)
  }

  /** Different keys have different nibbles. */
  lemma NibsInjective(x: U64, y: U64)
    requires Nibs(x) == Nibs(y)
    ensures x == y
  {
    Whole();
    DigitsInjective(x, y, WORT_MAX_HEIGHT);
  }

  lemma Whole()
    ensures Pow16(WORT_MAX_HEIGHT) == U64_LIMIT
  {
    assert Pow16(4) == 0x1_0000;
    assert Pow16(8) == 0x1_0000 * 0x1_0000;
    assert Pow16(12) == 0x1_0000 * Pow16(8);
    assert Pow16(16) == 0x1_0000 * Pow16(12);
  }

  lemma {:induction false} DigitsOrder(x: nat, y: nat, n: nat, j: nat)
    requires x < Pow16(n) && y < Pow16(n) && j < n
    requires Digits(x, n)[..j] == Digits(y, n)[..j] && Digits(x, n)[j] < Digits(y, n)[j]
    ensures x < y
  {
    var dx, dy := Digits(x, n), Digits(y, n);
    assert dx[..n - 1] == Digits(x / 16, n - 1) && dy[..n - 1] == Digits(y / 16, n - 1);
    if j == n - 1 {
      DigitsInjective(x / 16, y / 16, n - 1);
    } else {
      assert dx[..n - 1][..j] == dx[..j] && dy[..n - 1][..j] == dy[..j];
      DigitsOrder(x / 16, y / 16, n - 1, j);
    }
  }

  /** The first nibble that differs decides the order of two keys. */
  lemma NibsOrder(x: U64, y: U64, j: nat)
    requires j < WORT_MAX_HEIGHT && Nibs(x)[..j] == Nibs(y)[..j] && Nibs(x)[j] < Nibs(y)[j]
    ensures x < y
  {
    Whole();
    DigitsOrder(x, y, WORT_MAX_HEIGHT, j);
  }

  /** The number of nibbles two keys share from a depth on. */
  ghost function Shared(p: seq<Nibble>, q: seq<Nibble>, depth: nat): (c: nat)
    requires depth <= |p| == |q|
    ensures depth + c <= |p|
    ensures forall i | depth <= i < depth + c :: p[i] == q[i]
    ensures depth + c < |p| ==> p[depth + c] != q[depth + c]
    decreases |p| - depth
  {
    if depth == |p| || p[depth] != q[depth] then 0 else 1 + Shared(p, q, depth + 1)
  }
}
