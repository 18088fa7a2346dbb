/** A 64-bit key as its eight bytes, the most significant first: the alphabet of ROART. */
module RoartKeys {
  import opened Bits

  const KEY_LEN := 8

  /** The lowest n bytes of x. */
  function LowBytes(x: nat, n: nat): (s: seq<Byte>)
    ensures |s| == n
  {
    if n == 0 then [] else LowBytes(x / 256, n - 1) + [x % 256]
  }

  function Bytes(key: U64): (s: seq<Byte>)
    ensures |s| == KEY_LEN
  {
    LowBytes(key, KEY_LEN)
  }

  lemma {:induction false} LowByteAt(x: nat, n: nat, i: nat)
    requires i < n
    ensures LowBytes(x, n)[i] == Shr(x, (n - 1 - i) * 8) % 256
  {
    if i < n - 1 {
      LowByteAt(x / 256, n - 1, i);
      ShrShr(x, 8, (n - 2 - i) * 8);
      Shr8(x);
    }
  }

  lemma Shr8(x: nat)
    ensures Shr(x, 8) == x / 256
  {
    assert Shr(x, 1) == x / 2 && Shr(x, 2) == x / 4 && Shr(x, 3) == x / 8 && Shr(x, 4) == x / 16;
    assert Shr(x, 5) == x / 32 && Shr(x, 6) == x / 64 && Shr(x, 7) == x / 128;
  }

  /** The loop at the head of put and get: fkey[i] = (key >> ((7 - i) * 8)) & 255 */
  method Fkey(key: U64) returns (fkey: seq<Byte>)
    ensures fkey == Bytes(key)
  {
    fkey := [];
    for i := 0 to KEY_LEN
      invariant |fkey| == i && forall j | 0 <= j < i :: fkey[j] == Bytes(key)[j]
    {
      LowByteAt(key, KEY_LEN, i);
      fkey := fkey + [Shr(key, (7 - i) * 8) % 256];
    }
  }

  lemma {:induction false} LowBytesInjective(x: nat, y: nat, n: nat)
    requires x < Pow256(n) && y < Pow256(n) && LowBytes(x, n) == LowBytes(y, n)
    ensures x == y
  {
    if n > 0 {
      assert LowBytes(x, n)[..n - 1] == LowBytes(x / 256, n - 1) && LowBytes(y, n)[..n - 1] == LowBytes(y / 256, n - 1);
      assert LowBytes(x, n)[n - 1] == x % 256 && LowBytes(y, n)[n - 1] == y % 256;
      LowBytesInjective(x / 256, y / 256, n - 1);
    }
  }

  function Pow256(n: nat): (p: nat)
    ensures p >= 1
  {
    if n == 0 then 1 else 256 * Pow256(n - 1)
  }

  /** Different keys have different bytes. */
  lemma BytesDiffer(x: U64, y: U64)
    requires Bytes(x) == Bytes(y)
    ensures x == y
  {
    AllBytes();
    LowBytesInjective(x, y, KEY_LEN);
  }

  lemma {:induction false} LowBytesOrder(x: nat, y: nat, n: nat, j: nat)
    requires x < Pow256(n) && y < Pow256(n) && j < n
    requires LowBytes(x, n)[..j] == LowBytes(y, n)[..j] && LowBytes(x, n)[j] < LowBytes(y, n)[j]
    ensures x < y
  {
    var dx, dy := LowBytes(x, n), LowBytes(y, n);
    assert dx[..n - 1] == LowBytes(x / 256, n - 1) && dy[..n - 1] == LowBytes(y / 256, n - 1);
    if j == n - 1 {
      LowBytesInjective(x / 256, y / 256, n - 1);
    } else {
      assert dx[..n - 1][..j] == dx[..j] && dy[..n - 1][..j] == dy[..j];
      LowBytesOrder(x / 256, y / 256, n - 1, j);
    }
  }

  /** The first byte that differs decides the order of two keys. */
  lemma BytesOrder(x: U64, y: U64, j: nat)
    requires j < KEY_LEN && Bytes(x)[..j] == Bytes(y)[..j] && Bytes(x)[j] < Bytes(y)[j]
    ensures x < y
  {
    AllBytes();
    LowBytesOrder(x, y, KEY_LEN, j);
  }

  lemma AllBytes()
    ensures Pow256(KEY_LEN) == U64_LIMIT
  {
    assert Pow256(2) == 0x1_0000;
    assert Pow256(4) == 0x1_0000 * 0x1_0000;
    assert Pow256(6) == 0x1_0000 * Pow256(4);
    assert Pow256(8) == 0x1_0000 * Pow256(6);
  }

  // ----- bytes in order -----

  /** Sequences of the same length: the first byte that differs is smaller in a. */
  predicate Less(a: seq<Byte>, b: seq<Byte>)
    requires |a| == |b|
  {
    |a| > 0 && (a[0] < b[0] || (a[0] == b[0] && Less(a[1..], b[1..])))
  }

  lemma {:induction false} LessAt(a: seq<Byte>, b: seq<Byte>) returns (j: nat)
    requires |a| == |b| && Less(a, b)
    ensures j < |a| && a[..j] == b[..j] && a[j] < b[j]
  {
    if a[0] < b[0] {
      j := 0;
    } else {
      j := LessAt(a[1..], b[1..]);
      assert a[..j + 1] == [a[0]] + a[1..][..j] && b[..j + 1] == [b[0]] + b[1..][..j];
      j := j + 1;
    }
  }

  lemma {:induction false} LessFrom(a: seq<Byte>, b: seq<Byte>, j: nat)
    requires |a| == |b| && j < |a| && a[..j] == b[..j] && a[j] < b[j]
    ensures Less(a, b) && !Less(b, a)
  {
    if j > 0 {
      assert a[0] == a[..j][0] == b[..j][0] == b[0];
      assert a[1..][..j - 1] == a[..j][1..] == b[..j][1..] == b[1..][..j - 1];
      LessFrom(a[1..], b[1..], j - 1);
    }
  }

  lemma FirstLess(a: seq<Byte>, b: seq<Byte>, k: nat)
    requires |a| == |b| && k < |a| && a[k] < b[k] && forall i | 0 <= i < k :: a[i] == b[i]
    ensures Less(a, b)
  {
    hide Less;
    assert a[..k] == b[..k];
    LessFrom(a, b, k);
  }

  lemma {:induction false} LessTotal(a: seq<Byte>, b: seq<Byte>)
    requires |a| == |b|
    ensures Less(a, b) || a == b || Less(b, a)
    ensures !Less(a, a) && !(Less(a, b) && Less(b, a))
  {
    if |a| > 0 {
      LessTotal(a[1..], b[1..]);
      assert a == [a[0]] + a[1..] && b == [b[0]] + b[1..];
    }
  }

  /** The front decides, then the rest. */
  lemma {:induction false} LessParts(a: seq<Byte>, b: seq<Byte>, c: seq<Byte>, d: seq<Byte>)
    requires |a| == |c| && |b| == |d|
    ensures Less(a + b, c + d) <==> Less(a, c) || (a == c && Less(b, d))
  {
    if |a| == 0 {
      assert a + b == b && c + d == d;
    } else {
      LessParts(a[1..], b, c[1..], d);
      assert (a + b)[1..] == a[1..] + b && (c + d)[1..] == c[1..] + d;
      assert a == [a[0]] + a[1..] && c == [c[0]] + c[1..];
    }
  }

  /** Keys are in the order of their bytes. */
  lemma KeyOrder(x: U64, y: U64)
    ensures Less(Bytes(x), Bytes(y)) <==> x < y
  {
    hide Bytes;
    hide Less;
    LessTotal(Bytes(x), Bytes(y));
    if Less(Bytes(x), Bytes(y)) {
      var j := LessAt(Bytes(x), Bytes(y));
      BytesOrder(x, y, j);
    } else if Less(Bytes(y), Bytes(x)) {
      var j := LessAt(Bytes(y), Bytes(x));
      BytesOrder(y, x, j);
    } else {
      BytesDiffer(x, y);
    }
  }
}
