/** The compressed-path header of a node. */
module Headers {
  import opened Bits

  const KEY_LENGTH := 64
  const SUBKEY_MAX_BYTES := 4
  const PREFIX_MAX_BYTES := 6
  const INIT_PREFIX_LENGTH := 6   // the marker of a prefix that was never assigned

  type PrefixArray = s: seq<Byte> | |s| == PREFIX_MAX_BYTES witness [0, 0, 0, 0, 0, 0]

  datatype Header = Header(nodeHeaderDepth: nat, prefixLength: nat, prefixArray: PrefixArray)

  /** The 32 bits of a key that begin at a bit position: WRERT_GET_SUBKEY for one subkey. */
  function SubKeyAt(key: U64, startPosition: nat): U32
    requires startPosition <= 32
  {
    Shr(key, KEY_LENGTH - startPosition - 32) % U32_LIMIT
  }

  /** The bits of a key above and below the middle. */
  function High(key: U64): U32 { key / U32_LIMIT }

  function Low(key: U64): U32 { key % U32_LIMIT }

  lemma SubKeysSplit(key: U64)
    ensures SubKeyAt(key, 0) == High(key) && SubKeyAt(key, 32) == Low(key)
    ensures key == High(key) * U32_LIMIT + Low(key)
  {
    Pow2At32();
    ShrUnique(key, 32, High(key));
    ShrUnique(key, 0, key);
  }

  /** Byte j of a subkey, most significant first: (subKey << 32) >> (56 - 8 j) & 0xFF */
  function ByteOf(subKey: U32, j: nat): Byte
    requires j < SUBKEY_MAX_BYTES
  {
    subKey * U32_LIMIT / (match j case 0 => 0x100_0000_0000_0000 case 1 => 0x1_0000_0000_0000
                                  case 2 => 0x100_0000_0000 case _ => 0x1_0000_0000) % 256
  }

  /** WRERT_GET_PREFIX_ARRAY_BITS of the first subkey in the array */
  function PrefixBits(a: PrefixArray): U32 {
    (((a[0] as int) * 256 + a[1]) * 256 + a[2]) * 256 + a[3]
  }

  lemma BytesOfSubKey(subKey: U32)
    ensures (((ByteOf(subKey, 0) as int) * 256 + ByteOf(subKey, 1)) * 256 + ByteOf(subKey, 2)) * 256 + ByteOf(subKey, 3) == subKey
  {
    var q0, q1, q2 := subKey / 0x100_0000, subKey / 0x1_0000, subKey / 0x100;
    assert ByteOf(subKey, 0) == q0 % 256 && q0 < 256;
    assert ByteOf(subKey, 1) == q1 % 256;
    assert ByteOf(subKey, 2) == q2 % 256;
    assert ByteOf(subKey, 3) == subKey % 256;
    hide ByteOf;
    assert q1 / 256 == q0;
    assert q2 / 256 == q1;
    assert subKey / 256 == q2;
  }

  /** Two subkeys with the same four bytes are equal. */
  lemma BytesInjective(a: PrefixArray, subKey: U32)
    ensures PrefixBits(a) == subKey <==> forall j | 0 <= j < SUBKEY_MAX_BYTES :: a[j] == ByteOf(subKey, j)
  {
    hide ByteOf;
    BytesOfSubKey(subKey);
    var b0, b1, b2, b3 := ByteOf(subKey, 0), ByteOf(subKey, 1), ByteOf(subKey, 2), ByteOf(subKey, 3);
    if PrefixBits(a) == subKey {
      assert a[0] == b0 && a[1] == b1 && a[2] == b2 && a[3] == b3;
    }
  }

  /** WRERTHeader::initialize: a prefix that was never assigned is not copied. */
  function InitHeader(oldArray: PrefixArray, prefixLength: nat, nodeHeaderDepth: nat): Header {
    Header(nodeHeaderDepth, prefixLength,
           if prefixLength == INIT_PREFIX_LENGTH then [0, 0, 0, 0, 0, 0]
           else seq(PREFIX_MAX_BYTES, j requires 0 <= j < PREFIX_MAX_BYTES => if j < prefixLength * SUBKEY_MAX_BYTES then oldArray[j] else 0))
  }

  /** WRERTHeader::assignPrefix, for a prefix of one subkey */
  method AssignPrefix(h: Header, key: U64, startPosition: nat) returns (r: Header)
    requires h.prefixLength == 1 && startPosition <= 32
    ensures r == h.(prefixArray := r.prefixArray) && PrefixBits(r.prefixArray) == SubKeyAt(key, startPosition)
  {
    hide Shr;
    var subKey := SubKeyAt(key, startPosition);
    r := h.(prefixArray := [ByteOf(subKey, 0), ByteOf(subKey, 1), ByteOf(subKey, 2), ByteOf(subKey, 3), 0, 0]);
    BytesOfSubKey(subKey);
  }

  /** WRERTHeader::computePrefix: the number of prefix subkeys the key matches, or -1 for a fresh header. */
  method ComputePrefix(h: Header, key: U64, startPosition: nat) returns (m: int)
    requires h.prefixLength == INIT_PREFIX_LENGTH || h.prefixLength <= 1
    requires h.prefixLength == 1 ==> startPosition <= 32
    ensures h.prefixLength == INIT_PREFIX_LENGTH ==> m == -1
    ensures h.prefixLength == 0 ==> m == 0
    ensures h.prefixLength == 1 ==> m == if PrefixBits(h.prefixArray) == SubKeyAt(key, startPosition) then 1 else 0
  {
    hide Shr;
    if h.prefixLength == INIT_PREFIX_LENGTH {
      return -1;
    }
    if h.prefixLength == 0 {
      return 0;
    }
    var subKey := SubKeyAt(key, startPosition);
    var j, flag := 0, 0;
    while j < SUBKEY_MAX_BYTES
      invariant 0 <= j == flag <= SUBKEY_MAX_BYTES
      invariant forall x | 0 <= x < j :: h.prefixArray[x] == ByteOf(subKey, x)
    {
      if ByteOf(subKey, j) != h.prefixArray[j] {
        break;
      }
      flag := flag + 1;
      j := j + 1;
    }
    BytesInjective(h.prefixArray, subKey);
    m := if flag == SUBKEY_MAX_BYTES then 1 else 0;
  }

  /** The old node's prefix array after its first subkey was moved to the new root above it. */
  function ShiftPrefix(a: PrefixArray): PrefixArray {
    [a[4], a[5], 0, 0, a[4], a[5]]
  }
}
