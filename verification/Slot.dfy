/**
 The slot of a bucket: its bit-fields, the 64-bit word they are packed into, and the
 8-lane searches over the sixteen slots of a bucket.
 */
module Slots {
  import opened Bits
  import opened Options

  const SLOTS_PER_BUCKET := 16
  const LANES := 8

  type Version = x: int | -256 <= x < 256   // a signed 9-bit field
  type U16 = x: nat | x < 0x1_0000

  datatype Slot = Slot(subKey: U32, migVersion: Version, validFlag: bool, nodeFlag: bool,
                       fingerprint: U16, value: U48)
  datatype Entry = Entry(value: U48, nodeFlag: bool)

  type Bucket = bk: seq<Slot> | |bk| == SLOTS_PER_BUCKET witness ZeroBucket()

  const ZERO_SLOT := Slot(0, 0, false, false, 0, 0)

  /** A bucket in fresh memory. */
  function ZeroBucket(): (bk: seq<Slot>)
    ensures |bk| == SLOTS_PER_BUCKET
    ensures forall j | 0 <= j < SLOTS_PER_BUCKET :: bk[j] == ZERO_SLOT
  {
    seq(SLOTS_PER_BUCKET, _ => ZERO_SLOT)
  }

  function EntryOf(s: Slot): Entry {
    Entry(s.value, s.nodeFlag)
  }

  predicate Live(s: Slot, ver: Version) {
    s.validFlag && s.migVersion == ver
  }

  predicate IsAt(s: Slot, ver: Version, k: U32) {
    Live(s, ver) && s.subKey == k
  }

  // ----- the packed word and its masks -----

  function Bit(b: bool): nat {
    if b then 1 else 0
  }

  /** The first 64-bit word of a slot: subKey, migVersion, validFlag, nodeFlag, fingerprint. */
  function Word(s: Slot): U64 {
    s.subKey + (s.migVersion % 0x200) * 0x1_0000_0000 + Bit(s.validFlag) * 0x200_0000_0000
    + Bit(s.nodeFlag) * 0x400_0000_0000 + s.fingerprint * 0x800_0000_0000
  }

  /** word & 0x00000000FFFFFFFF */
  function MaskSubKey(w: nat): nat { w % 0x1_0000_0000 }

  /** word & 0x000003FF00000000 */
  function MaskValidVersion(w: nat): nat { w / 0x1_0000_0000 % 0x400 * 0x1_0000_0000 }

  /** word & 0x000003FFFFFFFFFF */
  function MaskValidVersionSubKey(w: nat): nat { w % 0x400_0000_0000 }

  /** (word & 0x000000FF00000000) >> 32: only eight of the nine version bits */
  function MaskVersion8(w: nat): nat { w / 0x1_0000_0000 % 0x100 }

  /** (1 << 41) | ((ver & 0x1FF) << 32) */
  function ValidVersionTarget(ver: Version): nat {
    0x200_0000_0000 + ver % 0x200 * 0x1_0000_0000
  }

  /** The masked comparisons of the searches decide exactly the tests on the fields. */
  lemma MasksDecide(s: Slot, ver: Version, k: U32)
    ensures MaskSubKey(Word(s)) == k <==> s.subKey == k
    ensures MaskValidVersion(Word(s)) == ValidVersionTarget(ver) <==> Live(s, ver)
    ensures MaskValidVersionSubKey(Word(s)) == ValidVersionTarget(ver) + k <==> IsAt(s, ver, k)
    ensures MaskVersion8(Word(s)) == s.migVersion % 0x100
  {
    var v, hi := s.migVersion % 0x200, Bit(s.nodeFlag) + 2 * s.fingerprint;
    Fields(s.subKey, v, Bit(s.validFlag), hi);
    assert Word(s) == Packed(s.subKey, v, Bit(s.validFlag), hi);
    VersionLowBits(s.migVersion, ver);
  }

  function Packed(sub: nat, v: nat, b: nat, hi: nat): nat {
    sub + 0x1_0000_0000 * (v + 0x200 * b + 0x400 * hi)
  }

  lemma Fields(sub: U32, v: nat, b: nat, hi: nat)
    requires v < 0x200 && b < 2
    ensures Packed(sub, v, b, hi) % 0x1_0000_0000 == sub
    ensures Packed(sub, v, b, hi) / 0x1_0000_0000 % 0x400 == v + 0x200 * b
    ensures Packed(sub, v, b, hi) / 0x1_0000_0000 % 0x100 == v % 0x100
    ensures Packed(sub, v, b, hi) % 0x400_0000_0000 == sub + 0x1_0000_0000 * (v + 0x200 * b)
  {
    assert Packed(sub, v, b, hi) / 0x1_0000_0000 == v + 0x200 * b + 0x400 * hi;
    assert Packed(sub, v, b, hi) == sub + 0x1_0000_0000 * (v + 0x200 * b) + 0x400_0000_0000 * hi;
  }

  lemma VersionLowBits(a: Version, b: Version)
    ensures a % 0x200 == b % 0x200 <==> a == b
    ensures (a % 0x200) % 0x100 == a % 0x100
  {
  }

  // ----- lane masks -----

  type LaneMask = m: seq<bool> | |m| == LANES witness seq(LANES, _ => false)

  /** The first words of eight consecutive slots. */
  function Lanes(bk: Bucket, base: nat): (ws: seq<int>)
    requires base <= LANES
    ensures |ws| == LANES
    ensures forall i | 0 <= i < LANES :: ws[i] == Word(bk[base + i])
  {
    seq(LANES, i requires 0 <= i < LANES => Word(bk[base + i]))
  }

  function CompareEq(ws: seq<int>, target: int): (m: LaneMask)
    requires |ws| == LANES
    ensures forall i | 0 <= i < LANES :: m[i] == (ws[i] == target)
  {
    seq(LANES, i requires 0 <= i < LANES => ws[i] == target)
  }

  function Not(m: LaneMask): (r: LaneMask)
    ensures forall i | 0 <= i < LANES :: r[i] == !m[i]
  {
    seq(LANES, i requires 0 <= i < LANES => !m[i])
  }

  function Masked(ws: seq<int>, mask: nat -> nat): (r: seq<int>)
    requires |ws| == LANES && forall i | 0 <= i < LANES :: ws[i] >= 0
    ensures |r| == LANES && forall i | 0 <= i < LANES :: r[i] == mask(ws[i])
  {
    seq(LANES, i requires 0 <= i < LANES => mask(ws[i]))
  }

  predicate Any(m: LaneMask) {
    exists i | 0 <= i < LANES :: m[i]
  }

  /** Lanes whose slot is live at a version. */
  function LiveLanes(bk: Bucket, base: nat, ver: Version): (m: LaneMask)
    requires base <= LANES
    ensures forall i | 0 <= i < LANES :: m[i] == Live(bk[base + i], ver)
  {
    var ws := Lanes(bk, base);
    assert forall i | 0 <= i < LANES :: (MaskValidVersion(ws[i]) == ValidVersionTarget(ver)) == Live(bk[base + i], ver) by {
      forall i | 0 <= i < LANES
        ensures MaskValidVersion(ws[i]) == ValidVersionTarget(ver) <==> Live(bk[base + i], ver)
      {
        MasksDecide(bk[base + i], ver, 0);
      }
    }
    CompareEq(Masked(ws, MaskValidVersion), ValidVersionTarget(ver))
  }

  /** Lanes whose slot carries a subkey, live or not. */
  function KeyLanes(bk: Bucket, base: nat, k: U32): (m: LaneMask)
    requires base <= LANES
    ensures forall i | 0 <= i < LANES :: m[i] == (bk[base + i].subKey == k)
  {
    var ws := Lanes(bk, base);
    assert forall i | 0 <= i < LANES :: (MaskSubKey(ws[i]) == k) == (bk[base + i].subKey == k) by {
      forall i | 0 <= i < LANES ensures MaskSubKey(ws[i]) == k <==> bk[base + i].subKey == k {
        MasksDecide(bk[base + i], 0, k);
      }
    }
    CompareEq(Masked(ws, MaskSubKey), k)
  }

  /** Lanes whose slot holds a subkey live. */
  function HitLanes(bk: Bucket, base: nat, ver: Version, k: U32): (m: LaneMask)
    requires base <= LANES
    ensures forall i | 0 <= i < LANES :: m[i] == IsAt(bk[base + i], ver, k)
  {
    var ws := Lanes(bk, base);
    assert forall i | 0 <= i < LANES :: (MaskValidVersionSubKey(ws[i]) == ValidVersionTarget(ver) + k) == IsAt(bk[base + i], ver, k) by {
      forall i | 0 <= i < LANES
        ensures MaskValidVersionSubKey(ws[i]) == ValidVersionTarget(ver) + k <==> IsAt(bk[base + i], ver, k)
      {
        MasksDecide(bk[base + i], ver, k);
      }
    }
    CompareEq(Masked(ws, MaskValidVersionSubKey), ValidVersionTarget(ver) + k)
  }

  /** Lanes whose slot's eight low version bits are not the given ones, valid or not. */
  function OtherVersionLanes(bk: Bucket, base: nat, ver8: nat): (m: LaneMask)
    requires base <= LANES
    ensures forall i | 0 <= i < LANES :: m[i] == (bk[base + i].migVersion % 0x100 != ver8)
  {
    var ws := Lanes(bk, base);
    assert forall i | 0 <= i < LANES :: MaskVersion8(ws[i]) == bk[base + i].migVersion % 0x100 by {
      forall i | 0 <= i < LANES ensures MaskVersion8(ws[i]) == bk[base + i].migVersion % 0x100 {
        MasksDecide(bk[base + i], 0, 0);
      }
    }
    Not(CompareEq(Masked(ws, MaskVersion8), ver8))
  }

  /** __builtin_ctz: the lowest set lane */
  function Ctz(m: LaneMask, from: nat := 0): (r: nat)
    requires from <= LANES && exists i | from <= i < LANES :: m[i]
    ensures from <= r < LANES && m[r]
    ensures forall i | from <= i < r :: !m[i]
    decreases LANES - from
  {
    if m[from] then from else Ctz(m, from + 1)
  }

  /** 31 - __builtin_clz: the highest set lane */
  function Highest(m: LaneMask, upto: nat := LANES): (r: nat)
    requires upto <= LANES
    requires exists i | 0 <= i < upto :: m[i]
    ensures r < upto && m[r]
    ensures forall i | r < i < upto :: !m[i]
  {
    if m[upto - 1] then upto - 1 else Highest(m, upto - 1)
  }

  // ----- scalar search: the specification -----

  /** The first slot from j on that holds k live, or the bucket's size. */
  function Find(bk: seq<Slot>, ver: Version, k: U32, j: nat := 0): (r: nat)
    requires j <= |bk|
    ensures j <= r <= |bk|
    ensures r < |bk| ==> IsAt(bk[r], ver, k)
    ensures forall i | j <= i < r :: !IsAt(bk[i], ver, k)
    decreases |bk| - j
  {
    if j == |bk| then j else if IsAt(bk[j], ver, k) then j else Find(bk, ver, k, j + 1)
  }

  /** What a bucket read at a version says about a subkey. */
  function BucketLookup(bk: seq<Slot>, ver: Version, k: U32): Option<Entry> {
    var j := Find(bk, ver, k);
    if j < |bk| then Some(EntryOf(bk[j])) else None
  }

  datatype SearchResult = Found(index: nat) | Free(index: nat) | Full

  /** The slot loop: stop at the key, or at the first slot that is not live. */
  function ScanSlots(bk: Bucket, ver: Version, k: U32, j: nat): SearchResult
    requires j <= SLOTS_PER_BUCKET
    decreases SLOTS_PER_BUCKET - j
  {
    if j == SLOTS_PER_BUCKET then Full
    else if Live(bk[j], ver) then (if bk[j].subKey == k then Found(j) else ScanSlots(bk, ver, k, j + 1))
    else Free(j)
  }

  ghost predicate LivePrefix(bk: seq<Slot>, ver: Version) {
    forall i, j | 0 <= i < j < |bk| :: Live(bk[j], ver) ==> Live(bk[i], ver)
  }

  lemma {:induction false} ScanOver(bk: Bucket, ver: Version, k: U32, j: nat, n: nat)
    requires j <= n <= SLOTS_PER_BUCKET
    requires forall i | j <= i < n :: Live(bk[i], ver) && bk[i].subKey != k
    ensures ScanSlots(bk, ver, k, j) == ScanSlots(bk, ver, k, n)
    decreases n - j
  {
    if j < n {
      ScanOver(bk, ver, k, j + 1, n);
    }
  }

  /** What a search answer says about the bucket. */
  ghost predicate Answers(r: SearchResult, bk: Bucket, ver: Version, k: U32) {
    && (r.Found? ==> r.index < SLOTS_PER_BUCKET && r.index == Find(bk, ver, k))
    && (!r.Found? ==> BucketLookup(bk, ver, k) == None)
    && (r.Free? ==> r.index < SLOTS_PER_BUCKET && forall i | 0 <= i < SLOTS_PER_BUCKET :: Live(bk[i], ver) <==> i < r.index)
    && (r.Full? ==> forall i | 0 <= i < SLOTS_PER_BUCKET :: Live(bk[i], ver))
  }

  /** The slot loop finds the key exactly if it is live, and otherwise the end of the live prefix. */
  lemma {:induction false} ScanMeaning(bk: Bucket, ver: Version, k: U32, j: nat := 0)
    requires LivePrefix(bk, ver) && j <= SLOTS_PER_BUCKET
    requires forall i | 0 <= i < j :: Live(bk[i], ver) && bk[i].subKey != k
    ensures Answers(ScanSlots(bk, ver, k, j), bk, ver, k)
    decreases SLOTS_PER_BUCKET - j
  {
    if j < SLOTS_PER_BUCKET && Live(bk[j], ver) && bk[j].subKey != k {
      ScanMeaning(bk, ver, k, j + 1);
    }
  }

  // ----- grouped searches -----

  /** One group of eight lanes in the tree's insert; None means go on with the next group. */
  method SearchGroup(bk: Bucket, ver: Version, k: U32, base: nat) returns (r: Option<SearchResult>)
    requires base <= LANES && LivePrefix(bk, ver)
    ensures r.Some? ==> r.value == ScanSlots(bk, ver, k, base)
    ensures r == None ==> forall i | base <= i < base + LANES :: Live(bk[i], ver) && bk[i].subKey != k
  {
    var matchMask, keyMask := LiveLanes(bk, base, ver), KeyLanes(bk, base, k);
    var badMask := Not(matchMask);
    GroupAsScan(bk, ver, k, base, matchMask, keyMask, badMask);
    if Any(matchMask) {
      if Any(keyMask) {
        var x, y := Ctz(keyMask), Highest(matchMask);
        if x <= y {
          return Some(Found(base + x));
        } else {
          assert badMask[x];
          return Some(Free(base + Ctz(badMask)));
        }
      }
      if Any(badMask) {
        return Some(Free(base + Ctz(badMask)));
      }
      r := None;
    } else {
      r := Some(Free(base));
    }
  }

  /** Over a live prefix, comparing the lowest key lane with the highest live lane is the slot loop. */
  lemma GroupAsScan(bk: Bucket, ver: Version, k: U32, base: nat, live: LaneMask, key: LaneMask, bad: LaneMask)
    requires base <= LANES && LivePrefix(bk, ver)
    requires forall i | 0 <= i < LANES :: live[i] == Live(bk[base + i], ver)
    requires forall i | 0 <= i < LANES :: key[i] == (bk[base + i].subKey == k)
    requires forall i | 0 <= i < LANES :: bad[i] == !live[i]
    ensures Any(live) && Any(key) && Ctz(key) <= Highest(live)
            ==> ScanSlots(bk, ver, k, base) == Found(base + Ctz(key))
    ensures Any(bad)
            && (Any(live) && Any(key) ==> Highest(live) < Ctz(key))
            ==> ScanSlots(bk, ver, k, base) == Free(base + Ctz(bad))
    ensures !Any(live) ==> ScanSlots(bk, ver, k, base) == Free(base)
    ensures !Any(bad) && !Any(key)
            ==> forall i | base <= i < base + LANES :: Live(bk[i], ver) && bk[i].subKey != k
  {
    hide ScanSlots;
    if Any(live) {
      var y := Highest(live);
      assert forall i | base <= i <= base + y :: Live(bk[i], ver);
      if Any(key) {
        var x := Ctz(key);
        assert forall i | base <= i < base + x :: bk[i].subKey != k by {
          forall i | base <= i < base + x ensures bk[i].subKey != k { assert !key[i - base]; }
        }
        if x <= y {
          ScanOver(bk, ver, k, base, base + x);
          ScanFound(bk, ver, k, base + x);
        }
      }
    }
    if Any(bad) {
      BadEnds(bk, ver, k, base, live, key, bad);
    }
    if !Any(live) {
      assert !live[0];
      ScanFree(bk, ver, k, base);
    }
    if !Any(bad) && !Any(key) {
      forall i | base <= i < base + LANES ensures Live(bk[i], ver) && bk[i].subKey != k {
        assert !bad[i - base] && !key[i - base];
      }
    }
  }

  lemma ScanFound(bk: Bucket, ver: Version, k: U32, i: nat)
    requires i < SLOTS_PER_BUCKET && Live(bk[i], ver) && bk[i].subKey == k
    ensures ScanSlots(bk, ver, k, i) == Found(i)
  {
  }

  lemma ScanFree(bk: Bucket, ver: Version, k: U32, i: nat)
    requires i < SLOTS_PER_BUCKET && !Live(bk[i], ver)
    ensures ScanSlots(bk, ver, k, i) == Free(i)
  {
  }

  lemma BadEnds(bk: Bucket, ver: Version, k: U32, base: nat, live: LaneMask, key: LaneMask, bad: LaneMask)
    requires base <= LANES && LivePrefix(bk, ver)
    requires forall i | 0 <= i < LANES :: live[i] == Live(bk[base + i], ver)
    requires forall i | 0 <= i < LANES :: key[i] == (bk[base + i].subKey == k)
    requires forall i | 0 <= i < LANES :: bad[i] == !live[i]
    requires Any(bad)
    ensures (Any(live) && Any(key) ==> Highest(live) < Ctz(key))
            ==> ScanSlots(bk, ver, k, base) == Free(base + Ctz(bad))
  {
    hide ScanSlots;
    var z := Ctz(bad);
    assert bad[z] && !live[z];
    ScanFree(bk, ver, k, base + z);
    if Any(live) && Any(key) ==> Highest(live) < Ctz(key) {
      forall i | base <= i < base + z ensures Live(bk[i], ver) && bk[i].subKey != k {
        assert !bad[i - base];
        assert live[i - base];
        assert i - base <= Highest(live);
        assert !key[i - base];
      }
      ScanOver(bk, ver, k, base, base + z);
    }
  }

  /** The 8-lane search of the tree's insert; the live-prefix invariant makes it the slot loop. */
  method SearchForInsert(bk: Bucket, ver: Version, k: U32) returns (r: SearchResult)
    requires LivePrefix(bk, ver)
    ensures r == ScanSlots(bk, ver, k, 0)
  {
    var base := 0;
    while base < SLOTS_PER_BUCKET
      invariant base == 0 || base == 8 || base == 16
      invariant ScanSlots(bk, ver, k, 0) == ScanSlots(bk, ver, k, base)
      decreases SLOTS_PER_BUCKET - base
    {
      var g := SearchGroup(bk, ver, k, base);
      if g.Some? {
        return g.value;
      }
      ScanOver(bk, ver, k, base, base + LANES);
      base := base + LANES;
    }
    r := Full;
  }

  /** The search of putSegNode: the first slot whose eight low version bits differ. */
  method SearchVersion(bk: Bucket, ver8: nat) returns (j: nat)
    requires ver8 < 256
    ensures j <= SLOTS_PER_BUCKET
    ensures forall i | 0 <= i < j :: bk[i].migVersion % 0x100 == ver8
    ensures j < SLOTS_PER_BUCKET ==> bk[j].migVersion % 0x100 != ver8
  {
    var base := 0;
    while base < SLOTS_PER_BUCKET
      invariant base == 0 || base == 8 || base == 16
      invariant forall i | 0 <= i < base :: bk[i].migVersion % 0x100 == ver8
      decreases SLOTS_PER_BUCKET - base
    {
      var otherMask := OtherVersionLanes(bk, base, ver8);
      if Any(otherMask) {
        j := Ctz(otherMask);
        forall i | 0 <= i < base + j ensures bk[i].migVersion % 0x100 == ver8 {
          if base <= i { assert !otherMask[i - base]; }
        }
        return base + j;
      }
      forall i | 0 <= i < base + 8 ensures bk[i].migVersion % 0x100 == ver8 {
        if base <= i { assert !otherMask[i - base]; }
      }
      base := base + 8;
    }
    j := SLOTS_PER_BUCKET;
  }

  datatype Hit = SharedHit(index: nat) | MainHit(index: nat) | NoHit

  /** The search of getSegNode: both buckets, eight slots of each at a time. */
  method SearchBoth(shared: Bucket, main: Bucket, sharedVer: Version, mainVer: Version, k: U32) returns (r: Hit)
    ensures r.SharedHit? ==> r.index == Find(shared, sharedVer, k) < SLOTS_PER_BUCKET
    ensures r.MainHit? ==> r.index == Find(main, mainVer, k) < SLOTS_PER_BUCKET
    ensures r.NoHit? ==> Find(shared, sharedVer, k) == Find(main, mainVer, k) == SLOTS_PER_BUCKET
  {
    var base := 0;
    while base < SLOTS_PER_BUCKET
      invariant base == 0 || base == 8 || base == 16
      invariant Find(shared, sharedVer, k) >= base && Find(main, mainVer, k) >= base
      decreases SLOTS_PER_BUCKET - base
    {
      var maskShared, maskMain := HitLanes(shared, base, sharedVer, k), HitLanes(main, base, mainVer, k);
      FirstInGroup(shared, sharedVer, k, base, maskShared);
      FirstInGroup(main, mainVer, k, base, maskMain);
      if Any(maskShared) {
        return SharedHit(base + Ctz(maskShared));
      } else if Any(maskMain) {
        return MainHit(base + Ctz(maskMain));
      }
      base := base + 8;
    }
    r := NoHit;
  }

  lemma FirstInGroup(bk: Bucket, ver: Version, k: U32, base: nat, m: LaneMask)
    requires base <= LANES && base <= Find(bk, ver, k)
    requires forall i | 0 <= i < LANES :: m[i] == IsAt(bk[base + i], ver, k)
    ensures Any(m) ==> Find(bk, ver, k) == base + Ctz(m)
    ensures !Any(m) ==> Find(bk, ver, k) >= base + LANES
  {
    var f := Find(bk, ver, k);
    if Any(m) {
      var c := Ctz(m);
      forall i | base <= i < base + c ensures !IsAt(bk[i], ver, k) {
        assert !m[i - base];
      }
      assert IsAt(bk[base + c], ver, k);
    } else {
      forall i | base <= i < base + LANES ensures !IsAt(bk[i], ver, k) {
        assert !m[i - base];
      }
    }
  }
}
