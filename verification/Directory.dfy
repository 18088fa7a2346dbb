/**
 The directory of a node: which entries share a segment, and how a split or a doubling of the
 directory re-links them.
 */
module Directory {
  import opened Bits
  import opened Counting
  import opened Options
  import opened Slots
  import opened Segments
  import opened Splits
  import opened SplitMethods

  /** The stored form of a shared bucket offset: 0, or the offset less one. */
  type StoredOffset = e: nat | e == 0 || e == 15 || e == 31

  function Decode(e: StoredOffset): Offset {
    if e == 0 then 0 else e + 1
  }

  function Encode(offset: Offset): (e: StoredOffset)
    ensures Decode(e) == offset
  {
    if offset == 0 then 0 else offset - 1
  }

  datatype SegmentNode = SegmentNode(localDepth: nat, sharedBucketOffset: StoredOffset, segmentPtr: Segment)

  /**
   Entries i and j hold the same segment exactly if they agree on the segment's localDepth top bits,
   and then the two entries are equal.
   */
  ghost predicate Linked(d: seq<SegmentNode>, globalDepth: nat) {
    && (forall i | 0 <= i < |d| :: d[i].localDepth <= globalDepth)
    && (forall i, j | 0 <= i < |d| && 0 <= j < |d| ::
         d[i].segmentPtr == d[j].segmentPtr <==> SameGroup(i, j, globalDepth - d[i].localDepth))
    && (forall i, j | 0 <= i < |d| && 0 <= j < |d| :: d[i].segmentPtr == d[j].segmentPtr ==> d[i] == d[j])
  }

  /** Directory indices that differ in their n low bits only. */
  predicate SameGroup(i: nat, j: nat, n: nat) {
    Shr(i, n) == Shr(j, n)
  }

  /** The directory after the segment at entry i was split into seg (lower half) and newSeg. */
  ghost predicate Relinked(d: seq<SegmentNode>, d': seq<SegmentNode>, globalDepth: nat, i: nat, newSeg: Segment, low: StoredOffset, high: StoredOffset)
    requires i < |d| && d[i].localDepth < globalDepth
  {
    && |d'| == |d|
    && forall y | 0 <= y < |d| :: d'[y] == RelinkedEntry(d, globalDepth, i, newSeg, low, high, y)
  }

  ghost function RelinkedEntry(d: seq<SegmentNode>, globalDepth: nat, i: nat, newSeg: Segment, low: StoredOffset, high: StoredOffset, y: nat): SegmentNode
    requires i < |d| && y < |d| && d[i].localDepth < globalDepth
  {
    var n := globalDepth - d[i].localDepth;
    if !SameGroup(y, i, n) then d[y]
    else if Shr(y, n - 1) == 2 * Shr(i, n) then SegmentNode(d[i].localDepth + 1, low, d[i].segmentPtr)
    else SegmentNode(d[i].localDepth + 1, high, newSeg)
  }

  lemma RelinkedLinked(d: seq<SegmentNode>, d': seq<SegmentNode>, globalDepth: nat, i: nat, newSeg: Segment, low: StoredOffset, high: StoredOffset)
    requires Linked(d, globalDepth) && i < |d| && d[i].localDepth < globalDepth
    requires Relinked(d, d', globalDepth, i, newSeg, low, high)
    requires forall y | 0 <= y < |d| :: d[y].segmentPtr != newSeg
    ensures Linked(d', globalDepth)
  {
    hide Shr;
    forall y, z | 0 <= y < |d| && 0 <= z < |d|
      ensures d'[y].segmentPtr == d'[z].segmentPtr <==> SameGroup(y, z, globalDepth - d'[y].localDepth)
      ensures d'[y].segmentPtr == d'[z].segmentPtr ==> d'[y] == d'[z]
    {
      RelinkedPair(d, d', globalDepth, i, newSeg, low, high, y, z);
    }
  }

  lemma RelinkedPair(d: seq<SegmentNode>, d': seq<SegmentNode>, globalDepth: nat, i: nat, newSeg: Segment, low: StoredOffset, high: StoredOffset, y: nat, z: nat)
    requires Linked(d, globalDepth) && i < |d| && d[i].localDepth < globalDepth && y < |d| && z < |d|
    requires Relinked(d, d', globalDepth, i, newSeg, low, high)
    requires forall y | 0 <= y < |d| :: d[y].segmentPtr != newSeg
    ensures d'[y].segmentPtr == d'[z].segmentPtr <==> SameGroup(y, z, globalDepth - d'[y].localDepth)
    ensures d'[y].segmentPtr == d'[z].segmentPtr ==> d'[y] == d'[z]
  {
    hide Shr;
    var n := globalDepth - d[i].localDepth;
    HalvesOf(y, i, n);
    HalvesOf(z, i, n);
    assert d[i].segmentPtr == d[y].segmentPtr <==> SameGroup(i, y, n);
    assert d[i].segmentPtr == d[z].segmentPtr <==> SameGroup(i, z, n);
    assert d[y].segmentPtr == d[z].segmentPtr <==> SameGroup(y, z, globalDepth - d[y].localDepth);
  }

  /** A group falls into two halves. */
  lemma HalvesOf(y: nat, i: nat, n: nat)
    requires n > 0
    ensures SameGroup(y, i, n) <==> Shr(y, n - 1) == 2 * Shr(i, n) || Shr(y, n - 1) == 2 * Shr(i, n) + 1
    ensures Shr(y, n) == Shr(y, n - 1) / 2
  {
  }

  /** Every entry twice: the directory one bit deeper. */
  lemma DoubledLinked(d: seq<SegmentNode>, d': seq<SegmentNode>, globalDepth: nat)
    requires Linked(d, globalDepth) && |d'| == 2 * |d|
    requires forall y | 0 <= y < |d'| :: d'[y] == d[y / 2]
    ensures Linked(d', globalDepth + 1)
  {
    hide Shr;
    forall y, z | 0 <= y < |d'| && 0 <= z < |d'|
      ensures d'[y].segmentPtr == d'[z].segmentPtr <==> SameGroup(y, z, globalDepth + 1 - d'[y].localDepth)
      ensures d'[y].segmentPtr == d'[z].segmentPtr ==> d'[y] == d'[z]
    {
      var n := globalDepth - d[y / 2].localDepth;
      ShrHalf(y, n);
      ShrHalf(z, n);
      assert d[y / 2].segmentPtr == d[z / 2].segmentPtr <==> SameGroup(y / 2, z / 2, n);
    }
  }

  // ----- the range of a group -----

  /** segmentIndex & ~(segmentNodeNum - 1) */
  function AlignDown(i: nat, num: nat): nat
    requires num > 0
  {
    i - i % num
  }

  lemma GroupStart(i: nat, n: nat)
    ensures AlignDown(i, Pow2(n)) == Shr(i, n) * Pow2(n)
  {
    ShrInterval(i, n);
    DivMod(i, Pow2(n), Shr(i, n));
  }

  lemma DivMod(x: nat, p: nat, q: nat)
    requires p > 0 && q * p <= x < (q + 1) * p
    ensures x % p == x - q * p
  {
    var d := x / p;
    assert d * p <= x < (d + 1) * p by {
      assert x == p * d + x % p;
    }
    if d < q {
      MulMono(d + 1, q, p);
    } else if q < d {
      MulMono(q + 1, d, p);
    }
    assert x == p * d + x % p;
  }

  /** A group is the index range the split rewrites, and its upper half begins at the middle. */
  lemma GroupRange(y: nat, i: nat, n: nat)
    requires n > 0
    ensures var start, num := AlignDown(i, Pow2(n)), Pow2(n - 1);
      && Pow2(n) == 2 * num
      && (SameGroup(y, i, n) <==> start <= y < start + 2 * num)
      && (Shr(y, n - 1) == 2 * Shr(i, n) <==> start <= y < start + num)
      && (Shr(y, n - 1) == 2 * Shr(i, n) + 1 <==> start + num <= y < start + 2 * num)
  {
    var q, num := Shr(i, n), Pow2(n - 1);
    GroupStart(i, n);
    assert q * Pow2(n) == (2 * q) * num;
    assert (q + 1) * Pow2(n) == (2 * q + 2) * num == (2 * q) * num + 2 * num;
    assert (2 * q + 1) * num == (2 * q) * num + num;
    IntervalIff(y, n, q);
    IntervalIff(y, n - 1, 2 * q);
    IntervalIff(y, n - 1, 2 * q + 1);
  }

  lemma IntervalIff(y: nat, n: nat, q: nat)
    ensures Shr(y, n) == q <==> q * Pow2(n) <= y < (q + 1) * Pow2(n)
  {
    ShrInterval(y, n);
    if q * Pow2(n) <= y < (q + 1) * Pow2(n) {
      ShrUnique(y, n, q);
    }
  }

  /** The tests of the local split's loops pick the two halves. */
  lemma LocalSides(globalDepth: nat, localDepth: nat, i: nat)
    requires localDepth < globalDepth <= 32 && localDepth < MAX_DEPTH
    ensures var n := globalDepth - localDepth;
      var mid := AlignDown(i, Pow2(n)) + Pow2(n - 1);
      SidesAgree(AtLeast(mid), Below(mid), globalDepth, localDepth, Shr(i, n))
  {
    var n := globalDepth - localDepth;
    var mid := AlignDown(i, Pow2(n)) + Pow2(n - 1);
    forall k: U32 | Top(k, localDepth) == Shr(i, n)
      ensures Selected(AtLeast(mid), k, globalDepth) <==> Top(k, localDepth + 1) == 2 * Shr(i, n) + 1
      ensures Selected(Below(mid), k, globalDepth) <==> Top(k, localDepth + 1) == 2 * Shr(i, n)
    {
      SegmentNumberTop(k, globalDepth);
      TopShr(k, localDepth, globalDepth);
      TopShr(k, localDepth + 1, globalDepth);
      GroupRange(Top(k, globalDepth), i, n);
    }
  }

  /** The tests of the doubling's loops pick the two halves. */
  lemma DoublingSides(globalDepth: nat, i: nat)
    requires globalDepth < MAX_DEPTH
    ensures SidesAgree(Exactly(2 * i + 1), Exactly(2 * i), globalDepth + 1, globalDepth, i)
  {
    forall k: U32 | Top(k, globalDepth) == i
      ensures Selected(Exactly(2 * i + 1), k, globalDepth + 1) <==> Top(k, globalDepth + 1) == 2 * i + 1
      ensures Selected(Exactly(2 * i), k, globalDepth + 1) <==> Top(k, globalDepth + 1) == 2 * i
    {
      SegmentNumberTop(k, globalDepth + 1);
    }
  }

  // ----- the depth bound -----

  lemma {:induction false} KeysCard(bk: seq<Slot>, ver: Version) returns (s: set<int>)
    requires DistinctLive(bk, ver) && forall i | 0 <= i < |bk| :: Live(bk[i], ver)
    ensures |s| == |bk| && forall x | x in s :: exists i | 0 <= i < |bk| :: bk[i].subKey == x
  {
    if bk == [] {
      s := {};
    } else {
      var init, last := bk[..|bk| - 1], bk[|bk| - 1];
      var t := KeysCard(init, ver);
      forall i | 0 <= i < |init| ensures init[i].subKey != last.subKey {
        assert Live(bk[i], ver) && Live(last, ver);
      }
      s := t + {last.subKey};
      forall x | x in s ensures exists i | 0 <= i < |bk| :: bk[i].subKey == x {
        if x in t {
          var i :| 0 <= i < |init| && init[i].subKey == x;
          assert bk[i].subKey == x;
        } else {
          assert bk[|bk| - 1].subKey == x;
        }
      }
    }
  }

  /** A main bucket that overflows holds, with the new one, seventeen subkeys of one interval. */
  lemma OverflowNeedsRoom(main: Bucket, localDepth: nat, t: nat, k: U32)
    requires localDepth <= MAX_DEPTH && BucketOk(main, localDepth + 5, t)
    requires forall i | 0 <= i < SLOTS_PER_BUCKET :: Live(main[i], localDepth)
    requires Top(k, localDepth + 5) == t && BucketLookup(main, localDepth, k) == None
    ensures SLOTS_PER_BUCKET + 1 <= Pow2(27 - localDepth)
  {
    var s := KeysCard(main, localDepth);
    var p := Pow2(27 - localDepth);
    forall i | 0 <= i < |main| ensures main[i].subKey != k {
      assert !IsAt(main[i], localDepth, k);
    }
    forall x | x in s + {k} ensures t * p <= x < t * p + p {
      if x == k {
        ShrInterval(k, 27 - localDepth);
      } else {
        var i :| 0 <= i < |main| && main[i].subKey == x;
        assert Live(main[i], localDepth);
        ShrInterval(main[i].subKey, 27 - localDepth);
      }
    }
    SubsetCard(s + {k}, Interval(t * p, p));
  }

  /** So a segment whose main bucket overflows is at local depth 22 at most. */
  lemma OverflowBoundsDepth(main: Bucket, localDepth: nat, t: nat, k: U32)
    requires localDepth <= MAX_DEPTH && BucketOk(main, localDepth + 5, t)
    requires forall i | 0 <= i < SLOTS_PER_BUCKET :: Live(main[i], localDepth)
    requires Top(k, localDepth + 5) == t && BucketLookup(main, localDepth, k) == None
    ensures localDepth < MAX_DEPTH
  {
    OverflowNeedsRoom(main, localDepth, t, k);
    Pow2At32();
  }
}
