/**
 What a segment split does, on values: the old main buckets become the shared buckets of the two
 halves as they are, and the live slots of each old shared bucket move to four new main buckets.
 */
module Splits {
  import opened Bits
  import opened Options
  import opened Slots
  import opened Segments

  /** The length of the live prefix. */
  function LiveCount(bk: seq<Slot>, ver: Version, j: nat := 0): (c: nat)
    requires j <= |bk|
    ensures j <= c <= |bk|
    ensures forall i | j <= i < c :: Live(bk[i], ver)
    ensures c < |bk| ==> !Live(bk[c], ver)
    decreases |bk| - j
  {
    if j == |bk| || !Live(bk[j], ver) then j else LiveCount(bk, ver, j + 1)
  }

  /** The slots of s that go to main bucket mi at the new depth, in order, with the new version. */
  function Moved(s: seq<Slot>, newDepth: nat, mi: nat): (r: seq<Slot>)
    requires newDepth <= MAX_DEPTH
    ensures |r| <= |s|
  {
    if s == [] then []
    else
      var rest, last := Moved(s[..|s| - 1], newDepth, mi), s[|s| - 1];
      if MainBucketIndex(last.subKey, newDepth) == mi then rest + [last.(migVersion := newDepth)] else rest
  }

  /** What moves from an old shared bucket to main bucket mi. */
  function MovedSlots(src: Bucket, ver: Version, newDepth: nat, mi: nat): (m: seq<Slot>)
    requires newDepth <= MAX_DEPTH
    ensures |m| <= SLOTS_PER_BUCKET
  {
    Moved(src[..LiveCount(src, ver)], newDepth, mi)
  }

  /** A main bucket after the live slots of an old shared bucket were written into it. */
  function Redistributed(orig: Bucket, src: Bucket, ver: Version, newDepth: nat, mi: nat): Bucket
    requires newDepth <= MAX_DEPTH
  {
    MovedSlots(src, ver, newDepth, mi) + orig[|MovedSlots(src, ver, newDepth, mi)|..]
  }

  /** Where a moved slot came from. */
  lemma {:induction false} MovedFrom(s: seq<Slot>, newDepth: nat, mi: nat, j: nat) returns (x: nat)
    requires newDepth <= MAX_DEPTH && j < |Moved(s, newDepth, mi)|
    ensures x < |s| && Moved(s, newDepth, mi)[j] == s[x].(migVersion := newDepth)
    ensures MainBucketIndex(s[x].subKey, newDepth) == mi
  {
    var rest := Moved(s[..|s| - 1], newDepth, mi);
    if j < |rest| {
      x := MovedFrom(s[..|s| - 1], newDepth, mi, j);
    } else {
      x := |s| - 1;
    }
  }

  lemma {:induction false} MovedDistinct(s: seq<Slot>, ver: Version, newDepth: nat, mi: nat)
    requires newDepth <= MAX_DEPTH && DistinctLive(s, ver)
    requires forall i | 0 <= i < |s| :: Live(s[i], ver)
    ensures DistinctLive(Moved(s, newDepth, mi), newDepth)
  {
    if s != [] {
      var init := s[..|s| - 1];
      MovedDistinct(init, ver, newDepth, mi);
      var rest, m := Moved(init, newDepth, mi), Moved(s, newDepth, mi);
      forall i, j | 0 <= i < j < |m| ensures m[i].subKey != m[j].subKey {
        if j == |rest| {
          var x := MovedFrom(init, newDepth, mi, i);
          assert s[x].subKey != s[|s| - 1].subKey;
        } else {
          var x := MovedFrom(init, newDepth, mi, i);
          var y := MovedFrom(init, newDepth, mi, j);
          assert Live(rest[i], newDepth) && Live(rest[j], newDepth) by {
            assert Live(init[x], ver) && Live(init[y], ver);
          }
        }
      }
    }
  }

  lemma {:induction false} FindAppend(s: seq<Slot>, x: Slot, ver: Version, k: U32, j: nat)
    requires j <= |s|
    ensures Find(s + [x], ver, k, j)
      == if Find(s, ver, k, j) < |s| then Find(s, ver, k, j) else if IsAt(x, ver, k) then |s| else |s| + 1
    decreases |s| - j
  {
    if j < |s| {
      FindAppend(s, x, ver, k, j + 1);
    }
  }

  lemma LookupAppend(s: seq<Slot>, x: Slot, ver: Version, k: U32)
    ensures BucketLookup(s + [x], ver, k)
      == if BucketLookup(s, ver, k).Some? then BucketLookup(s, ver, k) else if IsAt(x, ver, k) then Some(EntryOf(x)) else None
  {
    FindAppend(s, x, ver, k, 0);
  }

  /** Moving keeps what is found for the subkeys of the target bucket. */
  lemma {:induction false} MovedLookup(s: seq<Slot>, ver: Version, newDepth: nat, mi: nat, k: U32)
    requires newDepth <= MAX_DEPTH && MainBucketIndex(k, newDepth) == mi
    requires forall i | 0 <= i < |s| :: Live(s[i], ver)
    ensures BucketLookup(Moved(s, newDepth, mi), newDepth, k) == BucketLookup(s, ver, k)
  {
    if s != [] {
      var init, last := s[..|s| - 1], s[|s| - 1];
      MovedLookup(init, ver, newDepth, mi, k);
      assert s == init + [last];
      LookupAppend(init, last, ver, k);
      LookupAppend(Moved(init, newDepth, mi), last.(migVersion := newDepth), newDepth, k);
    }
  }

  /** Slots that are not live add nothing to what a bucket holds. */
  lemma LookupPrefix(s: seq<Slot>, c: nat, ver: Version, k: U32)
    requires c <= |s| && forall i | c <= i < |s| :: !Live(s[i], ver)
    ensures BucketLookup(s, ver, k) == BucketLookup(s[..c], ver, k)
  {
    var f, g := Find(s, ver, k), Find(s[..c], ver, k);
    if f < c {
      assert IsAt(s[..c][f], ver, k);
    }
  }

  /** A well-formed bucket of an older depth may lie under the moved slots. */
  ghost predicate BaseOk(orig: seq<Slot>, newDepth: nat) {
    0 < newDepth <= MAX_DEPTH && WrittenPrefix(orig) && NotNewer(orig, newDepth - 1)
  }

  /** Exactly the moved slots of a redistributed bucket are live, over whatever was there before. */
  lemma RedistributedLive(orig: Bucket, src: Bucket, ver: Version, newDepth: nat, mi: nat, r: Bucket, m: seq<Slot>)
    requires BaseOk(orig, newDepth)
    requires r == Redistributed(orig, src, ver, newDepth, mi) && m == MovedSlots(src, ver, newDepth, mi)
    ensures |m| <= SLOTS_PER_BUCKET
    ensures forall j | 0 <= j < SLOTS_PER_BUCKET :: Live(r[j], newDepth) <==> j < |m|
    ensures forall j | 0 <= j < |m| :: r[j] == m[j]
    ensures forall j | |m| <= j < SLOTS_PER_BUCKET :: r[j] == orig[j]
  {
    var s := src[..LiveCount(src, ver)];
    forall j | 0 <= j < |m| ensures Live(m[j], newDepth) {
      var x := MovedFrom(s, newDepth, mi, j);
      assert Live(s[x], ver);
    }
  }

  /** The moved slots form a well-formed bucket for the longer prefix. */
  lemma RedistributedOk(orig: Bucket, src: Bucket, localDepth: nat, t: nat, mi: nat)
    requires localDepth < MAX_DEPTH && mi < 32
    requires BaseOk(orig, localDepth + 1) && BucketOk(src, localDepth + 4, t) && t % 8 == mi / 4
    ensures BucketOk(Redistributed(orig, src, localDepth - 1, localDepth + 1, mi), localDepth + 6, 4 * t + mi % 4)
  {
    var ver, d := localDepth - 1, localDepth + 1;
    var s := src[..LiveCount(src, ver)];
    var m, r := Moved(s, d, mi), Redistributed(orig, src, ver, d, mi);
    RedistributedLive(orig, src, ver, d, mi, r, m);
    MovedDistinct(s, ver, d, mi);
    assert DistinctLive(r, d) by {
      forall i, j | 0 <= i < j < 16 && Live(r[i], d) && Live(r[j], d) ensures r[i].subKey != r[j].subKey {
        assert Live(m[i], d) && Live(m[j], d);
      }
    }
    assert Homed(r, d, localDepth + 6, 4 * t + mi % 4) by {
      forall j | 0 <= j < 16 && Live(r[j], d) ensures Top(r[j].subKey, localDepth + 6) == 4 * t + mi % 4 {
        var x := MovedFrom(s, d, mi, j);
        assert Live(src[x], ver);
        MovedHome(r[j].subKey, localDepth, t, mi);
      }
    }
  }

  lemma MovedHome(k: U32, localDepth: nat, t: nat, mi: nat)
    requires localDepth < MAX_DEPTH && mi < 32 && t % 8 == mi / 4
    requires Top(k, localDepth + 4) == t && MainBucketIndex(k, localDepth + 1) == mi
    ensures Top(k, localDepth + 6) == 4 * t + mi % 4
  {
    hide Top;
    hide MainBucketIndex;
    IndexTops(k, localDepth + 1);
    IndexTops(k, localDepth);
    LowBits(Top(k, localDepth + 6));
  }

  lemma LowBits(x: nat)
    ensures x == 4 * (x / 2 / 2) + x % 32 % 4
  {
    var q, r := x / 32, x % 32;
    assert x == 32 * q + r;
    assert x / 2 / 2 == 8 * q + r / 4;
  }

  lemma Mod8(q: nat, c: nat)
    requires c < 8
    ensures (8 * q + c) % 8 == c
  {
  }

  lemma RedistributedLookup(orig: Bucket, src: Bucket, localDepth: nat, mi: nat, k: U32)
    requires localDepth < MAX_DEPTH && BaseOk(orig, localDepth + 1)
    requires LivePrefix(src, localDepth - 1) && MainBucketIndex(k, localDepth + 1) == mi
    ensures BucketLookup(Redistributed(orig, src, localDepth - 1, localDepth + 1, mi), localDepth + 1, k)
      == BucketLookup(src, localDepth - 1, k)
  {
    var ver, d := localDepth - 1, localDepth + 1;
    var c := LiveCount(src, ver);
    var s := src[..c];
    var m, r := Moved(s, d, mi), Redistributed(orig, src, ver, d, mi);
    RedistributedLive(orig, src, ver, d, mi, r, m);
    LookupPrefix(r, |m|, d, k);
    assert r[..|m|] == m;
    MovedLookup(s, ver, d, mi, k);
    LookupPrefix(src, c, ver, k);
  }

  // ----- a half of a split -----

  /**
   r, laid out at offset', is half h of segment b: its shared buckets are main buckets of b, its main
   buckets hold what moved from the shared buckets of b on top of orig.
   */
  ghost predicate IsHalf(b: SegmentValue, localDepth: nat, offset: Offset, r: SegmentValue, offset': Offset, h: nat, orig: seq<Bucket>)
    requires localDepth < MAX_DEPTH && h < 2 && |orig| == MAIN_BUCKETS
  {
    && (forall i | 0 <= i < 16 :: SharedBucket(r, offset', i) == MainBucket(b, offset, 16 * h + i))
    && (forall mi | 0 <= mi < 32 :: MainBucket(r, offset', mi)
         == Redistributed(orig[mi], SharedBucket(b, offset, 8 * h + mi / 4), localDepth - 1, localDepth + 1, mi))
    && (forall mi | 0 <= mi < 32 :: FromBefore(orig[mi], b))
  }

  /** A bucket that is fresh memory or was already there before the split. */
  ghost predicate FromBefore(bk: Bucket, b: SegmentValue) {
    bk == ZeroBucket() || bk in b
  }

  /** The main bucket index laid out at a position outside the shared third. */
  function MainIndexAt(offset: Offset, p: nat): (i: nat)
    requires p < SEGMENT_SIZE && !(offset <= p < offset + 16)
    ensures i < MAIN_BUCKETS && BucketPosition(offset, i) == p
  {
    if offset == 0 then p - 16 else if offset == 32 then p else if p >= 32 then p - 32 else p + 16
  }

  lemma FromBeforeOk(bk: Bucket, b: SegmentValue, localDepth: nat, offset: Offset, pre: nat)
    requires SegmentOk(b, localDepth, offset, pre) && localDepth < MAX_DEPTH && FromBefore(bk, b)
    ensures BaseOk(bk, localDepth + 1)
  {
    hide NoneInBoth;
    hide NoGhosts;
    if bk in b {
      var p :| 0 <= p < |b| && b[p] == bk;
      if offset <= p < offset + 16 {
        assert SharedBucket(b, offset, p - offset) == bk;
      } else {
        assert MainBucket(b, offset, MainIndexAt(offset, p)) == bk;
      }
    } else {
      ZeroBucketOk(4, 0);
    }
  }

  lemma HalfBuckets(b: SegmentValue, localDepth: nat, offset: Offset, pre: nat, r: SegmentValue, offset': Offset, h: nat, orig: seq<Bucket>, mi: nat)
    requires SegmentOk(b, localDepth, offset, pre) && localDepth < MAX_DEPTH && h < 2 && |orig| == MAIN_BUCKETS
    requires IsHalf(b, localDepth, offset, r, offset', h, orig) && mi < 32
    ensures BucketOk(SharedBucket(r, offset', mi / 2), localDepth + 1 + 4, (2 * pre + h) * 16 + mi / 2)
    ensures BucketOk(MainBucket(r, offset', mi), localDepth + 1 + 5, (2 * pre + h) * 32 + mi)
    ensures NoneInBoth(SharedBucket(r, offset', mi / 2), MainBucket(r, offset', mi), localDepth + 1)
  {
    hide BucketOk;
    hide NoneInBoth;
    hide NoGhosts;
    hide Redistributed;
    var y, x := 16 * h + mi / 2, 8 * h + mi / 4;
    assert y / 2 == x && SharedBucket(r, offset', mi / 2) == MainBucket(b, offset, y);
    assert BucketOk(MainBucket(b, offset, y), localDepth + 5, pre * 32 + y);
    assert BucketOk(SharedBucket(b, offset, x), localDepth + 4, pre * 16 + x);
    FromBeforeOk(orig[mi], b, localDepth, offset, pre);
    assert pre * 16 + x == 8 * (2 * pre + h) + mi / 4;
    Mod8(2 * pre + h, mi / 4);
    RedistributedOk(orig[mi], SharedBucket(b, offset, x), localDepth, pre * 16 + x, mi);
    assert 4 * (pre * 16 + x) + mi % 4 == (2 * pre + h) * 32 + mi;
    assert NoneInBoth(SharedBucket(b, offset, y / 2), MainBucket(b, offset, y), localDepth);
    MovedApart(orig[mi], SharedBucket(b, offset, x), MainBucket(b, offset, y), localDepth, mi);
  }

  lemma MovedApart(orig: Bucket, src: Bucket, main: Bucket, localDepth: nat, mi: nat)
    requires localDepth < MAX_DEPTH && BaseOk(orig, localDepth + 1)
    requires NoneInBoth(src, main, localDepth)
    ensures NoneInBoth(main, Redistributed(orig, src, localDepth - 1, localDepth + 1, mi), localDepth + 1)
  {
    var s := src[..LiveCount(src, localDepth - 1)];
    var r := Redistributed(orig, src, localDepth - 1, localDepth + 1, mi);
    RedistributedLive(orig, src, localDepth - 1, localDepth + 1, mi, r, Moved(s, localDepth + 1, mi));
    forall i, j | 0 <= i < |main| && 0 <= j < |r| && Live(main[i], localDepth) && Live(r[j], localDepth + 1)
      ensures main[i].subKey != r[j].subKey
    {
      var x := MovedFrom(s, localDepth + 1, mi, j);
      assert Live(src[x], localDepth - 1);
    }
  }

  lemma OkLivePrefix(bk: Bucket, n: nat, t: nat)
    requires BucketOk(bk, n, t)
    ensures LivePrefix(bk, n - 5)
  {
  }

  /** Conservation: a half finds for each of its subkeys what the whole segment found. */
  lemma HalfLookup(b: SegmentValue, localDepth: nat, offset: Offset, pre: nat, r: SegmentValue, offset': Offset, h: nat, orig: seq<Bucket>, k: U32)
    requires SegmentOk(b, localDepth, offset, pre) && localDepth < MAX_DEPTH && h < 2 && |orig| == MAIN_BUCKETS
    requires IsHalf(b, localDepth, offset, r, offset', h, orig)
    requires Top(k, localDepth + 1) == 2 * pre + h
    ensures SegmentLookup(r, localDepth + 1, offset', k) == SegmentLookup(b, localDepth, offset, k)
  {
    hide NoGhosts;
    hide Redistributed;
    hide BucketOk;
    hide Shr;
    hide Pow2;
    IndexTops(k, localDepth);
    IndexTops(k, localDepth + 1);
    var mi, y := MainBucketIndex(k, localDepth + 1), MainBucketIndex(k, localDepth);
    Homes(k, localDepth, offset, pre);
    Homes(k, localDepth + 1, offset', 2 * pre + h);
    assert y == 16 * h + mi / 2 && y / 2 == 8 * h + mi / 4;
    var shared, main := SharedBucket(b, offset, y / 2), MainBucket(b, offset, y);
    FromBeforeOk(orig[mi], b, localDepth, offset, pre);
    assert BucketOk(shared, localDepth + 4, pre * 16 + y / 2);
    OkLivePrefix(shared, localDepth + 4, pre * 16 + y / 2);
    RedistributedLookup(orig[mi], shared, localDepth, mi, k);
    assert SharedBucket(r, offset', mi / 2) == main;
    assert NoneInBoth(shared, main, localDepth);
  }

  /** Every subkey written in a half was already written in the segment before the split. */
  lemma WrittenBefore(b: SegmentValue, localDepth: nat, offset: Offset, r: SegmentValue, offset': Offset, h: nat, orig: seq<Bucket>, p: nat, j: nat)
    returns (q: nat, x: nat)
    requires localDepth < MAX_DEPTH && h < 2 && |orig| == MAIN_BUCKETS
    requires IsHalf(b, localDepth, offset, r, offset', h, orig)
    requires p < SEGMENT_SIZE && j < SLOTS_PER_BUCKET && r[p][j].validFlag
    ensures q < SEGMENT_SIZE && x < SLOTS_PER_BUCKET && b[q][x].validFlag && b[q][x].subKey == r[p][j].subKey
  {
    hide BaseOk;
    PositionsPartition(offset);
    if offset' <= p < offset' + 16 {
      var i := p - offset';
      assert SharedBucket(r, offset', i) == MainBucket(b, offset, 16 * h + i);
      return BucketPosition(offset, 16 * h + i), j;
    }
    var mi := MainIndexAt(offset', p);
    var src := SharedBucket(b, offset, 8 * h + mi / 4);
    var m := MovedSlots(src, localDepth - 1, localDepth + 1, mi);
    assert MainBucket(r, offset', mi) == Redistributed(orig[mi], src, localDepth - 1, localDepth + 1, mi);
    if j < |m| {
      x := MovedFrom(src[..LiveCount(src, localDepth - 1)], localDepth + 1, mi, j);
      q := offset + 8 * h + mi / 4;
    } else {
      assert r[p][j] == orig[mi][j] && FromBefore(orig[mi], b);
      x := j;
      q :| 0 <= q < |b| && b[q] == orig[mi];
    }
  }

  /** A half of a well-formed segment is a well-formed segment, one level deeper. */
  lemma HalfOk(b: SegmentValue, localDepth: nat, offset: Offset, pre: nat, r: SegmentValue, offset': Offset, h: nat, orig: seq<Bucket>)
    requires SegmentOk(b, localDepth, offset, pre) && localDepth < MAX_DEPTH && h < 2 && |orig| == MAIN_BUCKETS
    requires IsHalf(b, localDepth, offset, r, offset', h, orig)
    ensures SegmentOk(r, localDepth + 1, offset', 2 * pre + h)
    ensures forall k: U32 | Top(k, localDepth + 1) == 2 * pre + h ::
      SegmentLookup(r, localDepth + 1, offset', k) == SegmentLookup(b, localDepth, offset, k)
  {
    hide BucketOk;
    hide NoneInBoth;
    hide SegmentLookup;
    hide IsHalf;
    forall k: U32 | Top(k, localDepth + 1) == 2 * pre + h
      ensures SegmentLookup(r, localDepth + 1, offset', k) == SegmentLookup(b, localDepth, offset, k)
    {
      HalfLookup(b, localDepth, offset, pre, r, offset', h, orig, k);
    }
    forall i | 0 <= i < 16 ensures BucketOk(SharedBucket(r, offset', i), localDepth + 1 + 4, (2 * pre + h) * 16 + i) {
      HalfBuckets(b, localDepth, offset, pre, r, offset', h, orig, 2 * i);
    }
    forall i | 0 <= i < 32
      ensures BucketOk(MainBucket(r, offset', i), localDepth + 1 + 5, (2 * pre + h) * 32 + i)
      ensures NoneInBoth(SharedBucket(r, offset', i / 2), MainBucket(r, offset', i), localDepth + 1)
    {
      HalfBuckets(b, localDepth, offset, pre, r, offset', h, orig, i);
    }
    forall p, j | 0 <= p < SEGMENT_SIZE && 0 <= j < SLOTS_PER_BUCKET && r[p][j].validFlag && Top(r[p][j].subKey, localDepth + 1) == 2 * pre + h
      ensures SegmentLookup(r, localDepth + 1, offset', r[p][j].subKey).Some?
    {
      var q, x := WrittenBefore(b, localDepth, offset, r, offset', h, orig, p, j);
      IndexTops(b[q][x].subKey, localDepth);
    }
  }
}
