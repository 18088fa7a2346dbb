/** The split of a segment as it is carried out: in place, bucket by bucket and slot by slot. */
module SplitMethods {
  import opened Bits
  import opened Options
  import opened Slots
  import opened Segments
  import opened Splits

  type Segment = array<Bucket>

  /** Where the shared third is after the next split of a segment in place. */
  function NextOffset(offset: Offset): Offset {
    (offset + SHARED_BUCKETS) % SEGMENT_SIZE
  }

  /** Which slots a redistribution loop takes, by segment number at some directory depth. */
  datatype Side = AtLeast(mid: nat) | Below(mid: nat) | Exactly(index: nat)

  predicate Selected(side: Side, k: U32, depth: nat)
    requires depth <= SUBKEY_LENGTH
  {
    var n := SegmentNumber(k, SUBKEY_LENGTH, depth);
    match side
    case AtLeast(mid) => n >= mid
    case Below(mid) => n < mid
    case Exactly(index) => n == index
  }

  /** A live slot of migrated bucket i belongs to the side and to one of main buckets 4i .. 4i+3. */
  ghost predicate Migrates(s: Slot, localDepth: nat, side: Side, depth: nat, i: nat)
    requires localDepth < MAX_DEPTH && depth <= SUBKEY_LENGTH
  {
    Live(s, localDepth - 1) ==> Selected(side, s.subKey, depth) && MainBucketIndex(s.subKey, localDepth + 1) / 4 == i
  }

  lemma MovedStep(src: Bucket, j: nat, newDepth: nat, mi: nat)
    requires newDepth <= MAX_DEPTH && j < SLOTS_PER_BUCKET
    ensures Moved(src[..j + 1], newDepth, mi)
      == if MainBucketIndex(src[j].subKey, newDepth) == mi
         then Moved(src[..j], newDepth, mi) + [src[j].(migVersion := newDepth)] else Moved(src[..j], newDepth, mi)
  {
    assert src[..j + 1][..j] == src[..j];
  }

  /** Main bucket mi after the first c slots of its source were handled. */
  function Partly(orig: Bucket, src: Bucket, c: nat, newDepth: nat, mi: nat): Bucket
    requires newDepth <= MAX_DEPTH && c <= SLOTS_PER_BUCKET
  {
    Moved(src[..c], newDepth, mi) + orig[|Moved(src[..c], newDepth, mi)|..]
  }

  lemma PartlyStep(orig: Bucket, src: Bucket, j: nat, newDepth: nat, mi: nat)
    requires newDepth <= MAX_DEPTH && j < SLOTS_PER_BUCKET
    ensures |Moved(src[..j], newDepth, mi)| < SLOTS_PER_BUCKET
    ensures MainBucketIndex(src[j].subKey, newDepth) == mi ==>
      Partly(orig, src, j + 1, newDepth, mi)
      == Partly(orig, src, j, newDepth, mi)[|Moved(src[..j], newDepth, mi)| := src[j].(migVersion := newDepth)]
    ensures MainBucketIndex(src[j].subKey, newDepth) != mi ==> Partly(orig, src, j + 1, newDepth, mi) == Partly(orig, src, j, newDepth, mi)
  {
    MovedStep(src, j, newDepth, mi);
  }

  /** State of a redistribution after c slots of migrated bucket i, and all of the buckets before it. */
  ghost predicate Progress(d: SegmentValue, d0: SegmentValue, counters: seq<nat>, src: seq<Bucket>, localDepth: nat, offset': Offset, i: nat, c: nat)
    requires localDepth < MAX_DEPTH && |counters| == MAIN_BUCKETS && |src| == 8 && i <= 8 && c <= SLOTS_PER_BUCKET
  {
    && (forall p | offset' <= p < offset' + 16 :: d[p] == d0[p])
    && (forall mi | 0 <= mi < 32 :: MainProgress(MainBucket(d, offset', mi), MainBucket(d0, offset', mi), counters[mi], src, localDepth, i, c, mi))
  }

  ghost predicate MainProgress(bk: Bucket, orig: Bucket, counter: nat, src: seq<Bucket>, localDepth: nat, i: nat, c: nat, mi: nat)
    requires localDepth < MAX_DEPTH && |src| == 8 && i <= 8 && c <= SLOTS_PER_BUCKET && mi < 32
  {
    if mi / 4 < i then bk == Redistributed(orig, src[mi / 4], localDepth - 1, localDepth + 1, mi)
    else if mi / 4 == i then bk == Partly(orig, src[i], c, localDepth + 1, mi) && counter == |Moved(src[i][..c], localDepth + 1, mi)|
    else bk == orig && counter == 0
  }

  lemma SkipStep(d: SegmentValue, d0: SegmentValue, counters: seq<nat>, src: seq<Bucket>, localDepth: nat, offset': Offset, i: nat)
    requires localDepth < MAX_DEPTH && |counters| == MAIN_BUCKETS && |src| == 8 && i < 8
    requires Progress(d, d0, counters, src, localDepth, offset', i, LiveCount(src[i], localDepth - 1))
    ensures Progress(d, d0, counters, src, localDepth, offset', i + 1, 0)
  {
    forall mi | 0 <= mi < 32
      ensures MainProgress(MainBucket(d, offset', mi), MainBucket(d0, offset', mi), counters[mi], src, localDepth, i + 1, 0, mi)
    {
      assert MainProgress(MainBucket(d, offset', mi), MainBucket(d0, offset', mi), counters[mi], src, localDepth, i, LiveCount(src[i], localDepth - 1), mi);
    }
  }

  /** The main bucket a slot is appended to. */
  lemma WriteMain(orig: Bucket, bk: Bucket, counter: nat, src: seq<Bucket>, localDepth: nat, i: nat, j: nat, mi: nat)
    requires localDepth < MAX_DEPTH && |src| == 8 && i < 8 && j < SLOTS_PER_BUCKET && mi < 32
    requires MainProgress(bk, orig, counter, src, localDepth, i, j, mi)
    ensures MainBucketIndex(src[i][j].subKey, localDepth + 1) == mi && mi / 4 == i ==>
      counter < SLOTS_PER_BUCKET
      && MainProgress(bk[counter := src[i][j].(migVersion := localDepth + 1)], orig, counter + 1, src, localDepth, i, j + 1, mi)
    ensures MainBucketIndex(src[i][j].subKey, localDepth + 1) != mi ==> MainProgress(bk, orig, counter, src, localDepth, i, j + 1, mi)
  {
    hide MainBucketIndex;
    hide Redistributed;
    hide Partly;
    hide Moved;
    if mi / 4 == i {
      PartlyStep(orig, src[i], j, localDepth + 1, mi);
      MovedStep(src[i], j, localDepth + 1, mi);
    }
  }

  lemma WriteStep(d: SegmentValue, d0: SegmentValue, counters: seq<nat>, src: seq<Bucket>, localDepth: nat, offset': Offset, i: nat, j: nat)
    requires localDepth < MAX_DEPTH && |counters| == MAIN_BUCKETS && |src| == 8 && i < 8 && j < SLOTS_PER_BUCKET
    requires Progress(d, d0, counters, src, localDepth, offset', i, j)
    requires MainBucketIndex(src[i][j].subKey, localDepth + 1) / 4 == i
    ensures var index := MainBucketIndex(src[i][j].subKey, localDepth + 1);
      && index < 32 && counters[index] < SLOTS_PER_BUCKET && BucketPosition(offset', index) < SEGMENT_SIZE
      && Progress(d[BucketPosition(offset', index) := MainBucket(d, offset', index)[counters[index] := src[i][j].(migVersion := localDepth + 1)]],
                  d0, counters[index := counters[index] + 1], src, localDepth, offset', i, j + 1)
  {
    hide MainProgress;
    hide MainBucketIndex;
    var slot := src[i][j];
    var index := MainBucketIndex(slot.subKey, localDepth + 1);
    IndexTops(slot.subKey, localDepth + 1);
    PositionsPartition(offset');
    WriteMain(MainBucket(d0, offset', index), MainBucket(d, offset', index), counters[index], src, localDepth, i, j, index);
    var d' := d[BucketPosition(offset', index) := MainBucket(d, offset', index)[counters[index] := slot.(migVersion := localDepth + 1)]];
    var counters' := counters[index := counters[index] + 1];
    hide BucketPosition;
    forall mi | 0 <= mi < 32
      ensures MainProgress(MainBucket(d', offset', mi), MainBucket(d0, offset', mi), counters'[mi], src, localDepth, i, j + 1, mi)
    {
      WriteMain(MainBucket(d0, offset', mi), MainBucket(d, offset', mi), counters[mi], src, localDepth, i, j, mi);
      if mi != index {
        assert BucketPosition(offset', mi) != BucketPosition(offset', index);
      }
    }
  }

  lemma ProgressStart(d: SegmentValue, src: seq<Bucket>, localDepth: nat, offset': Offset)
    requires localDepth < MAX_DEPTH && |src| == 8
    ensures Progress(d, d, seq(MAIN_BUCKETS, _ => 0), src, localDepth, offset', 0, 0)
  {
  }

  lemma ProgressEnd(d: SegmentValue, d0: SegmentValue, counters: seq<nat>, src: seq<Bucket>, localDepth: nat, offset': Offset)
    requires localDepth < MAX_DEPTH && |counters| == MAIN_BUCKETS && |src| == 8
    requires Progress(d, d0, counters, src, localDepth, offset', 8, 0)
    ensures forall p | offset' <= p < offset' + 16 :: d[p] == d0[p]
    ensures forall mi | 0 <= mi < 32 ::
      MainBucket(d, offset', mi) == Redistributed(MainBucket(d0, offset', mi), src[mi / 4], localDepth - 1, localDepth + 1, mi)
  {
    forall mi | 0 <= mi < 32
      ensures MainBucket(d, offset', mi) == Redistributed(MainBucket(d0, offset', mi), src[mi / 4], localDepth - 1, localDepth + 1, mi)
    {
      assert MainProgress(MainBucket(d, offset', mi), MainBucket(d0, offset', mi), counters[mi], src, localDepth, 8, 0, mi);
    }
  }

  /**
   A redistribution loop: the live slots of eight migrated shared buckets are appended, with the new
   version, to the main buckets of dst. No bucket overflows, and the shared third is not touched.
   */
  method Redistribute(src: seq<Bucket>, dst: Segment, offset': Offset, localDepth: nat, side: Side, depth: nat)
    requires localDepth < MAX_DEPTH && depth <= SUBKEY_LENGTH && |src| == 8 && dst.Length == SEGMENT_SIZE
    requires forall i, j | 0 <= i < 8 && 0 <= j < SLOTS_PER_BUCKET :: Migrates(src[i][j], localDepth, side, depth, i)
    modifies dst
    ensures forall p | offset' <= p < offset' + 16 :: dst[p] == old(dst[p])
    ensures forall mi | 0 <= mi < 32 ::
      MainBucket(dst[..], offset', mi)
      == Redistributed(MainBucket(old(dst[..]), offset', mi), src[mi / 4], localDepth - 1, localDepth + 1, mi)
  {
    hide Redistributed;
    hide Progress;
    hide BucketPosition;
    ghost var d0: SegmentValue := dst[..];
    var counters := new nat[MAIN_BUCKETS](_ => 0);
    ProgressStart(d0, src, localDepth, offset');
    assert counters[..] == seq(MAIN_BUCKETS, _ => 0);
    var i := 0;
    while i < 8
      invariant 0 <= i <= 8
      invariant Progress(dst[..], d0, counters[..], src, localDepth, offset', i, 0)
    {
      var j := 0;
      while j < SLOTS_PER_BUCKET
        invariant 0 <= j <= LiveCount(src[i], localDepth - 1)
        invariant Progress(dst[..], d0, counters[..], src, localDepth, offset', i, j)
      {
        var slot := src[i][j];
        if !slot.validFlag || slot.migVersion != localDepth - 1 {
          break;
        }
        assert Migrates(src[i][j], localDepth, side, depth, i);
        if Selected(side, slot.subKey, depth) {
          var index := MainBucketIndex(slot.subKey, localDepth + 1);
          WriteStep(dst[..], d0, counters[..], src, localDepth, offset', i, j);
          AppendSlot(dst, BucketPosition(offset', index), counters, index, slot.(migVersion := localDepth + 1));
        }
        j := j + 1;
      }
      SkipStep(dst[..], d0, counters[..], src, localDepth, offset', i);
      i := i + 1;
    }
    ProgressEnd(dst[..], d0, counters[..], src, localDepth, offset');
    assert forall p | offset' <= p < offset' + 16 :: dst[..][p] == dst[p];
  }

  /** dst[position].counters[counter++] = slot */
  method AppendSlot(dst: Segment, position: nat, counters: array<nat>, index: nat, slot: Slot)
    requires position < dst.Length && index < counters.Length && counters[index] < SLOTS_PER_BUCKET
    modifies dst, counters
    ensures dst[..] == old(dst[..][position := dst[position][counters[index] := slot]])
    ensures counters[..] == old(counters[..][index := counters[index] + 1])
  {
    var slotIndex := counters[index];
    counters[index] := slotIndex + 1;
    dst[position] := dst[position][slotIndex := slot];
  }

  /** The sides of a split: which subkeys of the segment go to the upper and to the lower half. */
  ghost predicate SidesAgree(high: Side, low: Side, depth: nat, localDepth: nat, pre: nat) {
    && localDepth < MAX_DEPTH && depth <= SUBKEY_LENGTH
    && forall k: U32 | Top(k, localDepth) == pre ::
         && (Selected(high, k, depth) <==> Top(k, localDepth + 1) == 2 * pre + 1)
         && (Selected(low, k, depth) <==> Top(k, localDepth + 1) == 2 * pre)
  }

  lemma SharedMigrates(b: SegmentValue, offset: Offset, localDepth: nat, pre: nat, side: Side, depth: nat, h: nat, i: nat, j: nat)
    requires SegmentOk(b, localDepth, offset, pre) && localDepth < MAX_DEPTH && depth <= SUBKEY_LENGTH
    requires h < 2 && i < 8 && j < SLOTS_PER_BUCKET
    requires forall k: U32 | Top(k, localDepth + 1) == 2 * pre + h :: Selected(side, k, depth)
    ensures Migrates(SharedBucket(b, offset, 8 * h + i)[j], localDepth, side, depth, i)
  {
    hide NoneInBoth;
    hide NoGhosts;
    hide Selected;
    var bk := SharedBucket(b, offset, 8 * h + i);
    assert BucketOk(bk, localDepth + 4, pre * 16 + (8 * h + i));
    if Live(bk[j], localDepth - 1) {
      IndexTops(bk[j].subKey, localDepth);
      IndexTops(bk[j].subKey, localDepth + 1);
      assert Top(bk[j].subKey, localDepth + 4) == pre * 16 + 8 * h + i;
      MigratedArith(Top(bk[j].subKey, localDepth + 6), pre, h, i);
    }
  }

  lemma MigratedArith(x: nat, pre: nat, h: nat, i: nat)
    requires x / 2 / 2 == pre * 16 + 8 * h + i && h < 2 && i < 8
    ensures x % 32 / 4 == i && x / 32 == 2 * pre + h
  {
    assert x / 4 == x / 2 / 2;
    assert x / 32 == (x / 4) / 8;
    assert x % 32 == x - 32 * (x / 32);
  }

  /**
   Splits a full segment. The segment keeps the lower half, laid out one third further; the new
   segment gets the upper half. Together they hold exactly what the segment held.
   */
  method SplitSegment(segment: Segment, offset: Offset, newOffset: Offset, localDepth: nat, high: Side, low: Side, depth: nat, ghost pre: nat)
    returns (newSegment: Segment)
    requires segment.Length == SEGMENT_SIZE && SegmentOk(segment[..], localDepth, offset, pre)
    requires SidesAgree(high, low, depth, localDepth, pre)
    modifies segment
    ensures fresh(newSegment) && newSegment.Length == SEGMENT_SIZE
    ensures SegmentOk(segment[..], localDepth + 1, NextOffset(offset), 2 * pre)
    ensures SegmentOk(newSegment[..], localDepth + 1, newOffset, 2 * pre + 1)
    ensures forall k: U32 | Top(k, localDepth + 1) == 2 * pre ::
      SegmentLookup(segment[..], localDepth + 1, NextOffset(offset), k) == SegmentLookup(old(segment[..]), localDepth, offset, k)
    ensures forall k: U32 | Top(k, localDepth + 1) == 2 * pre + 1 ::
      SegmentLookup(newSegment[..], localDepth + 1, newOffset, k) == SegmentLookup(old(segment[..]), localDepth, offset, k)
  {
    hide SegmentOk;
    hide Selected;
    hide Redistributed;
    hide SegmentLookup;
    var dstOffset := NextOffset(offset);
    var migShared := offset + 8;
    var migMain := (NextOffset(offset) + migShared % 16 * 2) % 48;
    ghost var b: SegmentValue := segment[..];

    newSegment := new Bucket[SEGMENT_SIZE](_ => ZeroBucket());
    forall i | 0 <= i < 16 {
      newSegment[newOffset + i] := segment[migMain + i];
    }
    forall p | newOffset <= p < newOffset + 16 ensures newSegment[p] == segment[p - newOffset + migMain] {
      assert p == newOffset + (p - newOffset);
    }
    var buffer := segment[offset..offset + 8];
    var upper := segment[migShared..migShared + 8];
    ghost var n0: SegmentValue := newSegment[..];
    assert segment[..] == b;
    assert buffer == b[offset + 8 * 0..offset + 8 * 0 + 8];
    assert upper == b[offset + 8 * 1..offset + 8 * 1 + 8];

    AllMigrate(b, offset, localDepth, pre, high, depth, 1, upper);
    AllMigrate(b, offset, localDepth, pre, low, depth, 0, buffer);
    Redistribute(upper, newSegment, newOffset, localDepth, high, depth);
    Redistribute(buffer, segment, dstOffset, localDepth, low, depth);

    UpperHalf(b, localDepth, offset, n0, newSegment[..], newOffset, migMain);
    LowerHalf(b, localDepth, offset, segment[..], dstOffset);
    HalfOk(b, localDepth, offset, pre, newSegment[..], newOffset, 1, seq(MAIN_BUCKETS, _ => ZeroBucket()));
    HalfOk(b, localDepth, offset, pre, segment[..], dstOffset, 0, seq(MAIN_BUCKETS, mi requires 0 <= mi < 32 => MainBucket(b, dstOffset, mi)));
  }

  lemma AllMigrate(b: SegmentValue, offset: Offset, localDepth: nat, pre: nat, side: Side, depth: nat, h: nat, src: seq<Bucket>)
    requires SegmentOk(b, localDepth, offset, pre) && localDepth < MAX_DEPTH && depth <= SUBKEY_LENGTH && h < 2
    requires forall k: U32 | Top(k, localDepth) == pre && Top(k, localDepth + 1) == 2 * pre + h :: Selected(side, k, depth)
    requires src == b[offset + 8 * h..offset + 8 * h + 8]
    ensures forall i, j | 0 <= i < 8 && 0 <= j < SLOTS_PER_BUCKET :: Migrates(src[i][j], localDepth, side, depth, i)
  {
    hide SegmentOk;
    hide Migrates;
    hide Selected;
    forall k: U32 | Top(k, localDepth + 1) == 2 * pre + h ensures Selected(side, k, depth) {
      IndexTops(k, localDepth);
    }
    forall i, j | 0 <= i < 8 && 0 <= j < SLOTS_PER_BUCKET ensures Migrates(src[i][j], localDepth, side, depth, i) {
      SharedMigrates(b, offset, localDepth, pre, side, depth, h, i, j);
      assert SharedBucket(b, offset, 8 * h + i) == src[i];
    }
  }

  lemma UpperShared(b: SegmentValue, offset: Offset, n0: SegmentValue, r: SegmentValue, newOffset: Offset, migMain: nat)
    requires migMain == (offset + 32) % 48 && forall p | newOffset <= p < newOffset + 16 :: n0[p] == b[p - newOffset + migMain]
    requires forall p | newOffset <= p < newOffset + 16 :: r[p] == n0[p]
    ensures forall i | 0 <= i < 16 :: SharedBucket(r, newOffset, i) == MainBucket(b, offset, 16 * 1 + i)
  {
    forall i | 0 <= i < 16 ensures SharedBucket(r, newOffset, i) == MainBucket(b, offset, 16 * 1 + i) {
      assert r[newOffset + i] == n0[newOffset + i] == b[migMain + i];
    }
  }

  lemma UpperHalf(b: SegmentValue, localDepth: nat, offset: Offset, n0: SegmentValue, r: SegmentValue, newOffset: Offset, migMain: nat)
    requires localDepth < MAX_DEPTH && migMain == (offset + 32) % 48
    requires forall p | newOffset <= p < newOffset + 16 :: n0[p] == b[p - newOffset + migMain]
    requires forall p | 0 <= p < SEGMENT_SIZE && !(newOffset <= p < newOffset + 16) :: n0[p] == ZeroBucket()
    requires forall p | newOffset <= p < newOffset + 16 :: r[p] == n0[p]
    requires forall mi | 0 <= mi < 32 ::
      MainBucket(r, newOffset, mi)
      == Redistributed(MainBucket(n0, newOffset, mi), b[offset + 8..offset + 16][mi / 4], localDepth - 1, localDepth + 1, mi)
    ensures IsHalf(b, localDepth, offset, r, newOffset, 1, seq(MAIN_BUCKETS, _ => ZeroBucket()))
  {
    hide Redistributed;
    PositionsPartition(newOffset);
    var zeros: seq<Bucket> := seq(MAIN_BUCKETS, _ => ZeroBucket());
    UpperShared(b, offset, n0, r, newOffset, migMain);
    forall mi | 0 <= mi < 32
      ensures MainBucket(r, newOffset, mi)
        == Redistributed(zeros[mi], SharedBucket(b, offset, 8 * 1 + mi / 4), localDepth - 1, localDepth + 1, mi)
    {
      assert MainBucket(n0, newOffset, mi) == zeros[mi];
      assert b[offset + 8..offset + 16][mi / 4] == SharedBucket(b, offset, 8 * 1 + mi / 4);
    }
  }

  lemma LowerHalf(b: SegmentValue, localDepth: nat, offset: Offset, r: SegmentValue, dstOffset: Offset)
    requires localDepth < MAX_DEPTH && dstOffset == NextOffset(offset)
    requires forall p | dstOffset <= p < dstOffset + 16 :: r[p] == b[p]
    requires forall mi | 0 <= mi < 32 ::
      MainBucket(r, dstOffset, mi)
      == Redistributed(MainBucket(b, dstOffset, mi), b[offset..offset + 8][mi / 4], localDepth - 1, localDepth + 1, mi)
    ensures IsHalf(b, localDepth, offset, r, dstOffset, 0, seq(MAIN_BUCKETS, mi requires 0 <= mi < 32 => MainBucket(b, dstOffset, mi)))
  {
    hide Redistributed;
    var orig: seq<Bucket> := seq(MAIN_BUCKETS, mi requires 0 <= mi < 32 => MainBucket(b, dstOffset, mi));
    forall i | 0 <= i < 16 ensures SharedBucket(r, dstOffset, i) == MainBucket(b, offset, 16 * 0 + i) {
      assert r[dstOffset + i] == b[dstOffset + i];
    }
    forall mi | 0 <= mi < 32
      ensures MainBucket(r, dstOffset, mi)
        == Redistributed(orig[mi], SharedBucket(b, offset, 8 * 0 + mi / 4), localDepth - 1, localDepth + 1, mi)
    {
      assert orig[mi] == MainBucket(b, dstOffset, mi);
      assert b[offset..offset + 8][mi / 4] == SharedBucket(b, offset, 8 * 0 + mi / 4);
    }
    forall mi | 0 <= mi < 32 ensures FromBefore(orig[mi], b) {
      assert orig[mi] == MainBucket(b, dstOffset, mi);
    }
  }
}
