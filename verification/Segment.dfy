/**
 A segment seen as the value of its 48 buckets: which bucket a subkey belongs to, what a
 well-formed segment is, and what one slot write does to it.

 Every bucket, shared or main, holds the subkeys that share their n most significant bits, and
 its current version is n - 5: n is L + 4 for the shared and L + 5 for the main buckets of a
 segment of local depth L.
 */
module Segments {
  import opened Bits
  import opened Options
  import opened Slots

  const SEGMENT_SIZE := 48
  const MAIN_BUCKETS := 32
  const SHARED_BUCKETS := 16
  const BUCKET_INDEX_BITS := 5
  const SUBKEY_LENGTH := 32
  const MAX_DEPTH := 23

  /** WRERT_GET_SEGMENT_NUMBER */
  function SegmentNumber(key: U32, keyLength: nat, globalDepth: nat): nat
    requires globalDepth <= keyLength
  {
    Shr(key, keyLength - globalDepth) % Pow2(globalDepth)
  }

  /** WRERT_GET_SHARED_BUCKET_INDEX, which keeps five bits; the callers keep four of them. */
  function SharedBucketIndex(k: U32, localDepth: nat): nat
    requires localDepth - 1 + BUCKET_INDEX_BITS <= SUBKEY_LENGTH
  {
    Shr(k, SUBKEY_LENGTH - (localDepth - 1 + BUCKET_INDEX_BITS)) % Pow2(BUCKET_INDEX_BITS)
  }

  /** WRERT_GET_MAIN_BUCKET_INDEX */
  function MainBucketIndex(k: U32, localDepth: nat): nat
    requires localDepth + BUCKET_INDEX_BITS <= SUBKEY_LENGTH
  {
    Shr(k, SUBKEY_LENGTH - (localDepth + BUCKET_INDEX_BITS)) % Pow2(BUCKET_INDEX_BITS)
  }

  /** calcBucketPosition */
  function BucketPosition(offset: nat, index: nat): nat {
    if offset == 0 then SHARED_BUCKETS + index
    else if offset == MAIN_BUCKETS then index
    else if index < offset then index + MAIN_BUCKETS
    else index % SHARED_BUCKETS
  }

  type Offset = s: nat | s == 0 || s == 16 || s == 32

  function SharedPosition(offset: Offset, k: U32, localDepth: nat): nat
    requires localDepth <= MAX_DEPTH
  {
    offset + SharedBucketIndex(k, localDepth) % SHARED_BUCKETS
  }

  function MainPosition(offset: Offset, k: U32, localDepth: nat): nat
    requires localDepth <= MAX_DEPTH
  {
    BucketPosition(offset, MainBucketIndex(k, localDepth))
  }

  type SegmentValue = b: seq<Bucket> | |b| == SEGMENT_SIZE witness ZeroSegment()

  /** A segment in fresh memory. */
  function ZeroSegment(): (b: seq<Bucket>)
    ensures |b| == SEGMENT_SIZE
    ensures forall p | 0 <= p < SEGMENT_SIZE :: b[p] == ZeroBucket()
  {
    seq(SEGMENT_SIZE, _ => ZeroBucket())
  }

  function SharedBucket(b: SegmentValue, offset: Offset, i: nat): Bucket
    requires i < SHARED_BUCKETS
  {
    b[offset + i]
  }

  function MainBucket(b: SegmentValue, offset: Offset, i: nat): Bucket
    requires i < MAIN_BUCKETS
  {
    b[BucketPosition(offset, i)]
  }

  /** The entry a segment holds for a subkey: the shared bucket is asked first. */
  function SegmentLookup(b: SegmentValue, localDepth: nat, offset: Offset, k: U32): Option<Entry>
    requires localDepth <= MAX_DEPTH
  {
    var s := BucketLookup(b[SharedPosition(offset, k, localDepth)], localDepth - 1, k);
    if s.Some? then s else BucketLookup(b[MainPosition(offset, k, localDepth)], localDepth, k)
  }

  // ----- index arithmetic -----

  /** The bits of the bucket indices, read as prefixes of the subkey. */
  lemma IndexTops(k: U32, localDepth: nat)
    requires localDepth <= MAX_DEPTH
    ensures MainBucketIndex(k, localDepth) == Top(k, localDepth + 5) % 32
    ensures SharedBucketIndex(k, localDepth) % SHARED_BUCKETS == Top(k, localDepth + 4) % 16
    ensures Top(k, localDepth + 4) == Top(k, localDepth + 5) / 2
    ensures Top(k, localDepth) == Top(k, localDepth + 4) / 16
    ensures Top(k, localDepth) == Top(k, localDepth + 5) / 32
    ensures Top(k, localDepth) == Top(k, localDepth + 1) / 2
  {
    hide Shr;
    hide Pow2;
    Pow2At32();
    TopStep(k, localDepth + 4);
    TopStep(k, localDepth + 3);
    TopStep(k, localDepth + 2);
    TopStep(k, localDepth + 1);
    TopStep(k, localDepth);
    Halvings(Top(k, localDepth + 5));
  }

  lemma Halvings(x: nat)
    ensures x / 2 / 2 / 2 / 2 / 2 == x / 32 && x / 2 / 16 == x / 32 && x / 2 % 32 % 16 == x / 2 % 16
  {
    Half(x, 2);
    Half(x, 4);
    Half(x, 8);
    Half(x, 16);
    Sixteenth(x);
  }

  lemma Half(x: nat, n: nat)
    requires n == 2 || n == 4 || n == 8 || n == 16
    ensures x / n / 2 == x / (2 * n)
  {
  }

  lemma Sixteenth(x: nat)
    ensures x / 2 / 16 == x / 32 && x / 2 % 32 % 16 == x / 2 % 16
  {
  }

  lemma SegmentNumberTop(k: U32, depth: nat)
    requires depth <= 32
    ensures SegmentNumber(k, SUBKEY_LENGTH, depth) == Top(k, depth) < Pow2(depth)
  {
    TopBound(k, depth);
    ModSmall(Top(k, depth), Pow2(depth));
  }

  lemma ModSmall(a: nat, m: nat)
    requires a < m
    ensures a % m == a
  {
  }

  /** The three thirds are laid out without overlap and cover the segment. */
  lemma PositionsPartition(offset: Offset)
    ensures forall i | 0 <= i < 32 :: BucketPosition(offset, i) < 48
    ensures forall i, j | 0 <= i < j < 32 :: BucketPosition(offset, i) != BucketPosition(offset, j)
    ensures forall i | 0 <= i < 32 :: BucketPosition(offset, i) < offset || offset + 16 <= BucketPosition(offset, i)
  {
  }

  // ----- the invariant -----

  ghost predicate WrittenPrefix(bk: seq<Slot>) {
    forall i, j | 0 <= i < j < |bk| :: bk[j].validFlag ==> bk[i].validFlag
  }

  /** Written slots are no newer than the bucket; a slot never written is all zero. */
  ghost predicate NotNewer(bk: seq<Slot>, ver: Version) {
    && (forall j | 0 <= j < |bk| :: bk[j].validFlag ==> -1 <= bk[j].migVersion <= ver)
    && (forall j | 0 <= j < |bk| :: !bk[j].validFlag ==> bk[j].migVersion == 0)
  }

  ghost predicate DistinctLive(bk: seq<Slot>, ver: Version) {
    forall i, j | 0 <= i < j < |bk| :: Live(bk[i], ver) && Live(bk[j], ver) ==> bk[i].subKey != bk[j].subKey
  }

  ghost predicate Homed(bk: seq<Slot>, ver: Version, n: nat, t: nat)
    requires n <= 32
  {
    forall j | 0 <= j < |bk| :: Live(bk[j], ver) ==> Top(bk[j].subKey, n) == t
  }

  /** A bucket for the subkeys whose n top bits are t. */
  ghost predicate BucketOk(bk: seq<Slot>, n: nat, t: nat) {
    && 4 <= n <= 28
    && LivePrefix(bk, n - 5) && WrittenPrefix(bk) && NotNewer(bk, n - 5)
    && DistinctLive(bk, n - 5) && Homed(bk, n - 5, n, t)
  }

  ghost predicate NoneInBoth(shared: seq<Slot>, main: seq<Slot>, localDepth: nat)
    requires localDepth <= MAX_DEPTH
  {
    forall i, j | 0 <= i < |shared| && 0 <= j < |main| ::
      Live(shared[i], localDepth - 1) && Live(main[j], localDepth) ==> shared[i].subKey != main[j].subKey
  }

  /** Every written slot, current or stale, whose subkey belongs to the segment, names a live subkey. */
  ghost predicate NoGhosts(b: SegmentValue, localDepth: nat, offset: Offset, pre: nat)
    requires localDepth <= MAX_DEPTH
  {
    forall p, j | 0 <= p < SEGMENT_SIZE && 0 <= j < SLOTS_PER_BUCKET ::
      b[p][j].validFlag && Top(b[p][j].subKey, localDepth) == pre
      ==> SegmentLookup(b, localDepth, offset, b[p][j].subKey).Some?
  }

  /** A segment for the subkeys whose localDepth top bits are pre. */
  ghost predicate SegmentOk(b: SegmentValue, localDepth: nat, offset: Offset, pre: nat) {
    && localDepth <= MAX_DEPTH
    && (forall i | 0 <= i < 16 :: BucketOk(SharedBucket(b, offset, i), localDepth + 4, pre * 16 + i))
    && (forall i | 0 <= i < 32 :: BucketOk(MainBucket(b, offset, i), localDepth + 5, pre * 32 + i))
    && (forall i | 0 <= i < 32 :: NoneInBoth(SharedBucket(b, offset, i / 2), MainBucket(b, offset, i), localDepth))
    && NoGhosts(b, localDepth, offset, pre)
  }

  /** The two buckets of a subkey, as places in the segment's layout. */
  lemma Homes(k: U32, localDepth: nat, offset: Offset, pre: nat)
    requires localDepth <= MAX_DEPTH && Top(k, localDepth) == pre
    ensures var mi := MainBucketIndex(k, localDepth);
      && 0 <= mi < 32
      && SharedPosition(offset, k, localDepth) == offset + mi / 2
      && Top(k, localDepth + 4) == pre * 16 + mi / 2
      && Top(k, localDepth + 5) == pre * 32 + mi
  {
    IndexTops(k, localDepth);
  }

  lemma ZeroSegmentOk()
    ensures SegmentOk(ZeroSegment(), 0, 0, 0)
    ensures forall k: U32 :: SegmentLookup(ZeroSegment(), 0, 0, k) == None
  {
    PositionsPartition(0);
    assert forall p, j | 0 <= p < 48 && 0 <= j < 16 :: !ZeroSegment()[p][j].validFlag;
    forall i | 0 <= i < 16 ensures BucketOk(SharedBucket(ZeroSegment(), 0, i), 4, 0 * 16 + i) { ZeroBucketOk(4, i); }
    forall i | 0 <= i < 32 ensures BucketOk(MainBucket(ZeroSegment(), 0, i), 5, 0 * 32 + i) { ZeroBucketOk(5, i); }
    forall k: U32 ensures SegmentLookup(ZeroSegment(), 0, 0, k) == None {
      IndexTops(k, 0);
    }
  }

  lemma ZeroBucketOk(n: nat, t: nat)
    requires 4 <= n <= 28
    ensures BucketOk(ZeroBucket(), n, t)
  {
    assert forall j | 0 <= j < 16 :: ZeroBucket()[j] == ZERO_SLOT;
  }

  // ----- one slot write -----

  /** Writing k into the first slot that is not live keeps the bucket and adds exactly k to it. */
  lemma BucketInsert(bk: Bucket, ver: Version, n: nat, t: nat, j: nat, s: Slot)
    requires BucketOk(bk, n, t) && ver == n - 5 && j < SLOTS_PER_BUCKET
    requires forall i | 0 <= i < j :: Live(bk[i], ver)
    requires !Live(bk[j], ver)
    requires Live(s, ver) && Top(s.subKey, n) == t
    requires BucketLookup(bk, ver, s.subKey) == None
    ensures BucketOk(bk[j := s], n, t)
    ensures BucketLookup(bk[j := s], ver, s.subKey) == Some(EntryOf(s))
    ensures forall k: U32 | k != s.subKey :: BucketLookup(bk[j := s], ver, k) == BucketLookup(bk, ver, k)
  {
    var b' := bk[j := s];
    assert forall i | 0 <= i < 16 :: Live(b'[i], ver) <==> i <= j;
    forall k: U32 ensures BucketLookup(b', ver, k) == if k == s.subKey then Some(EntryOf(s)) else BucketLookup(bk, ver, k) {
      var f, f' := Find(bk, ver, k), Find(b', ver, k);
      if k == s.subKey {
        assert IsAt(b'[j], ver, k);
      } else {
        assert forall i | 0 <= i < 16 :: IsAt(b'[i], ver, k) <==> IsAt(bk[i], ver, k);
      }
    }
  }

  /** A free slot of the bucket: the place just after its live prefix. */
  ghost predicate FirstFree(bk: Bucket, ver: Version, j: nat) {
    j < SLOTS_PER_BUCKET && !Live(bk[j], ver) && forall i | 0 <= i < j :: Live(bk[i], ver)
  }

  lemma NoneInBothInsert(shared: Bucket, main: Bucket, localDepth: nat, offset: Offset, pre: nat, mi: nat, i: nat, toMain: bool, j: nat, s: Slot)
    requires localDepth <= MAX_DEPTH && i < 32 && mi < 32
    requires BucketOk(shared, localDepth + 4, pre * 16 + i / 2) && BucketOk(main, localDepth + 5, pre * 32 + i)
    requires NoneInBoth(shared, main, localDepth)
    requires Top(s.subKey, localDepth + 5) == pre * 32 + mi
    requires j < SLOTS_PER_BUCKET && s.validFlag && s.migVersion == localDepth - (if toMain then 0 else 1)
    requires i == mi ==> BucketLookup(shared, localDepth - 1, s.subKey) == None == BucketLookup(main, localDepth, s.subKey)
    requires toMain ==> i == mi
    ensures toMain ==> NoneInBoth(shared, main[j := s], localDepth)
    ensures !toMain ==> NoneInBoth(shared[j := s], main, localDepth)
  {
    if i == mi {
      assert forall x | 0 <= x < 16 :: !IsAt(shared[x], localDepth - 1, s.subKey);
      assert forall x | 0 <= x < 16 :: !IsAt(main[x], localDepth, s.subKey);
    } else {
      assert forall x | 0 <= x < 16 :: Live(main[x], localDepth) ==> main[x].subKey != s.subKey;
    }
  }

  lemma NoGhostsInsert(b: SegmentValue, b': SegmentValue, localDepth: nat, offset: Offset, pre: nat, p: nat, j: nat, s: Slot)
    requires localDepth <= MAX_DEPTH && p < SEGMENT_SIZE && j < SLOTS_PER_BUCKET
    requires NoGhosts(b, localDepth, offset, pre) && b' == b[p := b[p][j := s]]
    requires forall k: U32 :: SegmentLookup(b', localDepth, offset, k) == if k == s.subKey then Some(EntryOf(s)) else SegmentLookup(b, localDepth, offset, k)
    ensures NoGhosts(b', localDepth, offset, pre)
  {
    forall q, x | 0 <= q < SEGMENT_SIZE && 0 <= x < SLOTS_PER_BUCKET && b'[q][x].validFlag && Top(b'[q][x].subKey, localDepth) == pre
      ensures SegmentLookup(b', localDepth, offset, b'[q][x].subKey).Some?
    {
      if q != p || x != j {
        assert b'[q][x] == b[q][x];
      }
    }
  }

  /** s is a new subkey of the segment, and slot j of bucket p is the free slot it may go to. */
  ghost predicate Insertable(b: SegmentValue, localDepth: nat, offset: Offset, pre: nat, toMain: bool, p: nat, j: nat, s: Slot) {
    && SegmentOk(b, localDepth, offset, pre)
    && Top(s.subKey, localDepth) == pre
    && SegmentLookup(b, localDepth, offset, s.subKey) == None
    && s.validFlag && s.migVersion == localDepth - (if toMain then 0 else 1)
    && p == (if toMain then MainPosition(offset, s.subKey, localDepth) else SharedPosition(offset, s.subKey, localDepth))
    && p < SEGMENT_SIZE && FirstFree(b[p], s.migVersion, j)
  }

  lemma WrittenBucket(b: SegmentValue, localDepth: nat, offset: Offset, pre: nat, toMain: bool, p: nat, j: nat, s: Slot)
    requires Insertable(b, localDepth, offset, pre, toMain, p, j, s)
    ensures var n := localDepth + (if toMain then 5 else 4);
      && BucketOk(b[p][j := s], n, Top(s.subKey, n))
      && BucketLookup(b[p][j := s], s.migVersion, s.subKey) == Some(EntryOf(s))
      && forall k: U32 | k != s.subKey :: BucketLookup(b[p][j := s], s.migVersion, k) == BucketLookup(b[p], s.migVersion, k)
  {
    hide BucketOk;
    hide NoGhosts;
    hide Shr;
    hide Pow2;
    var mi := MainBucketIndex(s.subKey, localDepth);
    Homes(s.subKey, localDepth, offset, pre);
    if toMain {
      assert MainBucket(b, offset, mi) == b[p];
      BucketInsert(b[p], localDepth, localDepth + 5, pre * 32 + mi, j, s);
    } else {
      assert SharedBucket(b, offset, mi / 2) == b[p];
      BucketInsert(b[p], localDepth - 1, localDepth + 4, pre * 16 + mi / 2, j, s);
    }
  }

  lemma InsertLookup(b: SegmentValue, localDepth: nat, offset: Offset, pre: nat, toMain: bool, p: nat, j: nat, s: Slot, k: U32)
    requires Insertable(b, localDepth, offset, pre, toMain, p, j, s)
    ensures SegmentLookup(b[p := b[p][j := s]], localDepth, offset, k)
      == if k == s.subKey then Some(EntryOf(s)) else SegmentLookup(b, localDepth, offset, k)
  {
    hide BucketOk;
    hide NoGhosts;
    hide Shr;
    hide Pow2;
    WrittenBucket(b, localDepth, offset, pre, toMain, p, j, s);
    PositionsPartition(offset);
    IndexTops(k, localDepth);
    IndexTops(s.subKey, localDepth);
  }

  /** A subkey the segment does not hold is live in neither of its buckets. */
  lemma AbsentFromBoth(b: SegmentValue, localDepth: nat, offset: Offset, pre: nat, k: U32)
    requires localDepth <= MAX_DEPTH && Top(k, localDepth) == pre
    requires SegmentLookup(b, localDepth, offset, k) == None
    ensures var mi := MainBucketIndex(k, localDepth);
      && mi < 32
      && BucketLookup(SharedBucket(b, offset, mi / 2), localDepth - 1, k) == None
      && BucketLookup(MainBucket(b, offset, mi), localDepth, k) == None
  {
    Homes(k, localDepth, offset, pre);
  }

  lemma InsertBuckets(b: SegmentValue, b': SegmentValue, localDepth: nat, offset: Offset, pre: nat, toMain: bool, p: nat, j: nat, s: Slot, i: nat)
    requires Insertable(b, localDepth, offset, pre, toMain, p, j, s) && b' == b[p := b[p][j := s]] && i < 32
    ensures BucketOk(SharedBucket(b', offset, i / 2), localDepth + 4, pre * 16 + i / 2)
    ensures BucketOk(MainBucket(b', offset, i), localDepth + 5, pre * 32 + i)
    ensures NoneInBoth(SharedBucket(b', offset, i / 2), MainBucket(b', offset, i), localDepth)
  {
    hide BucketOk;
    hide NoneInBoth;
    hide SegmentLookup;
    hide NoGhosts;
    hide BucketLookup;
    var mi := MainBucketIndex(s.subKey, localDepth);
    WrittenBucket(b, localDepth, offset, pre, toMain, p, j, s);
    PositionsPartition(offset);
    Homes(s.subKey, localDepth, offset, pre);
    AbsentFromBoth(b, localDepth, offset, pre, s.subKey);
    var shared, main := SharedBucket(b, offset, i / 2), MainBucket(b, offset, i);
    assert BucketOk(shared, localDepth + 4, pre * 16 + i / 2) && BucketOk(main, localDepth + 5, pre * 32 + i);
    assert NoneInBoth(shared, main, localDepth);
    if toMain && i == mi {
      assert MainBucket(b', offset, i) == main[j := s] && SharedBucket(b', offset, i / 2) == shared;
      NoneInBothInsert(shared, main, localDepth, offset, pre, mi, i, toMain, j, s);
    } else if !toMain && i / 2 == mi / 2 {
      assert MainBucket(b', offset, i) == main && SharedBucket(b', offset, i / 2) == shared[j := s];
      NoneInBothInsert(shared, main, localDepth, offset, pre, mi, i, toMain, j, s);
    } else {
      assert MainBucket(b', offset, i) == main && SharedBucket(b', offset, i / 2) == shared;
    }
  }

  /** Writing a subkey the segment does not hold adds exactly that subkey, wherever it is written. */
  lemma SegmentInsert(b: SegmentValue, localDepth: nat, offset: Offset, pre: nat, toMain: bool, p: nat, j: nat, s: Slot)
    requires Insertable(b, localDepth, offset, pre, toMain, p, j, s)
    ensures SegmentOk(b[p := b[p][j := s]], localDepth, offset, pre)
    ensures forall k: U32 ::
      SegmentLookup(b[p := b[p][j := s]], localDepth, offset, k)
      == if k == s.subKey then Some(EntryOf(s)) else SegmentLookup(b, localDepth, offset, k)
  {
    hide BucketOk;
    hide NoneInBoth;
    hide SegmentLookup;
    hide NoGhosts;
    var b' := b[p := b[p][j := s]];
    forall k: U32 ensures SegmentLookup(b', localDepth, offset, k) == if k == s.subKey then Some(EntryOf(s)) else SegmentLookup(b, localDepth, offset, k) {
      InsertLookup(b, localDepth, offset, pre, toMain, p, j, s, k);
    }
    forall i | 0 <= i < 16 ensures BucketOk(SharedBucket(b', offset, i), localDepth + 4, pre * 16 + i) {
      InsertBuckets(b, b', localDepth, offset, pre, toMain, p, j, s, 2 * i);
    }
    forall i | 0 <= i < 32
      ensures BucketOk(MainBucket(b', offset, i), localDepth + 5, pre * 32 + i)
      ensures NoneInBoth(SharedBucket(b', offset, i / 2), MainBucket(b', offset, i), localDepth)
    {
      InsertBuckets(b, b', localDepth, offset, pre, toMain, p, j, s, i);
    }
    NoGhostsInsert(b, b', localDepth, offset, pre, p, j, s);
  }

  /** j is where a subkey sits live in bucket p, one of its two buckets. */
  ghost predicate SitsAt(b: SegmentValue, localDepth: nat, offset: Offset, k: U32, p: nat, j: nat)
    requires localDepth <= MAX_DEPTH
  {
    && p < SEGMENT_SIZE && j < SLOTS_PER_BUCKET
    && (|| (p == SharedPosition(offset, k, localDepth) && j == Find(b[p], localDepth - 1, k))
        || (p == MainPosition(offset, k, localDepth) && j == Find(b[p], localDepth, k)))
  }

  /** Overwriting the value of a live subkey's slot changes that subkey's entry only. */
  lemma SegmentUpdate(b: SegmentValue, localDepth: nat, offset: Offset, pre: nat, k: U32, p: nat, j: nat, s: Slot)
    requires SegmentOk(b, localDepth, offset, pre) && Top(k, localDepth) == pre
    requires SitsAt(b, localDepth, offset, k, p, j)
    requires s == b[p][j].(value := s.value, nodeFlag := s.nodeFlag)
    ensures SegmentOk(b[p := b[p][j := s]], localDepth, offset, pre)
    ensures forall k': U32 ::
      SegmentLookup(b[p := b[p][j := s]], localDepth, offset, k')
      == if k' == k then Some(EntryOf(s)) else SegmentLookup(b, localDepth, offset, k')
  {
    hide BucketOk;
    hide NoneInBoth;
    hide SegmentLookup;
    var b' := b[p := b[p][j := s]];
    assert forall q | 0 <= q < SEGMENT_SIZE :: SameShape(b[q], b'[q]);
    forall k': U32 ensures SegmentLookup(b', localDepth, offset, k') == if k' == k then Some(EntryOf(s)) else SegmentLookup(b, localDepth, offset, k') {
      UpdateLookup(b, b', localDepth, offset, pre, k, p, j, s, k');
    }
    forall i | 0 <= i < 16 ensures BucketOk(SharedBucket(b', offset, i), localDepth + 4, pre * 16 + i) {
      SameShapeOk(SharedBucket(b, offset, i), SharedBucket(b', offset, i), localDepth + 4, pre * 16 + i);
    }
    forall i | 0 <= i < 32
      ensures BucketOk(MainBucket(b', offset, i), localDepth + 5, pre * 32 + i)
      ensures NoneInBoth(SharedBucket(b', offset, i / 2), MainBucket(b', offset, i), localDepth)
    {
      SameShapeOk(MainBucket(b, offset, i), MainBucket(b', offset, i), localDepth + 5, pre * 32 + i);
      SameShapeApart(SharedBucket(b, offset, i / 2), SharedBucket(b', offset, i / 2),
                     MainBucket(b, offset, i), MainBucket(b', offset, i), localDepth);
    }
    forall q, x | 0 <= q < SEGMENT_SIZE && 0 <= x < SLOTS_PER_BUCKET && b'[q][x].validFlag && Top(b'[q][x].subKey, localDepth) == pre
      ensures SegmentLookup(b', localDepth, offset, b'[q][x].subKey).Some?
    {
      assert b[q][x].validFlag && b[q][x].subKey == b'[q][x].subKey;
    }
  }

  ghost predicate SameShape(bk: Bucket, bk': Bucket) {
    forall i | 0 <= i < SLOTS_PER_BUCKET :: bk'[i] == bk[i].(value := bk'[i].value, nodeFlag := bk'[i].nodeFlag)
  }

  lemma SameShapeOk(bk: Bucket, bk': Bucket, n: nat, t: nat)
    requires BucketOk(bk, n, t) && SameShape(bk, bk')
    ensures BucketOk(bk', n, t)
  {
  }

  lemma SameShapeApart(shared: Bucket, shared': Bucket, main: Bucket, main': Bucket, localDepth: nat)
    requires localDepth <= MAX_DEPTH && NoneInBoth(shared, main, localDepth)
    requires SameShape(shared, shared') && SameShape(main, main')
    ensures NoneInBoth(shared', main', localDepth)
  {
  }

  lemma SameShapeFind(bk: Bucket, bk': Bucket, ver: Version, k: U32)
    requires SameShape(bk, bk')
    ensures Find(bk', ver, k) == Find(bk, ver, k)
  {
    assert forall i | 0 <= i < SLOTS_PER_BUCKET :: IsAt(bk'[i], ver, k) <==> IsAt(bk[i], ver, k);
  }

  lemma UpdateLookup(b: SegmentValue, b': SegmentValue, localDepth: nat, offset: Offset, pre: nat, k: U32, p: nat, j: nat, s: Slot, k': U32)
    requires SegmentOk(b, localDepth, offset, pre) && Top(k, localDepth) == pre
    requires SitsAt(b, localDepth, offset, k, p, j)
    requires b' == b[p := b[p][j := s]] && s == b[p][j].(value := s.value, nodeFlag := s.nodeFlag)
    ensures SegmentLookup(b', localDepth, offset, k')
      == if k' == k then Some(EntryOf(s)) else SegmentLookup(b, localDepth, offset, k')
  {
    hide BucketOk;
    hide NoGhosts;
    hide NoneInBoth;
    hide BucketPosition;
    hide BucketLookup;
    Homes(k, localDepth, offset, pre);
    var mi := MainBucketIndex(k, localDepth);
    if p == SharedPosition(offset, k, localDepth) && j == Find(b[p], localDepth - 1, k) {
      UpdateSharedLookup(b, localDepth, offset, k, s, k');
    } else {
      assert NoneInBoth(SharedBucket(b, offset, mi / 2), MainBucket(b, offset, mi), localDepth);
      InMainOnly(SharedBucket(b, offset, mi / 2), MainBucket(b, offset, mi), localDepth, k);
      UpdateMainLookup(b, localDepth, offset, k, s, k');
    }
  }

  lemma UpdateSharedLookup(b: SegmentValue, localDepth: nat, offset: Offset, k: U32, s: Slot, k': U32)
    requires localDepth <= MAX_DEPTH && SharedPosition(offset, k, localDepth) < SEGMENT_SIZE
    requires var bk := b[SharedPosition(offset, k, localDepth)];
      var j := Find(bk, localDepth - 1, k);
      j < SLOTS_PER_BUCKET && s == bk[j].(value := s.value, nodeFlag := s.nodeFlag)
    ensures var p := SharedPosition(offset, k, localDepth);
      SegmentLookup(b[p := b[p][Find(b[p], localDepth - 1, k) := s]], localDepth, offset, k')
      == if k' == k then Some(EntryOf(s)) else SegmentLookup(b, localDepth, offset, k')
  {
    hide BucketLookup;
    hide Find;
    IndexTops(k', localDepth);
    PositionsPartition(offset);
    UpdateBucket(b[SharedPosition(offset, k, localDepth)], localDepth - 1, k, s, k');
  }

  lemma UpdateMainLookup(b: SegmentValue, localDepth: nat, offset: Offset, k: U32, s: Slot, k': U32)
    requires localDepth <= MAX_DEPTH && MainPosition(offset, k, localDepth) < SEGMENT_SIZE
    requires var bk := b[MainPosition(offset, k, localDepth)];
      var j := Find(bk, localDepth, k);
      j < SLOTS_PER_BUCKET && s == bk[j].(value := s.value, nodeFlag := s.nodeFlag)
    requires BucketLookup(b[SharedPosition(offset, k, localDepth)], localDepth - 1, k) == None
    ensures var p := MainPosition(offset, k, localDepth);
      SegmentLookup(b[p := b[p][Find(b[p], localDepth, k) := s]], localDepth, offset, k')
      == if k' == k then Some(EntryOf(s)) else SegmentLookup(b, localDepth, offset, k')
  {
    hide BucketLookup;
    hide Find;
    IndexTops(k, localDepth);
    IndexTops(k', localDepth);
    PositionsPartition(offset);
    UpdateBucket(b[MainPosition(offset, k, localDepth)], localDepth, k, s, k');
  }

  lemma InMainOnly(shared: Bucket, main: Bucket, localDepth: nat, k: U32)
    requires localDepth <= MAX_DEPTH && NoneInBoth(shared, main, localDepth)
    requires Find(main, localDepth, k) < SLOTS_PER_BUCKET
    ensures BucketLookup(shared, localDepth - 1, k) == None
  {
  }

  lemma UpdateBucket(bk: Bucket, ver: Version, k: U32, s: Slot, k': U32)
    requires Find(bk, ver, k) < SLOTS_PER_BUCKET
    requires s == bk[Find(bk, ver, k)].(value := s.value, nodeFlag := s.nodeFlag)
    ensures BucketLookup(bk[Find(bk, ver, k) := s], ver, k')
      == if k' == k then Some(EntryOf(s)) else BucketLookup(bk, ver, k')
    ensures BucketLookup(bk, ver, k).Some?
  {
    SameShapeFind(bk, bk[Find(bk, ver, k) := s], ver, k');
  }
}
