/**
 The hash node of ERT: extendible hashing with lazy deletion. A split copies the upper half of a segment and leaves
 the moved entries where they were; a later insertion tells them by their top bits and takes their place.
 */
module ErtNodes {
  import opened Bits
  import opened Options
  import opened Addresses
  import Segments
  import Directory

  const SPAN := 32
  const BUCKET_SIZE := 4
  const BUCKETS := 256
  const MAX_DEPTH := 22      // no segment and no directory gets deeper

  /** A subkey, its flag in bit 56, and a value. */
  datatype Counter = Counter(key: U32, flag: bool, value: U64)

  type Bucket = s: seq<Counter> | |s| == BUCKET_SIZE witness EmptyBucket()

  datatype Segment = Segment(depth: nat, buckets: seq<Bucket>)

  function EmptyBucket(): (s: seq<Counter>)
    ensures |s| == BUCKET_SIZE && forall j | 0 <= j < |s| :: s[j] == Counter(0, false, 0)
  {
    seq(BUCKET_SIZE, _ => Counter(0, false, 0))
  }

  /** What a subkey is mapped to. */
  datatype Found = Found(value: U64, flag: bool)

  // ----- buckets -----

  /** c belongs to a segment, of some depth and with some top bits; other entries are leftovers. */
  predicate Live(c: Counter, depth: nat, pre: nat)
    requires depth <= SPAN
  {
    c.key != 0 && Top(c.key, depth) == pre
  }

  /** The first slot with a key. */
  function FindKey(bk: seq<Counter>, k: U32): (j: nat)
    ensures j <= |bk| && (j < |bk| ==> bk[j].key == k) && forall i | 0 <= i < j :: bk[i].key != k
  {
    if bk == [] || bk[0].key == k then 0 else 1 + FindKey(bk[1..], k)
  }

  function BucketLookup(bk: seq<Counter>, k: U32): Option<Found> {
    var j := FindKey(bk, k);
    if j < |bk| then Some(Found(bk[j].value, bk[j].flag)) else None
  }

  /** Live entries are where they belong and different; a slot without a key is all zero. */
  ghost predicate BucketOk(bk: seq<Counter>, index: nat, depth: nat, pre: nat)
    requires depth <= SPAN
  {
    && (forall j | 0 <= j < |bk| && bk[j].key == 0 :: bk[j].value == 0)
    && (forall j | 0 <= j < |bk| && Live(bk[j], depth, pre) :: bk[j].key % BUCKETS == index)
    && (forall i, j | 0 <= i < j < |bk| && Live(bk[i], depth, pre) && Live(bk[j], depth, pre) :: bk[i].key != bk[j].key)
  }

  ghost predicate SegmentOk(s: Segment, pre: nat) {
    s.depth <= MAX_DEPTH && |s.buckets| == BUCKETS && forall i | 0 <= i < BUCKETS :: BucketOk(s.buckets[i], i, s.depth, pre)
  }

  function SegmentLookup(s: Segment, k: U32): Option<Found>
    requires |s.buckets| == BUCKETS
  {
    BucketLookup(s.buckets[k % BUCKETS], k)
  }

  /** ERTIntBucket::get */
  method BucketGet(bk: Bucket, k: U32) returns (r: Option<Found>)
    ensures r == BucketLookup(bk, k)
  {
    for i := 0 to BUCKET_SIZE
      invariant forall j | 0 <= j < i :: bk[j].key != k
    {
      if k == bk[i].key {
        return Some(Found(bk[i].value, bk[i].flag));
      }
    }
    return None;
  }

  /** A slot that a new key may take: empty, or left over from a segment this one is no longer part of. */
  predicate Reusable(c: Counter, k: U32, depth: nat)
    requires depth <= SPAN
  {
    (c.key == 0 && c.value == 0) || Top(c.key, depth) != Top(k, depth)
  }

  /** ERTIntBucket::findPlace: the slot of the key, or else the first one it may take, or else -1. */
  method FindPlace(bk: Bucket, k: U32, depth: nat) returns (res: int)
    requires depth <= SPAN
    ensures -1 <= res < BUCKET_SIZE
    ensures FindKey(bk, k) < BUCKET_SIZE ==> res == FindKey(bk, k)
    ensures FindKey(bk, k) == BUCKET_SIZE && res >= 0 ==> Reusable(bk[res], k, depth)
    ensures res == -1 ==> forall j | 0 <= j < BUCKET_SIZE :: bk[j].key != k && !Reusable(bk[j], k, depth)
  {
    res := -1;
    for i := 0 to BUCKET_SIZE
      invariant -1 <= res < i && forall j | 0 <= j < i :: bk[j].key != k
      invariant res >= 0 ==> Reusable(bk[res], k, depth)
      invariant res == -1 ==> forall j | 0 <= j < i :: !Reusable(bk[j], k, depth)
    {
      Segments.SegmentNumberTop(k, depth);
      Segments.SegmentNumberTop(bk[i].key, depth);
      if k == bk[i].key {
        return i;
      } else if res == -1 && bk[i].key == 0 && bk[i].value == 0 {
        res := i;
      } else if res == -1 && Segments.SegmentNumber(k, SPAN, depth) != Segments.SegmentNumber(bk[i].key, SPAN, depth) {
        res := i;
      }
    }
  }

  /** What put writes into a slot: a key that is there without a flag keeps having none. */
  function Written(c: Counter, k: U32, value: U64, flag: bool): Counter {
    if c.key == k && !c.flag then Counter(k, false, value) else Counter(k, flag, value)
  }

  /** The entry of a key after a put. */
  function NewFound(before: Option<Found>, value: U64, flag: bool): Found {
    Found(value, if before.Some? && !before.value.flag then false else flag)
  }

  /** Writing the slot that findPlace picks changes one key, among those that belong to the segment. */
  lemma SlotWritten(bk: Bucket, index: nat, depth: nat, pre: nat, k: U32, j: nat, value: U64, flag: bool)
    requires depth <= SPAN && BucketOk(bk, index, depth, pre) && k != 0 && Top(k, depth) == pre && k % BUCKETS == index && j < BUCKET_SIZE
    requires if FindKey(bk, k) < BUCKET_SIZE then j == FindKey(bk, k) else Reusable(bk[j], k, depth)
    ensures var bk' := bk[j := Written(bk[j], k, value, flag)];
      && BucketOk(bk', index, depth, pre) && BucketLookup(bk', k) == Some(NewFound(BucketLookup(bk, k), value, flag))
      && forall q: U32 | q != k && q != 0 && Top(q, depth) == pre :: BucketLookup(bk', q) == BucketLookup(bk, q)
  {
    var bk' := bk[j := Written(bk[j], k, value, flag)];
    FirstIs(bk', k, j);
    forall q: U32 | q != k && q != 0 && Top(q, depth) == pre ensures BucketLookup(bk', q) == BucketLookup(bk, q) {
      var f := FindKey(bk, q);
      if f < |bk| { FirstIs(bk', q, f); }
    }
  }

  lemma FirstIs(bk: seq<Counter>, k: U32, j: nat)
    requires j < |bk| && bk[j].key == k && forall i | 0 <= i < j :: bk[i].key != k
    ensures FindKey(bk, k) == j
  {
  }

  /** A bucket without a place, and one more key of its segment, are five keys that share depth + 8 bits. */
  lemma FullBoundsDepth(bk: Bucket, index: nat, depth: nat, pre: nat, k: U32)
    requires depth <= MAX_DEPTH && BucketOk(bk, index, depth, pre) && k != 0 && Top(k, depth) == pre && k % BUCKETS == index
    requires forall j | 0 <= j < BUCKET_SIZE :: bk[j].key != k && !Reusable(bk[j], k, depth)
    ensures depth < MAX_DEPTH
  {
    if depth == MAX_DEPTH {
      Top22(k);
      forall j | 0 <= j < BUCKET_SIZE ensures Live(bk[j], depth, pre) && bk[j].key / 1024 == pre {
        Top22(bk[j].key);
      }
      var a, b, c, d := bk[0].key, bk[1].key, bk[2].key, bk[3].key;
      Quarter(a, pre, index);
      Quarter(b, pre, index);
      Quarter(c, pre, index);
      Quarter(d, pre, index);
      Quarter(k, pre, index);
      hide QuarterOf;
      hide BucketOk;
      Five(QuarterOf(a), QuarterOf(b), QuarterOf(c), QuarterOf(d), QuarterOf(k));
    }
  }

  lemma Top22(k: U32)
    ensures Top(k, 22) == k / 1024
  {
    assert Shr(k, 1) == k / 2 && Shr(k, 2) == k / 4 && Shr(k, 3) == k / 8 && Shr(k, 4) == k / 16 && Shr(k, 5) == k / 32;
    assert Shr(k, 6) == k / 64 && Shr(k, 7) == k / 128 && Shr(k, 8) == k / 256 && Shr(k, 9) == k / 512;
  }

  /** Ten free bits, eight of them fixed, leave room for four keys. */
  lemma Five(a: nat, b: nat, c: nat, d: nat, e: nat)
    requires a < 4 && b < 4 && c < 4 && d < 4 && e < 4
    ensures a == b || a == c || a == d || a == e || b == c || b == d || b == e || c == d || c == e || d == e
  {
  }

  function QuarterOf(a: nat): nat {
    a % 1024 / 256
  }

  lemma Quarter(a: nat, pre: nat, index: nat)
    requires a / 1024 == pre && a % 256 == index
    ensures QuarterOf(a) < 4 && a == pre * 1024 + QuarterOf(a) * 256 + index
  {
  }

  // ----- what a split copies -----

  /** The entries from directory index mid on, live or not, in order. */
  function Upper(bk: seq<Counter>, depth: nat, mid: nat): (r: seq<Counter>)
    requires depth <= SPAN
    ensures |r| <= |bk| && forall c | c in r :: c in bk && Top(c.key, depth) >= mid
  {
    if bk == [] then []
    else
      var rest, last := Upper(bk[..|bk| - 1], depth, mid), bk[|bk| - 1];
      if Top(last.key, depth) >= mid then rest + [last] else rest
  }

  lemma {:induction false} FindAppend(s: seq<Counter>, c: Counter, k: U32)
    ensures FindKey(s + [c], k) == if FindKey(s, k) < |s| then FindKey(s, k) else if c.key == k then |s| else |s| + 1
  {
    if s == [] {
      assert FindKey([c][1..], k) == 0;
    } else {
      assert (s + [c])[1..] == s[1..] + [c];
      FindAppend(s[1..], c, k);
    }
  }

  lemma LookupAppend(s: seq<Counter>, c: Counter, k: U32)
    ensures BucketLookup(s + [c], k)
      == if BucketLookup(s, k).Some? then BucketLookup(s, k) else if c.key == k then Some(Found(c.value, c.flag)) else None
  {
    FindAppend(s, c, k);
  }

  /** The copies answer for the keys of the upper half what the bucket answered. */
  lemma {:induction false} UpperLookup(bk: seq<Counter>, depth: nat, mid: nat, k: U32)
    requires depth <= SPAN && Top(k, depth) >= mid
    ensures BucketLookup(Upper(bk, depth, mid), k) == BucketLookup(bk, k)
  {
    if bk != [] {
      var s, c := bk[..|bk| - 1], bk[|bk| - 1];
      assert bk == s + [c];
      UpperLookup(s, depth, mid, k);
      LookupAppend(s, c, k);
      LookupAppend(Upper(s, depth, mid), c, k);
    }
  }

  lemma {:induction false} ZerosLookup(s: seq<Counter>, n: nat, k: U32)
    requires k != 0
    ensures BucketLookup(s + seq(n, _ => Counter(0, false, 0)), k) == BucketLookup(s, k)
  {
    if n == 0 {
      assert s + seq(0, _ => Counter(0, false, 0)) == s;
    } else {
      ZerosLookup(s, n - 1, k);
      LookupAppend(s + seq(n - 1, _ => Counter(0, false, 0)), Counter(0, false, 0), k);
      assert s + seq(n, _ => Counter(0, false, 0)) == s + seq(n - 1, _ => Counter(0, false, 0)) + [Counter(0, false, 0)];
    }
  }

  /** A bucket with fewer live entries, or none of the others, is well-formed for a part of the segment. */
  lemma {:induction false} UpperOk(bk: seq<Counter>, index: nat, depth: nat, pre: nat, pre': nat, globalDepth: nat, mid: nat)
    requires depth < globalDepth <= SPAN && BucketOk(bk, index, depth, pre) && pre' / 2 == pre
    ensures BucketOk(Upper(bk, globalDepth, mid), index, depth + 1, pre')
  {
    if bk != [] {
      var n := |bk| - 1;
      UpperOk(bk[..n], index, depth, pre, pre', globalDepth, mid);
      LiveBefore(depth, pre, pre');
      var r := Upper(bk[..n], globalDepth, mid);
      forall i | 0 <= i < |r| && Live(r[i], depth + 1, pre') && Live(bk[n], depth + 1, pre') ensures r[i].key != bk[n].key {
        assert r[i] in bk[..n];
      }
    }
  }

  /** Who is live in a half was live in the whole. */
  lemma LiveBefore(depth: nat, pre: nat, pre': nat)
    requires depth < SPAN && pre' / 2 == pre
    ensures forall c: Counter :: Live(c, depth + 1, pre') ==> Live(c, depth, pre)
  {
    forall c: Counter | Live(c, depth + 1, pre') ensures Live(c, depth, pre) {
      TopStep(c.key, depth);
    }
  }

  lemma UpperNext(bk: seq<Counter>, j: nat, depth: nat, mid: nat)
    requires depth <= SPAN && j < |bk|
    ensures Upper(bk[..j + 1], depth, mid) == Upper(bk[..j], depth, mid) + if Top(bk[j].key, depth) >= mid then [bk[j]] else []
  {
    assert bk[..j + 1][..j] == bk[..j];
  }

  lemma PutBehind(u: seq<Counter>, c: Counter, n: nat)
    requires n > 0
    ensures (u + seq(n, _ => Counter(0, false, 0)))[|u| := c] == (u + [c]) + seq(n - 1, _ => Counter(0, false, 0))
  {
  }

  /** The loop over a bucket's slots. */
  method MigrateBucket(bk: Bucket, globalDepth: nat, mid: nat) returns (dst: Bucket)
    requires globalDepth <= SPAN
    ensures dst == Upper(bk, globalDepth, mid) + seq(BUCKET_SIZE - |Upper(bk, globalDepth, mid)|, _ => Counter(0, false, 0))
  {
    hide Upper;
    dst := EmptyBucket();
    var bucketCnt := 0;
    NoneUpper(globalDepth, mid);
    assert bk[..0] == [];
    for j := 0 to BUCKET_SIZE
      invariant bucketCnt == |Upper(bk[..j], globalDepth, mid)| <= j
      invariant dst == Upper(bk[..j], globalDepth, mid) + seq(BUCKET_SIZE - bucketCnt, _ => Counter(0, false, 0))
    {
      Segments.SegmentNumberTop(bk[j].key, globalDepth);
      UpperNext(bk, j, globalDepth, mid);
      if Segments.SegmentNumber(bk[j].key, SPAN, globalDepth) >= mid {
        PutBehind(Upper(bk[..j], globalDepth, mid), bk[j], BUCKET_SIZE - bucketCnt);
        dst := dst[bucketCnt := bk[j]];
        bucketCnt := bucketCnt + 1;
      }
    }
    assert bk[..BUCKET_SIZE] == bk;
  }

  lemma NoneUpper(depth: nat, mid: nat)
    requires depth <= SPAN
    ensures Upper([], depth, mid) == []
  {
  }

  /** What a new segment gets from an old one. */
  ghost predicate Migrated(s: Segment, s': Segment, globalDepth: nat, mid: nat) {
    globalDepth <= SPAN && |s.buckets| == BUCKETS && s'.depth == s.depth + 1 && |s'.buckets| == BUCKETS && forall i | 0 <= i < BUCKETS ::
      s'.buckets[i] == Upper(s.buckets[i], globalDepth, mid) + seq(BUCKET_SIZE - |Upper(s.buckets[i], globalDepth, mid)|, _ => Counter(0, false, 0))
  }

  method Migrate(s: Segment, globalDepth: nat, mid: nat) returns (s': Segment)
    requires globalDepth <= SPAN && |s.buckets| == BUCKETS
    ensures Migrated(s, s', globalDepth, mid)
  {
    var buckets: seq<Bucket> := [];
    for i := 0 to BUCKETS
      invariant |buckets| == i && forall j | 0 <= j < i ::
        buckets[j] == Upper(s.buckets[j], globalDepth, mid) + seq(BUCKET_SIZE - |Upper(s.buckets[j], globalDepth, mid)|, _ => Counter(0, false, 0))
    {
      var dst := MigrateBucket(s.buckets[i], globalDepth, mid);
      buckets := buckets + [dst];
    }
    s' := Segment(s.depth + 1, buckets);
  }

  /** Both halves of a split are well-formed: the old segment as it is, and the new one with the copies. */
  lemma HalvesOk(s: Segment, s': Segment, pre: nat, globalDepth: nat, mid: nat)
    requires SegmentOk(s, pre) && s.depth < MAX_DEPTH && s.depth < globalDepth <= SPAN && Migrated(s, s', globalDepth, mid)
    ensures SegmentOk(s.(depth := s.depth + 1), 2 * pre) && SegmentOk(s', 2 * pre + 1)
  {
    hide BucketOk;
    forall i | 0 <= i < BUCKETS ensures BucketOk(s.buckets[i], i, s.depth + 1, 2 * pre) && BucketOk(s'.buckets[i], i, s.depth + 1, 2 * pre + 1) {
      assert BucketOk(s.buckets[i], i, s.depth, pre);
      LowerOk(s.buckets[i], i, s.depth, pre);
      UpperOk(s.buckets[i], i, s.depth, pre, 2 * pre + 1, globalDepth, mid);
      PaddedOk(Upper(s.buckets[i], globalDepth, mid), BUCKET_SIZE - |Upper(s.buckets[i], globalDepth, mid)|, i, s.depth + 1, 2 * pre + 1);
    }
  }

  lemma LowerOk(bk: seq<Counter>, index: nat, depth: nat, pre: nat)
    requires depth < SPAN && BucketOk(bk, index, depth, pre)
    ensures BucketOk(bk, index, depth + 1, 2 * pre)
  {
    LiveBefore(depth, pre, 2 * pre);
    hide Live;
  }

  /** The new segment answers for the keys of the upper half what the old one answered. */
  lemma UpperAnswers(s: Segment, s': Segment, globalDepth: nat, mid: nat, k: U32)
    requires Migrated(s, s', globalDepth, mid) && k != 0 && Top(k, globalDepth) >= mid
    ensures SegmentLookup(s', k) == SegmentLookup(s, k)
  {
    hide BucketLookup;
    var bk := s.buckets[k % BUCKETS];
    UpperLookup(bk, globalDepth, mid, k);
    ZerosLookup(Upper(bk, globalDepth, mid), BUCKET_SIZE - |Upper(bk, globalDepth, mid)|, k);
  }

  lemma PaddedOk(s: seq<Counter>, n: nat, index: nat, depth: nat, pre: nat)
    requires depth <= SPAN && BucketOk(s, index, depth, pre)
    ensures BucketOk(s + seq(n, _ => Counter(0, false, 0)), index, depth, pre)
  {
  }

  // ----- the directory -----

  /** A node: a directory of addresses, and the segments there. */
  datatype Table = Table(globalDepth: nat, directory: seq<Addr>, segments: map<Addr, Segment>)

  /** Entry i leads to a segment for the keys whose top bits are those of i. */
  ghost predicate EntryOk(t: Table, i: nat)
    requires i < |t.directory|
  {
    t.directory[i] in t.segments && SegmentAt(t, i).depth <= t.globalDepth && SegmentOk(SegmentAt(t, i), Shr(i, FreeBits(t, i)))
  }

  function SegmentAt(t: Table, i: nat): Segment {
    if i < |t.directory| && t.directory[i] in t.segments then t.segments[t.directory[i]] else Segment(0, [])
  }

  /** The low bits of an index that its segment does not depend on. */
  function FreeBits(t: Table, i: nat): nat {
    if SegmentAt(t, i).depth <= t.globalDepth then t.globalDepth - SegmentAt(t, i).depth else 0
  }

  ghost predicate TableOk(t: Table) {
    && t.globalDepth <= MAX_DEPTH && |t.directory| == Pow2(t.globalDepth)
    && (forall i | 0 <= i < |t.directory| :: EntryOk(t, i))
    && (forall i, j | 0 <= i < |t.directory| && 0 <= j < |t.directory| ::
          t.directory[i] == t.directory[j] <==> Directory.SameGroup(i, j, FreeBits(t, i)))
  }

  function IndexOf(t: Table, k: U32): nat
    requires t.globalDepth <= SPAN
  {
    Top(k, t.globalDepth)
  }

  /** What the node maps a key to. */
  ghost function Lookup(t: Table, k: U32): Option<Found>
    requires TableOk(t) && k != 0
  {
    InDirectory(t, k);
    SegmentLookup(t.segments[t.directory[IndexOf(t, k)]], k)
  }

  lemma InDirectory(t: Table, k: U32)
    requires TableOk(t)
    ensures t.globalDepth <= MAX_DEPTH && IndexOf(t, k) < |t.directory| && EntryOk(t, IndexOf(t, k))
    ensures Top(k, SegmentAt(t, IndexOf(t, k)).depth) == Shr(IndexOf(t, k), FreeBits(t, IndexOf(t, k)))
  {
    TopBound(k, t.globalDepth);
    var i := IndexOf(t, k);
    assert EntryOk(t, i);
    TopShr(k, SegmentAt(t, i).depth, t.globalDepth);
  }

  lemma StoredEntry(t: Table, i: nat, s: Segment, y: nat)
    requires TableOk(t) && i < |t.directory| && s.depth == SegmentAt(t, i).depth && SegmentOk(s, Shr(i, FreeBits(t, i))) && y < |t.directory|
    ensures var t' := t.(segments := t.segments[t.directory[i] := s]); EntryOk(t', y) && FreeBits(t', y) == FreeBits(t, y)
  {
    hide SegmentOk;
    assert EntryOk(t, y) && EntryOk(t, i);
    if t.directory[y] == t.directory[i] {
      assert Directory.SameGroup(y, i, FreeBits(t, y));
    }
  }

  /** Another segment at the address of entry i, and nothing else changed. */
  lemma Stored(t: Table, i: nat, s: Segment)
    requires TableOk(t) && i < |t.directory| && s.depth == SegmentAt(t, i).depth && SegmentOk(s, Shr(i, FreeBits(t, i)))
    ensures TableOk(t.(segments := t.segments[t.directory[i] := s]))
    ensures forall k: U32 | k != 0 && t.directory[IndexInside(t, k)] != t.directory[i] ::
      Lookup(t.(segments := t.segments[t.directory[i] := s]), k) == Lookup(t, k)
  {
    hide SegmentOk;
    hide SegmentLookup;
    hide Directory.SameGroup;
    var t' := t.(segments := t.segments[t.directory[i] := s]);
    assert TableOk(t') by {
      hide EntryOk;
      hide FreeBits;
      forall y | 0 <= y < |t'.directory| ensures EntryOk(t', y) && FreeBits(t', y) == FreeBits(t, y) {
        StoredEntry(t, i, s, y);
      }
    }
    forall k: U32 | k != 0 && t.directory[IndexInside(t, k)] != t.directory[i] ensures Lookup(t', k) == Lookup(t, k) {
      StoredLookup(t, i, s, k);
    }
  }

  lemma StoredLookup(t: Table, i: nat, s: Segment, k: U32)
    requires TableOk(t) && i < |t.directory| && TableOk(t.(segments := t.segments[t.directory[i] := s]))
    requires k != 0 && t.directory[IndexInside(t, k)] != t.directory[i]
    ensures Lookup(t.(segments := t.segments[t.directory[i] := s]), k) == Lookup(t, k)
  {
    hide TableOk;
    hide SegmentOk;
    InDirectory(t, k);
    InDirectory(t.(segments := t.segments[t.directory[i] := s]), k);
  }

  function IndexInside(t: Table, k: U32): (i: nat)
    requires t.globalDepth <= SPAN && |t.directory| == Pow2(t.globalDepth)
    ensures i < |t.directory| && i == IndexOf(t, k)
  {
    TopBound(k, t.globalDepth);
    IndexOf(t, k)
  }

  /** The middle of the group of entry i. */
  function Mid(t: Table, i: nat): nat {
    Directory.AlignDown(i, Pow2(FreeBits(t, i))) + HalfGroup(t, i)
  }

  function HalfGroup(t: Table, i: nat): nat {
    if FreeBits(t, i) > 0 then Pow2(FreeBits(t, i) - 1) else 0
  }

  /** The table after the split of entry i's segment, with the copies at address a. */
  ghost predicate IsSplit(t: Table, t': Table, i: nat, a: Addr, s': Segment) {
    && TableOk(t) && i < |t.directory| && SegmentAt(t, i).depth < t.globalDepth && a !in t.segments && SegmentAt(t, i).depth < MAX_DEPTH
    && Migrated(SegmentAt(t, i), s', t.globalDepth, Mid(t, i))
    && t'.globalDepth == t.globalDepth && |t'.directory| == |t.directory|
    && t'.segments == t.segments[a := s'][t.directory[i] := SegmentAt(t, i).(depth := SegmentAt(t, i).depth + 1)]
    && (forall y | 0 <= y < |t.directory| ::
          t'.directory[y] == if Mid(t, i) <= y < Mid(t, i) + HalfGroup(t, i) then a else t.directory[y])
  }

  lemma SplitSides(t: Table, i: nat, y: nat)
    requires TableOk(t) && i < |t.directory| && y < |t.directory| && SegmentAt(t, i).depth < t.globalDepth
    ensures FreeBits(t, i) > 0 && (t.directory[y] == t.directory[i] <==> Directory.SameGroup(y, i, FreeBits(t, i)))
    ensures var n, mid := FreeBits(t, i), Mid(t, i);
      && (mid <= y < mid + HalfGroup(t, i) <==> Shr(y, n - 1) == 2 * Shr(i, n) + 1)
      && (t.directory[y] == t.directory[i] <==> Shr(y, n - 1) == 2 * Shr(i, n) || Shr(y, n - 1) == 2 * Shr(i, n) + 1)
      && (t.directory[y] == t.directory[i] ==> (Shr(y, n - 1) == 2 * Shr(i, n) <==> y < mid))
  {
    Directory.GroupRange(y, i, FreeBits(t, i));
    assert t.directory[i] == t.directory[y] <==> Directory.SameGroup(i, y, FreeBits(t, i));
  }

  lemma SplitEntry(t: Table, t': Table, i: nat, a: Addr, s': Segment, y: nat)
    requires IsSplit(t, t', i, a, s') && y < |t.directory|
    ensures EntryOk(t', y) && FreeBits(t', y) == FreeBits(t, y) - if t.directory[y] == t.directory[i] then 1 else 0
  {
    hide SegmentOk;
    hide Migrated;
    assert EntryOk(t, y) && EntryOk(t, i);
    SplitSides(t, i, y);
    HalvesOk(SegmentAt(t, i), s', Shr(i, FreeBits(t, i)), t.globalDepth, Mid(t, i));
    assert s'.depth == SegmentAt(t, i).depth + 1 by { NewDepth(SegmentAt(t, i), s', t.globalDepth, Mid(t, i)); }
    hide TableOk;
    hide Mid;
    if t.directory[y] == t.directory[i] {
      assert SegmentAt(t, y) == SegmentAt(t, i);
    }
  }

  lemma NewDepth(s: Segment, s': Segment, globalDepth: nat, mid: nat)
    requires Migrated(s, s', globalDepth, mid)
    ensures s'.depth == s.depth + 1
  {
  }

  lemma SplitLinked(t: Table, t': Table, i: nat, a: Addr, s': Segment, x: nat, y: nat)
    requires IsSplit(t, t', i, a, s') && x < |t.directory| && y < |t.directory|
    ensures t'.directory[x] == t'.directory[y] <==> Directory.SameGroup(x, y, FreeBits(t', x))
  {
    hide SegmentOk;
    hide Migrated;
    SplitSides(t, i, x);
    SplitSides(t, i, y);
    SplitEntry(t, t', i, a, s', x);
    assert EntryOk(t, x) && EntryOk(t, y);
    assert t.directory[x] == t.directory[y] <==> Directory.SameGroup(x, y, FreeBits(t, x));
  }

  lemma SplitLookup(t: Table, t': Table, i: nat, a: Addr, s': Segment, k: U32)
    requires IsSplit(t, t', i, a, s') && TableOk(t') && k != 0
    ensures Lookup(t', k) == Lookup(t, k)
  {
    InDirectory(t, k);
    InDirectory(t', k);
    var y := IndexOf(t, k);
    SplitSides(t, i, y);
    assert EntryOk(t, i) && EntryOk(t, y);
    if t.directory[y] == t.directory[i] && y >= Mid(t, i) {
      UpperAnswers(SegmentAt(t, i), s', t.globalDepth, Mid(t, i), k);
    }
  }

  /** A split keeps the table well-formed and what it maps. */
  lemma SplitKeeps(t: Table, t': Table, i: nat, a: Addr, s': Segment)
    requires IsSplit(t, t', i, a, s')
    ensures TableOk(t') && forall k: U32 | k != 0 :: Lookup(t', k) == Lookup(t, k)
  {
    forall y | 0 <= y < |t'.directory| ensures EntryOk(t', y) {
      SplitEntry(t, t', i, a, s', y);
    }
    hide EntryOk;
    forall x, y | 0 <= x < |t'.directory| && 0 <= y < |t'.directory|
      ensures t'.directory[x] == t'.directory[y] <==> Directory.SameGroup(x, y, FreeBits(t', x))
    {
      SplitLinked(t, t', i, a, s', x, y);
    }
    assert TableOk(t');
    forall k: U32 | k != 0 ensures Lookup(t', k) == Lookup(t, k) {
      SplitLookup(t, t', i, a, s', k);
    }
  }

  /** A directory with every entry twice maps the same. */
  lemma DoubleKeeps(t: Table, t': Table)
    requires TableOk(t) && t.globalDepth < MAX_DEPTH && t'.globalDepth == t.globalDepth + 1 && t'.segments == t.segments
    requires |t'.directory| == 2 * |t.directory| && forall i | 0 <= i < |t'.directory| :: t'.directory[i] == t.directory[i / 2]
    ensures TableOk(t') && forall k: U32 | k != 0 :: Lookup(t', k) == Lookup(t, k)
  {
    hide SegmentOk;
    forall i | 0 <= i < |t'.directory| ensures EntryOk(t', i) && FreeBits(t', i) == FreeBits(t, i / 2) + 1 {
      assert EntryOk(t, i / 2);
      ShrHalf(i, FreeBits(t, i / 2));
    }
    forall i, j | 0 <= i < |t'.directory| && 0 <= j < |t'.directory|
      ensures t'.directory[i] == t'.directory[j] <==> Directory.SameGroup(i, j, FreeBits(t', i))
    {
      assert t.directory[i / 2] == t.directory[j / 2] <==> Directory.SameGroup(i / 2, j / 2, FreeBits(t, i / 2));
      ShrHalf(i, FreeBits(t, i / 2));
      ShrHalf(j, FreeBits(t, i / 2));
    }
    Pow2Step(t.globalDepth);
    assert TableOk(t');
    forall k: U32 | k != 0 ensures Lookup(t', k) == Lookup(t, k) {
      TopStep(k, t.globalDepth);
      InDirectory(t, k);
      InDirectory(t', k);
    }
  }

  // ----- the node -----

  class ErtNode {
    var globalDepth: nat
    var directory: seq<Addr>
    var segments: map<Addr, Segment>
    var nextAddress: Addr

    ghost function Now(): Table
      reads this
    {
      Table(globalDepth, directory, segments)
    }

    ghost predicate Valid()
      reads this
    {
      TableOk(Now()) && forall a | a in segments :: a < nextAddress
    }

    constructor ()
      ensures Valid() && forall k: U32 | k != 0 :: Lookup(Now(), k) == None
    {
      globalDepth, directory, nextAddress := 0, [0], 1;
      segments := map[0 := Segment(0, seq(BUCKETS, _ => EmptyBucket()))];
      new;
      EmptyOk(Now());
    }

    constructor Over(globalDepth: nat, directory: seq<Addr>, segments: map<Addr, Segment>, nextAddress: Addr)
      ensures this.globalDepth == globalDepth && this.directory == directory && this.segments == segments && this.nextAddress == nextAddress
    {
      this.globalDepth, this.directory, this.segments, this.nextAddress := globalDepth, directory, segments, nextAddress;
    }

    /** ERTIntNode::get */
    method Get(k: U32) returns (r: Option<Found>)
      requires Valid() && k != 0
      ensures r == Lookup(Now(), k)
    {
      InDirectory(Now(), k);
      Segments.SegmentNumberTop(k, globalDepth);
      var s := segments[directory[Segments.SegmentNumber(k, SPAN, globalDepth)]];
      r := BucketGet(s.buckets[k % BUCKETS], k);
    }

    ghost function DepthFor(k: U32): nat
      requires Valid()
      reads this
    {
      InDirectory(Now(), k);
      SegmentAt(Now(), IndexOf(Now(), k)).depth
    }

    /**
     ERTIntNode::put. The node that is returned takes this one's place if the directory was doubled. The value is found afterwards;
     a new key has the flag it was put with, and a key that is there keeps its flag only if it is put with one, and never gets one.
     */
    method Put(k: U32, value: U64, flag: bool) returns (node: ErtNode)
      requires Valid() && k != 0
      modifies this
      ensures node.Valid() && (node == this || fresh(node))
      ensures Lookup(node.Now(), k).Some? && Lookup(node.Now(), k).value.value == value
      ensures old(Lookup(Now(), k)).None? ==> Lookup(node.Now(), k).value.flag == flag
      ensures old(Lookup(Now(), k)).Some? ==> Lookup(node.Now(), k).value.flag == (flag && old(Lookup(Now(), k)).value.flag)
      ensures forall q: U32 | q != k && q != 0 :: Lookup(node.Now(), q) == old(Lookup(Now(), q))
      decreases MAX_DEPTH + 1 - DepthFor(k), if DepthFor(k) < globalDepth then 0 else 1
    {
      hide TableOk;
      hide SegmentOk;
      hide Lookup;
      ghost var t := Now();
      InDirectory(t, k);
      Segments.SegmentNumberTop(k, globalDepth);
      var dirIndex := Segments.SegmentNumber(k, SPAN, globalDepth);
      var s := segments[directory[dirIndex]];
      Buckets(s, Shr(dirIndex, FreeBits(t, dirIndex)), k % BUCKETS);
      var place := FindPlace(s.buckets[k % BUCKETS], k, s.depth);
      if place == -1 {
        FullBoundsDepth(s.buckets[k % BUCKETS], k % BUCKETS, s.depth, Shr(dirIndex, FreeBits(t, dirIndex)), k);
        if s.depth < globalDepth {
          Split(dirIndex);
          node := Put(k, value, flag);
        } else {
          node := Double();
          node := node.Put(k, value, flag);
        }
      } else {
        PutInPlace(k, value, flag, dirIndex, place);
        node := this;
      }
    }

    method PutInPlace(k: U32, value: U64, flag: bool, dirIndex: nat, place: nat)
      requires Valid() && k != 0 && dirIndex < |directory| && dirIndex == IndexOf(Now(), k) && place < BUCKET_SIZE && directory[dirIndex] in segments
      requires |segments[directory[dirIndex]].buckets| == BUCKETS && segments[directory[dirIndex]].depth <= SPAN
      requires var bk := segments[directory[dirIndex]].buckets[k % BUCKETS];
        if FindKey(bk, k) < BUCKET_SIZE then place == FindKey(bk, k) else Reusable(bk[place], k, segments[directory[dirIndex]].depth)
      modifies this`segments
      ensures Valid() && Lookup(Now(), k) == Some(NewFound(old(Lookup(Now(), k)), value, flag))
      ensures forall q: U32 | q != k && q != 0 :: Lookup(Now(), q) == old(Lookup(Now(), q))
    {
      ghost var t := Now();
      var s := segments[directory[dirIndex]];
      var bk := s.buckets[k % BUCKETS];
      var s' := s.(buckets := s.buckets[k % BUCKETS := bk[place := Written(bk[place], k, value, flag)]]);
      PlaceWritten(t, k, place, value, flag, s');
      segments := segments[directory[dirIndex] := s'];
    }

    /** The local split of put: copies to a new segment, relinks the upper half of the group, deepens the old segment. */
    method Split(dirIndex: nat)
      requires Valid() && dirIndex < |directory| && directory[dirIndex] in segments
      requires segments[directory[dirIndex]].depth < globalDepth && segments[directory[dirIndex]].depth < MAX_DEPTH
      modifies this
      ensures Valid() && globalDepth == old(globalDepth)
      ensures forall q: U32 | q != 0 :: Lookup(Now(), q) == old(Lookup(Now(), q))
      ensures forall k: U32 | IndexOf(Now(), k) == dirIndex :: DepthFor(k) == old(DepthFor(k)) + 1
    {
      ghost var t := Now();
      assert EntryOk(t, dirIndex);
      var s := segments[directory[dirIndex]];
      var stride := Pow2(globalDepth - s.depth);
      var left := Directory.AlignDown(dirIndex, stride);
      var mid, right := left + stride / 2, left + stride;
      var newSeg := Migrate(s, globalDepth, mid);
      var a := nextAddress;
      SplitSides(t, dirIndex, dirIndex);
      GroupInside(t, dirIndex);
      var d := directory;
      var i := right;
      while i > mid
        invariant mid <= i <= right && |d| == |directory|
        invariant forall y | 0 <= y < |d| :: d[y] == if i <= y < right then a else directory[y]
      {
        i := i - 1;
        d := d[i := a];
      }
      segments := segments[a := newSeg][directory[dirIndex] := s.(depth := s.depth + 1)];
      directory := d;
      nextAddress := nextAddress + 1;
      SplitKeeps(t, Now(), dirIndex, a, newSeg);
      forall k: U32 | IndexOf(Now(), k) == dirIndex ensures DepthFor(k) == old(DepthFor(k)) + 1 {
        SplitEntry(t, Now(), dirIndex, a, newSeg, dirIndex);
      }
    }

    /** The doubling of put. */
    method Double() returns (node: ErtNode)
      requires Valid() && globalDepth < MAX_DEPTH
      ensures fresh(node) && node.Valid() && node.globalDepth == globalDepth + 1
      ensures forall q: U32 | q != 0 :: Lookup(node.Now(), q) == Lookup(Now(), q)
      ensures forall k: U32 :: node.DepthFor(k) == DepthFor(k)
    {
      var d := [];
      for i := 0 to 2 * |directory|
        invariant |d| == i && forall j | 0 <= j < i :: d[j] == directory[j / 2]
      {
        d := d + [directory[i / 2]];
      }
      node := new ErtNode.Over(globalDepth + 1, d, segments, nextAddress);
      DoubleKeeps(Now(), node.Now());
      forall k: U32 ensures node.DepthFor(k) == DepthFor(k) {
        TopStep(k, globalDepth);
      }
    }
  }

  lemma Buckets(s: Segment, pre: nat, i: nat)
    requires SegmentOk(s, pre) && i < BUCKETS
    ensures |s.buckets| == BUCKETS && s.depth <= MAX_DEPTH && BucketOk(s.buckets[i], i, s.depth, pre)
  {
  }

  lemma EmptyOk(t: Table)
    requires t == Table(0, [0], map[0 := Segment(0, seq(BUCKETS, _ => EmptyBucket()))])
    ensures TableOk(t) && forall k: U32 | k != 0 :: Lookup(t, k) == None
  {
    forall i | 0 <= i < BUCKETS ensures BucketOk(t.segments[0].buckets[i], i, 0, 0) {
    }
    forall i, j | 0 <= i < 1 && 0 <= j < 1 ensures t.directory[i] == t.directory[j] <==> Directory.SameGroup(i, j, FreeBits(t, i)) {
    }
    forall k: U32 | k != 0 ensures Lookup(t, k) == None {
      InDirectory(t, k);
      ZerosLookup([], BUCKET_SIZE, k);
      assert [] + seq(BUCKET_SIZE, _ => Counter(0, false, 0)) == EmptyBucket();
    }
  }

  /** The group of an entry lies in the directory. */
  lemma GroupInside(t: Table, i: nat)
    requires TableOk(t) && i < |t.directory| && SegmentAt(t, i).depth < t.globalDepth
    ensures Directory.AlignDown(i, Pow2(FreeBits(t, i))) + Pow2(FreeBits(t, i)) <= |t.directory|
    ensures Pow2(FreeBits(t, i)) == 2 * HalfGroup(t, i)
  {
    var n, m := FreeBits(t, i), t.globalDepth - FreeBits(t, i);
    Directory.GroupStart(i, n);
    ShrInterval(i, n);
    Pow2Sum(m, n);
    if Shr(i, n) >= Pow2(m) {
      MulMono(Pow2(m), Shr(i, n), Pow2(n));
    }
    MulMono(Shr(i, n) + 1, Pow2(m), Pow2(n));
    assert (Shr(i, n) + 1) * Pow2(n) == Shr(i, n) * Pow2(n) + Pow2(n);
  }

  /** Writing in the segment of a key changes what the node maps that key to, and nothing else. */
  lemma PlaceWritten(t: Table, k: U32, place: nat, value: U64, flag: bool, s': Segment)
    requires TableOk(t) && k != 0 && place < BUCKET_SIZE && IndexOf(t, k) < |t.directory|
    requires SegmentAt(t, IndexOf(t, k)).depth <= SPAN && |SegmentAt(t, IndexOf(t, k)).buckets| == BUCKETS
    requires var bk := SegmentAt(t, IndexOf(t, k)).buckets[k % BUCKETS];
      if FindKey(bk, k) < BUCKET_SIZE then place == FindKey(bk, k) else Reusable(bk[place], k, SegmentAt(t, IndexOf(t, k)).depth)
    requires var s := SegmentAt(t, IndexOf(t, k));
      var bk := s.buckets[k % BUCKETS];
      s' == s.(buckets := s.buckets[k % BUCKETS := bk[place := Written(bk[place], k, value, flag)]])
    ensures var t' := t.(segments := t.segments[t.directory[IndexOf(t, k)] := s']);
      TableOk(t') && Lookup(t', k) == Some(NewFound(Lookup(t, k), value, flag)) && forall q: U32 | q != k && q != 0 :: Lookup(t', q) == Lookup(t, q)
  {
    InDirectory(t, k);
    var i := IndexOf(t, k);
    var s, pre := SegmentAt(t, i), Shr(i, FreeBits(t, i));
    var t' := t.(segments := t.segments[t.directory[i] := s']);
    SlotWritten(s.buckets[k % BUCKETS], k % BUCKETS, s.depth, pre, k, place, value, flag);
    Stored(t, i, s');
    InDirectory(t', k);
    forall q: U32 | q != k && q != 0 ensures Lookup(t', q) == Lookup(t, q) {
      InDirectory(t, q);
      InDirectory(t', q);
      var y := IndexOf(t, q);
      if t.directory[y] == t.directory[i] {
        assert Directory.SameGroup(y, i, FreeBits(t, y));
      }
    }
  }
}
