/** A node of the tree: an extendible-hash directory of segments over 32-bit subkeys. */
module WrertNodes {
  import opened Bits
  import opened Options
  import opened Slots
  import opened Segments
  import opened Splits
  import opened SplitMethods
  import opened Directory
  import opened Headers

  /** A pointer to a slot. */
  datatype SlotRef = SlotRef(segment: Segment, position: nat, index: nat)

  /** A directory entry and its segment, for the subkeys that lead to entry i. */
  ghost predicate EntryOk(sn: SegmentNode, i: nat, globalDepth: nat)
    reads sn.segmentPtr
  {
    && sn.localDepth <= globalDepth
    && sn.segmentPtr.Length == SEGMENT_SIZE
    && SegmentOk(sn.segmentPtr[..], sn.localDepth, Decode(sn.sharedBucketOffset), Shr(i, globalDepth - sn.localDepth))
  }

  class Node {
    var header: Header
    const globalDepth: nat
    const directory: array<SegmentNode>

    ghost function SegmentSet(): set<Segment>
      reads directory
    {
      set i | 0 <= i < directory.Length :: directory[i].segmentPtr
    }

    ghost function Repr(): set<object>
      reads directory
    {
      {directory} + SegmentSet()
    }

    ghost predicate Shaped()
      reads directory
    {
      && globalDepth <= MAX_DEPTH && directory.Length == Pow2(globalDepth)
      && forall i | 0 <= i < directory.Length ::
           directory[i].segmentPtr.Length == SEGMENT_SIZE && directory[i].localDepth <= globalDepth
    }

    ghost predicate Valid()
      reads directory, SegmentSet()
    {
      && Shaped()
      && Linked(directory[..], globalDepth)
      && forall i | 0 <= i < directory.Length :: EntryOk(directory[i], i, globalDepth)
    }

    lemma ValidShape()
      requires Valid()
      ensures Shaped()
    {
    }

    /** The entry the node holds for a subkey. */
    ghost function Lookup(k: U32): Option<Entry>
      requires Shaped()
      reads directory, SegmentSet()
    {
      SegmentNumberTop(k, globalDepth);
      var sn := directory[SegmentNumber(k, SUBKEY_LENGTH, globalDepth)];
      SegmentLookup(sn.segmentPtr[..], sn.localDepth, Decode(sn.sharedBucketOffset), k)
    }

    /** Everything the node holds, as a map. */
    ghost function View(): (m: map<U32, Entry>)
      requires Shaped()
      reads directory, SegmentSet()
      ensures forall k: U32 :: k in m <==> Lookup(k).Some?
      ensures forall k: U32 :: k in m ==> Lookup(k) == Some(m[k])
    {
      map k: U32 | 0 <= k < U32_LIMIT && Lookup(k).Some? :: Lookup(k).value
    }

    function IndexOf(k: U32): (i: nat)
      requires globalDepth <= MAX_DEPTH && directory.Length == Pow2(globalDepth)
      ensures i == Top(k, globalDepth) < directory.Length
    {
      SegmentNumberTop(k, globalDepth);
      SegmentNumber(k, SUBKEY_LENGTH, globalDepth)
    }

    /** NewWRERTNode: one empty segment. */
    constructor (depth: nat)
      ensures Valid() && fresh(Repr())
      ensures header == InitHeader([0, 0, 0, 0, 0, 0], INIT_PREFIX_LENGTH, depth) && globalDepth == 0
      ensures View() == map[]
    {
      hide BucketOk;
      hide NoneInBoth;
      hide NoGhosts;
      hide SegmentOk;
      hide SegmentLookup;
      hide Shr;
      header := InitHeader([0, 0, 0, 0, 0, 0], INIT_PREFIX_LENGTH, depth);
      globalDepth := 0;
      var segment := new Bucket[SEGMENT_SIZE](_ => ZeroBucket());
      directory := new SegmentNode[1](_ => SegmentNode(0, 0, segment));
      new;
      assert segment[..] == ZeroSegment();
      ZeroSegmentOk();
      assert Shr(0, 0) == 0 by { ShrUnique(0, 0, 0); }
      assert forall k: U32 :: Lookup(k) == None;
    }

    // ----- slots -----

    /** The slot where a subkey the node holds sits. */
    ghost predicate PointsTo(r: SlotRef, k: U32)
      requires Shaped()
      reads directory, SegmentSet()
    {
      var sn := directory[IndexOf(k)];
      && r.segment == sn.segmentPtr
      && SitsAt(sn.segmentPtr[..], sn.localDepth, Decode(sn.sharedBucketOffset), k, r.position, r.index)
      && Lookup(k) == Some(EntryOf(sn.segmentPtr[r.position][r.index]))
    }

    /** A slot where a subkey the node does not hold may be written. */
    ghost predicate FreeFor(r: SlotRef, k: U32, isMain: bool)
      requires Shaped()
      reads directory, SegmentSet()
    {
      var sn := directory[IndexOf(k)];
      var offset := Decode(sn.sharedBucketOffset);
      && r.segment == sn.segmentPtr
      && r.position == (if isMain then MainPosition(offset, k, sn.localDepth) else SharedPosition(offset, k, sn.localDepth))
      && r.position < SEGMENT_SIZE
      && FirstFree(sn.segmentPtr[r.position], sn.localDepth - (if isMain then 0 else 1), r.index)
    }

    /** The main bucket of a subkey has no free slot. */
    ghost predicate MainFull(k: U32)
      requires Shaped()
      reads directory, SegmentSet()
    {
      var sn := directory[IndexOf(k)];
      var p := MainPosition(Decode(sn.sharedBucketOffset), k, sn.localDepth);
      p < SEGMENT_SIZE && forall j | 0 <= j < SLOTS_PER_BUCKET :: Live(sn.segmentPtr[p][j], sn.localDepth)
    }

    /** The shared bucket of a subkey has no free slot. */
    ghost predicate SharedFull(k: U32)
      requires Shaped()
      reads directory, SegmentSet()
    {
      var sn := directory[IndexOf(k)];
      var p := SharedPosition(Decode(sn.sharedBucketOffset), k, sn.localDepth);
      p < SEGMENT_SIZE && forall j | 0 <= j < SLOTS_PER_BUCKET :: Live(sn.segmentPtr[p][j], sn.localDepth - 1)
    }

    /** The buckets a subkey leads to, and what the invariant says about them. */
    lemma BucketsOf(k: U32)
      requires Valid()
      ensures var sn := directory[IndexOf(k)];
        var offset, pre := Decode(sn.sharedBucketOffset), Top(k, sn.localDepth);
        var sp, mp := SharedPosition(offset, k, sn.localDepth), MainPosition(offset, k, sn.localDepth);
        && SegmentOk(sn.segmentPtr[..], sn.localDepth, offset, pre)
        && sp < SEGMENT_SIZE && mp < SEGMENT_SIZE
        && BucketOk(sn.segmentPtr[sp], sn.localDepth + 4, Top(k, sn.localDepth + 4))
        && BucketOk(sn.segmentPtr[mp], sn.localDepth + 5, Top(k, sn.localDepth + 5))
        && NoneInBoth(sn.segmentPtr[sp], sn.segmentPtr[mp], sn.localDepth)
    {
      hide BucketOk;
      hide NoneInBoth;
      hide NoGhosts;
      hide SegmentLookup;
      var i := IndexOf(k);
      var sn := directory[i];
      assert EntryOk(sn, i, globalDepth);
      TopShr(k, sn.localDepth, globalDepth);
      var offset, mi := Decode(sn.sharedBucketOffset), MainBucketIndex(k, sn.localDepth);
      Homes(k, sn.localDepth, offset, Top(k, sn.localDepth));
      assert SharedBucket(sn.segmentPtr[..], offset, mi / 2) == sn.segmentPtr[SharedPosition(offset, k, sn.localDepth)];
      assert MainBucket(sn.segmentPtr[..], offset, mi) == sn.segmentPtr[MainPosition(offset, k, sn.localDepth)];
    }

    /** A written slot of a segment whose subkey belongs there names a subkey of the node. */
    lemma WrittenIsHeld(k: U32, p: nat, j: nat)
      requires Valid() && p < SEGMENT_SIZE && j < SLOTS_PER_BUCKET
      requires var sn := directory[IndexOf(k)]; var slot := sn.segmentPtr[p][j];
        slot.validFlag && Top(slot.subKey, sn.localDepth) == Top(k, sn.localDepth)
      ensures Lookup(directory[IndexOf(k)].segmentPtr[p][j].subKey).Some?
    {
      hide BucketOk;
      hide SegmentLookup;
      BucketsOf(k);
      var sn := directory[IndexOf(k)];
      var x := sn.segmentPtr[p][j].subKey;
      assert NoGhosts(sn.segmentPtr[..], sn.localDepth, Decode(sn.sharedBucketOffset), Top(k, sn.localDepth));
      assert sn.segmentPtr[..][p][j] == sn.segmentPtr[p][j];
      TopShr(k, sn.localDepth, globalDepth);
      TopShr(x, sn.localDepth, globalDepth);
      LinkedGroup(directory[..], globalDepth, IndexOf(k), IndexOf(x));
    }

    /** A full bucket holds more than one subkey. */
    lemma FullHoldsTwo(k: U32)
      requires Valid() && (MainFull(k) || SharedFull(k))
      ensures exists x, y :: x in View() && y in View() && x != y
    {
      hide SegmentOk;
      hide SegmentLookup;
      BucketsOf(k);
      var sn := directory[IndexOf(k)];
      var offset := Decode(sn.sharedBucketOffset);
      var p := if MainFull(k) then MainPosition(offset, k, sn.localDepth) else SharedPosition(offset, k, sn.localDepth);
      var n := if MainFull(k) then sn.localDepth + 5 else sn.localDepth + 4;
      var bk := sn.segmentPtr[p];
      assert Live(bk[0], n - 5) && Live(bk[1], n - 5);
      assert DistinctLive(bk, n - 5) && Homed(bk, n - 5, n, Top(k, n));
      forall j | 0 <= j <= 1 ensures Lookup(bk[j].subKey).Some? {
        IndexTops(bk[j].subKey, sn.localDepth);
        IndexTops(k, sn.localDepth);
        WrittenIsHeld(k, p, j);
      }
      assert bk[0].subKey in View() && bk[1].subKey in View();
    }

    /** WRERTNode::getSegNode */
    method GetSegNode(k: U32) returns (r: Option<SlotRef>)
      requires Valid()
      ensures r == None <==> Lookup(k) == None
      ensures r.Some? ==> PointsTo(r.value, k)
    {
      hide BucketOk;
      hide SegmentOk;
      var sn := directory[IndexOf(k)];
      var offset := Decode(sn.sharedBucketOffset);
      BucketsOf(k);
      var sharedPosition, mainPosition := SharedPosition(offset, k, sn.localDepth), MainPosition(offset, k, sn.localDepth);
      var sharedBucket, mainBucket := sn.segmentPtr[sharedPosition], sn.segmentPtr[mainPosition];
      var hit := SearchBoth(sharedBucket, mainBucket, sn.localDepth - 1, sn.localDepth, k);
      match hit
      case SharedHit(j) => r := Some(SlotRef(sn.segmentPtr, sharedPosition, j));
      case MainHit(j) =>
        InMainOnly(sharedBucket, mainBucket, sn.localDepth, k);
        r := Some(SlotRef(sn.segmentPtr, mainPosition, j));
      case NoHit => r := None;
    }

    /** The entry behind the pointer getSegNode returns. */
    method Get(k: U32) returns (r: Option<Entry>)
      requires Valid()
      ensures r == if k in View() then Some(View()[k]) else None
    {
      hide SegmentOk;
      hide SegmentLookup;
      hide Linked;
      var slot := GetSegNode(k);
      if slot == None {
        return None;
      }
      r := Some(EntryOf(slot.value.segment[slot.value.position][slot.value.index]));
    }

    lemma PointsInside(r: SlotRef, k: U32)
      requires Valid() && PointsTo(r, k)
      ensures r.segment in SegmentSet() && r.position < r.segment.Length && r.index < SLOTS_PER_BUCKET
      ensures r.segment[r.position][r.index].subKey == k
    {
    }

    /** The slot search inside WRERT::insert: shared bucket first, then main bucket. */
    method FindSlot(k: U32) returns (found: bool, slot: Option<SlotRef>, isMain: bool)
      requires Valid()
      ensures found ==> slot.Some? && PointsTo(slot.value, k)
      ensures !found ==> Lookup(k) == None
      ensures !found && slot.Some? ==> FreeFor(slot.value, k, isMain)
      ensures !found && slot == None ==> MainFull(k)
    {
      hide BucketOk;
      hide SegmentOk;
      var sn := directory[IndexOf(k)];
      var offset := Decode(sn.sharedBucketOffset);
      BucketsOf(k);
      var sharedPosition, mainPosition := SharedPosition(offset, k, sn.localDepth), MainPosition(offset, k, sn.localDepth);
      var sharedBucket, mainBucket := sn.segmentPtr[sharedPosition], sn.segmentPtr[mainPosition];
      OkLivePrefix(sharedBucket, sn.localDepth + 4, Top(k, sn.localDepth + 4));
      OkLivePrefix(mainBucket, sn.localDepth + 5, Top(k, sn.localDepth + 5));
      found, isMain, slot := false, false, None;
      var inShared := SearchForInsert(sharedBucket, sn.localDepth - 1, k);
      ScanMeaning(sharedBucket, sn.localDepth - 1, k);
      if inShared.Found? {
        return true, Some(SlotRef(sn.segmentPtr, sharedPosition, inShared.index)), false;
      }
      var inMain := SearchForInsert(mainBucket, sn.localDepth, k);
      ScanMeaning(mainBucket, sn.localDepth, k);
      if inMain.Found? {
        return true, Some(SlotRef(sn.segmentPtr, mainPosition, inMain.index)), false;
      }
      if inShared.Free? {
        slot := Some(SlotRef(sn.segmentPtr, sharedPosition, inShared.index));
      } else if inMain.Free? {
        slot, isMain := Some(SlotRef(sn.segmentPtr, mainPosition, inMain.index)), true;
      }
    }

    /** s may be written at r for subkey k: as a new value of the slot k sits in, or as a new slot for k. */
    ghost predicate Storable(k: U32, r: SlotRef, s: Slot, isMain: bool, update: bool)
      requires Shaped()
      reads directory, SegmentSet()
    {
      && s.subKey == k
      && (if update then PointsTo(r, k) && s == r.segment[r.position][r.index].(value := s.value, nodeFlag := s.nodeFlag)
          else FreeFor(r, k, isMain) && Lookup(k) == None && s.validFlag
               && s.migVersion == directory[IndexOf(k)].localDepth - (if isMain then 0 else 1))
    }

    /** Overwriting one slot: the only effect on the node is on the slot's own subkey. */
    method StoreSlot(k: U32, r: SlotRef, s: Slot, ghost isMain: bool, ghost update: bool)
      requires Valid() && Storable(k, r, s, isMain, update)
      modifies SegmentSet()
      ensures Valid() && directory[..] == old(directory[..])
      ensures View() == old(View())[k := EntryOf(s)]
    {
      hide BucketOk;
      hide SegmentOk;
      hide SegmentLookup;
      hide Shr;
      hide Pow2;
      hide FirstFree;
      var i := IndexOf(k);
      var sn := directory[i];
      ghost var offset, pre := Decode(sn.sharedBucketOffset), Top(k, sn.localDepth);
      ghost var b: SegmentValue := sn.segmentPtr[..];
      BucketsOf(k);
      StoredSegment(b, sn.localDepth, offset, pre, isMain, r.position, r.index, k, s, update);
      r.segment[r.position] := r.segment[r.position][r.index := s];
      ghost var bk: Bucket := b[r.position][r.index := s];
      assert sn.segmentPtr[..] == b[r.position := bk];
      forall y | 0 <= y < directory.Length ensures EntryOk(directory[y], y, globalDepth) {
        assert old(EntryOk(directory[y], y, globalDepth));
        if directory[y].segmentPtr == sn.segmentPtr {
          assert SameGroup(i, y, globalDepth - sn.localDepth);
          TopShr(k, sn.localDepth, globalDepth);
        }
      }
      forall k': U32 ensures Lookup(k') == if k' == k then Some(EntryOf(s)) else old(Lookup(k')) {
        var y := IndexOf(k');
        assert directory[y].segmentPtr == sn.segmentPtr ==> directory[y] == sn;
      }
    }

    /** The last branch of WRERTNode::put: a new value for a subkey, or a new slot. */
    method WriteSlot(k: U32, value: U64, r: SlotRef, isMain: bool, fingerprint: U16, nodeFlag: bool)
      requires Valid()
      requires PointsTo(r, k) || (Lookup(k) == None && FreeFor(r, k, isMain))
      modifies SegmentSet()
      ensures Valid() && directory[..] == old(directory[..])
      ensures View() == old(View())[k := Entry(value % U48_LIMIT, if k in old(View()) then old(View())[k].nodeFlag else nodeFlag)]
    {
      var slot := r.segment[r.position][r.index];
      NoGhostOf(k, r.position, r.index);
      if slot.subKey == k && slot.validFlag {
        StoreSlot(k, r, slot.(value := value % U48_LIMIT), isMain, true);
      } else {
        var version: int := directory[IndexOf(k)].localDepth - (if isMain then 0 else 1);
        StoreSlot(k, r, Slot(k, version, true, nodeFlag, fingerprint, value % U48_LIMIT), isMain, false);
      }
    }

    /** A written slot with the subkey would mean that the node holds it. */
    lemma NoGhostOf(k: U32, p: nat, j: nat)
      requires Valid() && p < SEGMENT_SIZE && j < SLOTS_PER_BUCKET
      ensures var slot := directory[IndexOf(k)].segmentPtr[p][j];
        slot.subKey == k && slot.validFlag ==> Lookup(k).Some?
    {
      hide BucketOk;
      hide SegmentLookup;
      BucketsOf(k);
      var sn := directory[IndexOf(k)];
      assert NoGhosts(sn.segmentPtr[..], sn.localDepth, Decode(sn.sharedBucketOffset), Top(k, sn.localDepth));
      assert sn.segmentPtr[..][p][j] == sn.segmentPtr[p][j];
    }

    // ----- splits -----

    /** A node over a directory that is already laid out. */
    constructor Over(h: Header, depth: nat, entries: array<SegmentNode>)
      ensures header == h && globalDepth == depth && directory == entries
    {
      header, globalDepth, directory := h, depth, entries;
    }

    lemma GroupInside(i: nat)
      requires Shaped() && i < directory.Length
      ensures var n := globalDepth - directory[i].localDepth;
        n > 0 ==> AlignDown(i, Pow2(n)) + Pow2(n) <= directory.Length
    {
      var n := globalDepth - directory[i].localDepth;
      var pre := Shr(i, n);
      GroupStart(i, n);
      ShrInterval(i, n);
      Pow2Sum(directory[i].localDepth, n);
      if pre >= Pow2(directory[i].localDepth) {
        MulMono(Pow2(directory[i].localDepth), pre, Pow2(n));
      }
      MulMono(pre + 1, Pow2(directory[i].localDepth), Pow2(n));
    }

    /** Re-linking the entries of a split segment keeps the node well-formed, and everything it holds. */
    lemma RelinkedValid(d: seq<SegmentNode>, olds: seq<SegmentValue>, i: nat, newSeg: Segment, low: StoredOffset, high: StoredOffset)
      requires globalDepth <= MAX_DEPTH && directory.Length == Pow2(globalDepth) == |d| == |olds| && i < |d|
      requires Linked(d, globalDepth) && d[i].localDepth < globalDepth
      requires Relinked(d, directory[..], globalDepth, i, newSeg, low, high)
      requires SplitBelow(d, olds, globalDepth, i, newSeg, low, high)
      ensures Valid()
      ensures forall k: U32 :: Lookup(k) == DirectoryLookup(d, olds, globalDepth, k)
    {
      hide EntryOk;
      hide Linked;
      hide Relinked;
      hide SplitBelow;
      hide SegmentLookup;
      hide Shr;
      RelinkedLinked(d, directory[..], globalDepth, i, newSeg, low, high) by { NewSegmentUnused(d, olds, globalDepth, i, newSeg, low, high); }
      forall y | 0 <= y < directory.Length ensures EntryOk(directory[y], y, globalDepth) {
        RelinkedEntryOk(d, olds, directory[..], globalDepth, i, newSeg, low, high, y);
      }
      EntriesShaped();
      forall k: U32 ensures Lookup(k) == DirectoryLookup(d, olds, globalDepth, k) {
        assert IndexOf(k) == Top(k, globalDepth);
        RelinkedLookup(d, olds, directory[..], globalDepth, i, newSeg, low, high, k);
      }
    }

    lemma EntriesShaped()
      requires globalDepth <= MAX_DEPTH && directory.Length == Pow2(globalDepth)
      requires forall y | 0 <= y < directory.Length :: EntryOk(directory[y], y, globalDepth)
      ensures Shaped()
    {
    }

    /** The loop of the local split over the directory. */
    method RelinkEntries(i: nat, newSegment: Segment, low: StoredOffset)
      requires Shaped() && Linked(directory[..], globalDepth) && i < directory.Length
      requires directory[i].localDepth < globalDepth
      modifies directory
      ensures Relinked(old(directory[..]), directory[..], globalDepth, i, newSegment, low, old(directory[i].sharedBucketOffset))
      ensures directory[i].localDepth == old(directory[i].localDepth) + 1
      ensures SegmentSet() <= old(SegmentSet()) + {newSegment}
    {
      hide AlignDown;
      hide Relinked;
      hide Linked;
      hide Shr;
      hide Pow2;
      ghost var d := directory[..];
      var sn := directory[i];
      var segmentNodeNum := Pow2(globalDepth - sn.localDepth);
      var tmpNodeNum := Pow2(globalDepth - sn.localDepth - 1);
      var start := AlignDown(i, segmentNodeNum);
      GroupInside(i);
      GroupRange(i, i, globalDepth - sn.localDepth);
      forall y | start <= y < start + segmentNodeNum ensures d[y] == sn {
        GroupRange(y, i, globalDepth - sn.localDepth);
        LinkedGroup(d, globalDepth, i, y);
      }
      ghost var lower, upper := SegmentNode(sn.localDepth + 1, low, sn.segmentPtr), SegmentNode(sn.localDepth + 1, sn.sharedBucketOffset, newSegment);
      var x := 0;
      while x < tmpNodeNum
        invariant x <= tmpNodeNum
        invariant forall y | start <= y < start + x :: directory[y] == lower
        invariant forall y | start + tmpNodeNum <= y < start + tmpNodeNum + x :: directory[y] == upper
        invariant forall y | 0 <= y < |d| && !(start <= y < start + x) && !(start + tmpNodeNum <= y < start + tmpNodeNum + x) :: directory[y] == d[y]
      {
        var newSegNode, oldSegNode := directory[start + tmpNodeNum + x], directory[start + x];
        directory[start + tmpNodeNum + x] := newSegNode.(localDepth := newSegNode.localDepth + 1, segmentPtr := newSegment);
        directory[start + x] := oldSegNode.(localDepth := oldSegNode.localDepth + 1, sharedBucketOffset := low);
        x := x + 1;
      }
      RelinkedHalves(d, directory[..], globalDepth, i, newSegment, low, start, tmpNodeNum);
    }

    /** The local split of WRERTNode::put. */
    method SplitLocal(i: nat)
      requires Valid() && i < directory.Length
      requires directory[i].localDepth < globalDepth
      modifies directory, SegmentSet()
      ensures Valid() && fresh(SegmentSet() - old(SegmentSet()))
      ensures directory[i].localDepth == old(directory[i].localDepth) + 1
      ensures View() == old(View())
    {
      hide SegmentOk;
      hide SegmentLookup;
      hide SidesAgree;
      hide Shr;
      hide Pow2;
      hide Linked;
      hide AlignDown;
      ghost var d := directory[..];
      ghost var olds := Contents(d);
      assert forall k: U32 :: Lookup(k) == DirectoryLookup(d, olds, globalDepth, k) by { LookupAsDirectory(); }
      var sn := directory[i];
      var offset := Decode(sn.sharedBucketOffset);
      var mid := AlignDown(i, Pow2(globalDepth - sn.localDepth)) + Pow2(globalDepth - sn.localDepth - 1);
      var low := Encode(NextOffset(offset));
      assert EntryOk(sn, i, globalDepth);
      LocalSides(globalDepth, sn.localDepth, i);
      var newSegment := SplitSegment(sn.segmentPtr, offset, offset, sn.localDepth, AtLeast(mid), Below(mid), globalDepth,
                                     Shr(i, globalDepth - sn.localDepth));
      assert SplitBelow(d, olds, globalDepth, i, newSegment, low, sn.sharedBucketOffset) by {
        forall y | 0 <= y < |d| && d[y].segmentPtr != d[i].segmentPtr ensures EntryOk(d[y], y, globalDepth) {
          assert old(EntryOk(directory[y], y, globalDepth));
        }
      }
      hide SplitBelow;
      RelinkEntries(i, newSegment, low);
      RelinkedValid(d, olds, i, newSegment, low, sn.sharedBucketOffset);
    }

    /** The doubled directory before the split: every entry twice. */
    method CopyTwice() returns (entries: array<SegmentNode>)
      requires Valid()
      ensures fresh(entries) && entries.Length == 2 * directory.Length
      ensures forall y | 0 <= y < entries.Length :: entries[y] == directory[y / 2]
    {
      hide SegmentOk;
      var first := directory[0];
      entries := new SegmentNode[2 * directory.Length](_ => first);
      var x := 0;
      while x < directory.Length
        invariant x <= directory.Length
        invariant forall y | 0 <= y < 2 * x :: entries[y] == directory[y / 2]
      {
        entries[2 * x] := directory[x];
        entries[2 * x + 1] := directory[x];
        x := x + 1;
      }
    }

    /** The split that goes with a doubling: two neighbouring entries, and a new segment laid out from the start. */
    method SplitPair(i: nat)
      requires Valid() && 2 * i + 1 < directory.Length
      requires directory[2 * i].localDepth + 1 == globalDepth
      modifies directory, SegmentSet()
      ensures Valid() && fresh(SegmentSet() - old(SegmentSet()))
      ensures forall y | 2 * i <= y <= 2 * i + 1 :: directory[y].localDepth == globalDepth
      ensures View() == old(View())
    {
      hide SegmentOk;
      hide SegmentLookup;
      hide SidesAgree;
      hide Shr;
      hide Linked;
      hide AlignDown;
      hide Pow2;
      hide Relinked;
      hide EntryOk;
      hide DirectoryLookup;
      ghost var d := directory[..];
      ghost var olds := Contents(d);
      assert forall k: U32 :: Lookup(k) == DirectoryLookup(d, olds, globalDepth, k) by { LookupAsDirectory(); }
      var sn := directory[2 * i];
      var offset := Decode(sn.sharedBucketOffset);
      var low := Encode(NextOffset(offset));
      var newSegment := SplitPairSegment(i, offset, low);
      hide SplitBelow;
      directory[2 * i] := SegmentNode(sn.localDepth + 1, low, sn.segmentPtr);
      directory[2 * i + 1] := SegmentNode(sn.localDepth + 1, 0, newSegment);
      PairRelinked(d, directory[..], globalDepth, i, newSegment, low);
      RelinkedValid(d, olds, 2 * i, newSegment, low, 0);
    }

    /** The segment of that split: its upper half moves to a new one. */
    method SplitPairSegment(i: nat, offset: nat, low: StoredOffset) returns (newSegment: Segment)
      requires Valid() && 2 * i + 1 < directory.Length && directory[2 * i].localDepth + 1 == globalDepth
      requires offset == Decode(directory[2 * i].sharedBucketOffset) && low == Encode(NextOffset(offset))
      modifies directory[2 * i].segmentPtr
      ensures fresh(newSegment) && SplitBelow(directory[..], old(Contents(directory[..])), globalDepth, 2 * i, newSegment, low, 0)
    {
      hide SegmentOk;
      hide SegmentLookup;
      hide SidesAgree;
      hide Shr;
      hide Linked;
      hide Pow2;
      ghost var d := directory[..];
      var sn := directory[2 * i];
      assert EntryOk(sn, 2 * i, globalDepth);
      ShrSmall(2 * i);
      DoublingSides(sn.localDepth, i);
      newSegment := SplitSegment(sn.segmentPtr, offset, 0, sn.localDepth, Exactly(2 * i + 1), Exactly(2 * i), globalDepth, i);
      forall y | 0 <= y < |d| && d[y].segmentPtr != d[2 * i].segmentPtr ensures EntryOk(d[y], y, globalDepth) {
        assert old(EntryOk(directory[y], y, globalDepth));
      }
    }

    /** Doubling of the directory with the split of segment i, as in WRERTNode::put. The old node is given up. */
    method Double(i: nat) returns (newNode: Node)
      requires Valid() && i < directory.Length
      requires directory[i].localDepth == globalDepth < MAX_DEPTH
      modifies SegmentSet()
      ensures newNode.Valid() && fresh(newNode) && fresh(newNode.Repr() - old(Repr()))
      ensures newNode.header == InitHeader(header.prefixArray, header.prefixLength, header.nodeHeaderDepth)
      ensures newNode.globalDepth == globalDepth + 1
      ensures forall k: U32 | IndexOf(k) == i :: newNode.DepthFor(k) == globalDepth + 1
      ensures newNode.View() == old(View())
    {
      hide SegmentOk;
      hide SegmentLookup;
      hide Linked;
      hide Shr;
      hide Pow2;
      newNode := Twice(i);
      newNode.SplitPair(i);
      forall k: U32 | IndexOf(k) == i ensures newNode.DepthFor(k) == globalDepth + 1 {
        TopStep(k, globalDepth);
        assert newNode.IndexOf(k) == Top(k, globalDepth + 1);
      }
    }

    /** A node with each directory entry twice, over the same segments. */
    method Twice(i: nat) returns (newNode: Node)
      requires Valid() && i < directory.Length && globalDepth < MAX_DEPTH
      ensures newNode.Valid() && fresh(newNode) && fresh(newNode.directory) && newNode.SegmentSet() == SegmentSet()
      ensures newNode.header == InitHeader(header.prefixArray, header.prefixLength, header.nodeHeaderDepth)
      ensures newNode.globalDepth == globalDepth + 1 && newNode.View() == View() && newNode.directory.Length == 2 * directory.Length
      ensures newNode.directory[2 * i] == directory[i]
    {
      hide SegmentOk;
      hide SegmentLookup;
      hide Linked;
      hide Shr;
      var entries := CopyTwice();
      newNode := new Node.Over(InitHeader(header.prefixArray, header.prefixLength, header.nodeHeaderDepth), globalDepth + 1, entries);
      newNode.DoubledHolds(this, i);
      assert 2 * i / 2 == i;
    }

    lemma DoubledHolds(old': Node, i: nat)
      requires old'.Valid() && i < old'.directory.Length
      requires globalDepth == old'.globalDepth + 1 <= MAX_DEPTH && directory.Length == 2 * old'.directory.Length
      requires forall y | 0 <= y < directory.Length :: directory[y] == old'.directory[y / 2]
      ensures Valid() && SegmentSet() == old'.SegmentSet()
      ensures View() == old'.View()
    {
      hide SegmentOk;
      hide SegmentLookup;
      hide Shr;
      hide Linked;
      hide Pow2;
      assert Pow2(globalDepth) == 2 * Pow2(old'.globalDepth) by { Pow2Step(old'.globalDepth); }
      DoubledLinked(old'.directory[..], directory[..], old'.globalDepth);
      forall y | 0 <= y < directory.Length ensures EntryOk(directory[y], y, globalDepth) {
        assert EntryOk(old'.directory[y / 2], y / 2, old'.globalDepth);
        ShrHalf(y, old'.globalDepth - directory[y].localDepth);
      }
      EntriesShaped();
      DoubledLookups(old');
    }

    lemma DoubledLookups(old': Node)
      requires Shaped() && old'.Shaped()
      requires globalDepth == old'.globalDepth + 1 && directory.Length == 2 * old'.directory.Length
      requires forall y | 0 <= y < directory.Length :: directory[y] == old'.directory[y / 2]
      ensures View() == old'.View() && SegmentSet() == old'.SegmentSet()
    {
      hide SegmentLookup;
      hide Shr;
      forall y | 0 <= y < old'.directory.Length ensures directory[2 * y] == old'.directory[y] {
        assert 2 * y / 2 == y;
      }
      forall k: U32 ensures Lookup(k) == old'.Lookup(k) {
        assert IndexOf(k) == Top(k, globalDepth) && old'.IndexOf(k) == Top(k, old'.globalDepth);
        TopStep(k, old'.globalDepth);
      }
    }

    // ----- put -----

    /** The local depth of the segment a subkey leads to. */
    function DepthFor(k: U32): nat
      requires globalDepth <= MAX_DEPTH && directory.Length == Pow2(globalDepth)
      reads directory
    {
      directory[IndexOf(k)].localDepth
    }

    /** A split for a new subkey happens at local depth 22 or less. */
    lemma SplitDepth(k: U32)
      requires Valid() && Lookup(k) == None
      requires DepthFor(k) == 0 || MainFull(k)
      ensures DepthFor(k) < MAX_DEPTH
    {
      hide BucketOk;
      hide SegmentOk;
      BucketsOf(k);
      var sn := directory[IndexOf(k)];
      if sn.localDepth > 0 {
        var mp := MainPosition(Decode(sn.sharedBucketOffset), k, sn.localDepth);
        OverflowBoundsDepth(sn.segmentPtr[mp], sn.localDepth, Top(k, sn.localDepth + 5), k);
      }
    }

    /**
     WRERTNode::put. With a slot, the subkey is written there; without one, the segment is split, or the
     directory is doubled, and the put is tried again. The node returned takes this node's place.
     */
    method Put(k: U32, value: U64, slot: Option<SlotRef>, isMain: bool, fingerprint: U16, nodeFlag: bool) returns (node: Node)
      requires Valid()
      requires slot.Some? ==> PointsTo(slot.value, k) || (Lookup(k) == None && FreeFor(slot.value, k, isMain))
      requires slot == None ==> Lookup(k) == None && (DepthFor(k) == 0 || MainFull(k))
      modifies directory, SegmentSet()
      ensures node.Valid() && (node == this || fresh(node)) && fresh(node.Repr() - old(Repr()))
      ensures Successor(node)
      ensures node.View() == old(View())[k := Entry(value % U48_LIMIT, if k in old(View()) then old(View())[k].nodeFlag else nodeFlag)]
      ensures slot.Some? ==> node == this
      decreases MAX_DEPTH + 1 - DepthFor(k), 1
    {
      hide SegmentOk;
      hide SegmentLookup;
      hide Linked;
      hide Shr;
      hide Pow2;
      hide AlignDown;
      hide PointsTo;
      hide FreeFor;
      hide MainFull;
      if slot == None {
        var i := IndexOf(k);
        SplitDepth(k);
        if directory[i].localDepth < globalDepth {
          node := PutSplit(k, value, fingerprint, nodeFlag, i);
        } else {
          node := PutDoubled(k, value, fingerprint, nodeFlag, i);
        }
      } else {
        WriteSlot(k, value, slot.value, isMain, fingerprint, nodeFlag);
        node := this;
      }
    }

    /** put where the segment has room in the directory: a local split first. */
    method PutSplit(k: U32, value: U64, fingerprint: U16, nodeFlag: bool, i: nat) returns (node: Node)
      requires Valid() && Lookup(k) == None && i == IndexOf(k) && directory[i].localDepth < globalDepth && DepthFor(k) < MAX_DEPTH
      modifies directory, SegmentSet()
      ensures node.Valid() && (node == this || fresh(node)) && fresh(node.Repr() - old(Repr()))
      ensures Successor(node)
      ensures node.View() == old(View())[k := Entry(value % U48_LIMIT, nodeFlag)]
      decreases MAX_DEPTH + 1 - DepthFor(k), 0
    {
      hide SegmentOk;
      hide SegmentLookup;
      hide Linked;
      hide Shr;
      hide Pow2;
      SplitLocal(i);
      node := PutSegNode(k, value, fingerprint, nodeFlag);
    }

    /** put where it has none: the node doubles first. */
    method PutDoubled(k: U32, value: U64, fingerprint: U16, nodeFlag: bool, i: nat) returns (node: Node)
      requires Valid() && Lookup(k) == None && i == IndexOf(k) && directory[i].localDepth == globalDepth < MAX_DEPTH
      modifies directory, SegmentSet()
      ensures node.Valid() && (node == this || fresh(node)) && fresh(node.Repr() - old(Repr()))
      ensures Successor(node)
      ensures node.View() == old(View())[k := Entry(value % U48_LIMIT, nodeFlag)]
      decreases MAX_DEPTH + 1 - DepthFor(k), 0
    {
      hide SegmentOk;
      hide SegmentLookup;
      hide Linked;
      hide Shr;
      hide Pow2;
      node := Double(i);
      node := node.PutSegNode(k, value, fingerprint, nodeFlag);
    }

    /** What a node keeps of the node it replaces. */
    ghost predicate Successor(node: Node)
      reads this, node
    {
      node == this || node.header == InitHeader(header.prefixArray, header.prefixLength, header.nodeHeaderDepth)
    }

    /** The slot search of putSegNode: by version alone, shared bucket first. */
    method FindFreeSlot(k: U32) returns (slot: Option<SlotRef>, isMain: bool)
      requires Valid() && Lookup(k) == None
      ensures slot.Some? ==> FreeFor(slot.value, k, isMain)
      ensures slot == None ==> DepthFor(k) == 0 || MainFull(k)
      ensures DepthFor(k) == 0 && !SharedFull(k) ==> slot.Some?
    {
      hide SegmentOk;
      hide SegmentLookup;
      hide Shr;
      hide Pow2;
      hide Linked;
      hide BucketOk;
      var sn := directory[IndexOf(k)];
      var offset := Decode(sn.sharedBucketOffset);
      BucketsOf(k);
      var sharedPosition, mainPosition := SharedPosition(offset, k, sn.localDepth), MainPosition(offset, k, sn.localDepth);
      var sharedBucket, mainBucket := sn.segmentPtr[sharedPosition], sn.segmentPtr[mainPosition];
      var j := SearchVersion(sharedBucket, (sn.localDepth - 1) % 0x100);
      VersionSearchMeaning(sharedBucket, sn.localDepth - 1, sn.localDepth + 4, Top(k, sn.localDepth + 4), j);
      if j < SLOTS_PER_BUCKET {
        return Some(SlotRef(sn.segmentPtr, sharedPosition, j)), false;
      }
      j := SearchVersion(mainBucket, sn.localDepth);
      VersionSearchMeaning(mainBucket, sn.localDepth, sn.localDepth + 5, Top(k, sn.localDepth + 5), j);
      if j < SLOTS_PER_BUCKET {
        return Some(SlotRef(sn.segmentPtr, mainPosition, j)), true;
      }
      return None, false;
    }

    /** WRERTNode::putSegNode: puts a subkey the node does not hold. */
    method PutSegNode(k: U32, value: U64, fingerprint: U16, nodeFlag: bool) returns (node: Node)
      requires Valid() && Lookup(k) == None
      modifies directory, SegmentSet()
      ensures node.Valid() && (node == this || fresh(node)) && fresh(node.Repr() - old(Repr()))
      ensures Successor(node)
      ensures node.View() == old(View())[k := Entry(value % U48_LIMIT, nodeFlag)]
      ensures old(DepthFor(k)) == 0 && !old(SharedFull(k)) ==> node == this
      decreases MAX_DEPTH + 1 - DepthFor(k), 2
    {
      hide SegmentOk;
      hide SegmentLookup;
      hide Linked;
      hide Shr;
      hide Pow2;
      hide PointsTo;
      hide FreeFor;
      hide Successor;
      var slot, isMain := FindFreeSlot(k);
      node := Put(k, value, slot, isMain, fingerprint, nodeFlag);
    }

    lemma LookupAsDirectory()
      requires Shaped()
      ensures forall k: U32 :: Lookup(k) == DirectoryLookup(directory[..], Contents(directory[..]), globalDepth, k)
    {
      hide SegmentLookup;
      forall k: U32 ensures Lookup(k) == DirectoryLookup(directory[..], Contents(directory[..]), globalDepth, k) {
        assert IndexOf(k) == Top(k, globalDepth);
      }
    }
  }

  /** The contents of the segments of a directory. */
  ghost function Contents(d: seq<SegmentNode>): (olds: seq<SegmentValue>)
    requires forall y | 0 <= y < |d| :: d[y].segmentPtr.Length == SEGMENT_SIZE
    reads set y | 0 <= y < |d| :: d[y].segmentPtr
    ensures |olds| == |d| && forall y | 0 <= y < |d| :: olds[y] == d[y].segmentPtr[..]
  {
    seq(|d|, y requires 0 <= y < |d| reads set y | 0 <= y < |d| :: d[y].segmentPtr => d[y].segmentPtr[..])
  }

  /**
   The heap after segment i of directory d was split: the two halves are well-formed and hold what the
   segment held, every other segment is as before. olds are the contents before the split.
   */
  ghost predicate SplitBelow(d: seq<SegmentNode>, olds: seq<SegmentValue>, globalDepth: nat, i: nat, newSeg: Segment, low: StoredOffset, high: StoredOffset)
    requires |olds| == |d| && i < |d| && d[i].localDepth < globalDepth <= MAX_DEPTH
    reads set y | 0 <= y < |d| :: d[y].segmentPtr, newSeg
  {
    var pre, l := Shr(i, globalDepth - d[i].localDepth), d[i].localDepth;
    && (forall y | 0 <= y < |d| :: d[y].segmentPtr != newSeg)
    && (forall y | 0 <= y < |d| && d[y].segmentPtr != d[i].segmentPtr :: EntryOk(d[y], y, globalDepth) && olds[y] == d[y].segmentPtr[..])
    && (forall y | 0 <= y < |d| && d[y].segmentPtr == d[i].segmentPtr :: olds[y] == olds[i])
    && d[i].segmentPtr.Length == SEGMENT_SIZE && newSeg.Length == SEGMENT_SIZE
    && SegmentOk(d[i].segmentPtr[..], l + 1, Decode(low), 2 * pre)
    && SegmentOk(newSeg[..], l + 1, Decode(high), 2 * pre + 1)
    && (forall k: U32 | Top(k, l + 1) == 2 * pre ::
          SegmentLookup(d[i].segmentPtr[..], l + 1, Decode(low), k) == SegmentLookup(olds[i], l, Decode(d[i].sharedBucketOffset), k))
    && (forall k: U32 | Top(k, l + 1) == 2 * pre + 1 ::
          SegmentLookup(newSeg[..], l + 1, Decode(high), k) == SegmentLookup(olds[i], l, Decode(d[i].sharedBucketOffset), k))
  }

  lemma NewSegmentUnused(d: seq<SegmentNode>, olds: seq<SegmentValue>, globalDepth: nat, i: nat, newSeg: Segment, low: StoredOffset, high: StoredOffset)
    requires |olds| == |d| && i < |d| && d[i].localDepth < globalDepth <= MAX_DEPTH
    requires SplitBelow(d, olds, globalDepth, i, newSeg, low, high)
    ensures forall y | 0 <= y < |d| :: d[y].segmentPtr != newSeg
  {
  }

  lemma RelinkedEntryOk(d: seq<SegmentNode>, olds: seq<SegmentValue>, d': seq<SegmentNode>, globalDepth: nat, i: nat, newSeg: Segment,
                        low: StoredOffset, high: StoredOffset, y: nat)
    requires |olds| == |d| && i < |d| && y < |d| && d[i].localDepth < globalDepth <= MAX_DEPTH
    requires Linked(d, globalDepth) && Relinked(d, d', globalDepth, i, newSeg, low, high)
    requires SplitBelow(d, olds, globalDepth, i, newSeg, low, high)
    ensures EntryOk(d'[y], y, globalDepth)
  {
    hide SegmentOk;
    hide SegmentLookup;
    hide Linked;
    hide Shr;
    var n := globalDepth - d[i].localDepth;
    HalvesOf(y, i, n);
    LinkedGroup(d, globalDepth, i, y);
    assert d'[y] == RelinkedEntry(d, globalDepth, i, newSeg, low, high, y);
  }

  /** What a directory over given segment contents finds for a subkey. */
  ghost function DirectoryLookup(d: seq<SegmentNode>, olds: seq<SegmentValue>, globalDepth: nat, k: U32): Option<Entry>
    requires globalDepth <= MAX_DEPTH && |olds| == |d| == Pow2(globalDepth)
  {
    TopBound(k, globalDepth);
    var y := Top(k, globalDepth);
    if d[y].localDepth <= MAX_DEPTH then SegmentLookup(olds[y], d[y].localDepth, Decode(d[y].sharedBucketOffset), k) else None
  }

  /** A group of entries, its lower half with a new offset and its upper half with a new segment. */
  lemma RelinkedHalves(d: seq<SegmentNode>, d': seq<SegmentNode>, globalDepth: nat, i: nat, newSegment: Segment, low: StoredOffset, start: nat, half: nat)
    requires |d'| == |d| && i < |d| && d[i].localDepth < globalDepth <= MAX_DEPTH
    requires var n := globalDepth - d[i].localDepth; start == AlignDown(i, Pow2(n)) && half == Pow2(n - 1) && start + 2 * half <= |d|
    requires var sn := d[i];
      && (forall y | start <= y < start + half :: d'[y] == SegmentNode(sn.localDepth + 1, low, sn.segmentPtr))
      && (forall y | start + half <= y < start + 2 * half :: d'[y] == SegmentNode(sn.localDepth + 1, sn.sharedBucketOffset, newSegment))
    requires forall y | 0 <= y < |d| && !(start <= y < start + 2 * half) :: d'[y] == d[y]
    ensures Relinked(d, d', globalDepth, i, newSegment, low, d[i].sharedBucketOffset)
  {
    hide Shr;
    hide Pow2;
    hide AlignDown;
    forall y | 0 <= y < |d| ensures d'[y] == RelinkedEntry(d, globalDepth, i, newSegment, low, d[i].sharedBucketOffset, y) {
      GroupRange(y, i, globalDepth - d[i].localDepth);
    }
  }

  /** What the new entry of a subkey finds is what the old entry found. */
  lemma RelinkedLookup(d: seq<SegmentNode>, olds: seq<SegmentValue>, d': seq<SegmentNode>, globalDepth: nat, i: nat, newSeg: Segment,
                       low: StoredOffset, high: StoredOffset, k: U32)
    requires globalDepth <= MAX_DEPTH && |olds| == |d| == Pow2(globalDepth) && i < |d| && d[i].localDepth < globalDepth
    requires Linked(d, globalDepth) && Relinked(d, d', globalDepth, i, newSeg, low, high)
    requires SplitBelow(d, olds, globalDepth, i, newSeg, low, high)
    ensures Top(k, globalDepth) < |d|
    ensures var sn := d'[Top(k, globalDepth)];
      && sn.segmentPtr.Length == SEGMENT_SIZE && sn.localDepth <= MAX_DEPTH
      && SegmentLookup(sn.segmentPtr[..], sn.localDepth, Decode(sn.sharedBucketOffset), k) == DirectoryLookup(d, olds, globalDepth, k)
  {
    hide SegmentLookup;
    hide SegmentOk;
    hide Linked;
    hide Shr;
    hide Pow2;
    TopBound(k, globalDepth);
    var y, n := Top(k, globalDepth), globalDepth - d[i].localDepth;
    TopShr(k, d[i].localDepth, globalDepth);
    TopShr(k, d[i].localDepth + 1, globalDepth);
    HalvesOf(y, i, n);
    LinkedGroup(d, globalDepth, i, y);
    assert d'[y] == RelinkedEntry(d, globalDepth, i, newSeg, low, high, y);
  }

  /**
   What the version search of putSegNode, blind to the valid flag, finds in a well-formed bucket: the
   first free slot, or a bucket that is full or is of version 0.
   */
  lemma VersionSearchMeaning(bk: Bucket, ver: Version, n: nat, t: nat, j: nat)
    requires BucketOk(bk, n, t) && ver == n - 5 && n <= 28 && j <= SLOTS_PER_BUCKET
    requires forall i | 0 <= i < j :: bk[i].migVersion % 0x100 == ver % 0x100
    requires j < SLOTS_PER_BUCKET ==> bk[j].migVersion % 0x100 != ver % 0x100
    ensures j < SLOTS_PER_BUCKET ==> FirstFree(bk, ver, j)
    ensures j == SLOTS_PER_BUCKET ==> ver == 0 || forall i | 0 <= i < SLOTS_PER_BUCKET :: Live(bk[i], ver)
  {
    forall i | 0 <= i < j ensures Live(bk[i], ver) || (ver == 0 && !bk[i].validFlag) {
      if bk[i].validFlag {
        SameLowByte(bk[i].migVersion, ver);
      } else {
        SameLowByte(0, ver);
      }
    }
  }

  lemma SameLowByte(a: int, b: int)
    requires -1 <= a <= 23 && -1 <= b <= 23 && a % 0x100 == b % 0x100
    ensures a == b
  {
  }

  /** Two neighbours of a doubled directory rewritten: a group of two entries re-linked. */
  lemma PairRelinked(d: seq<SegmentNode>, d': seq<SegmentNode>, globalDepth: nat, i: nat, newSeg: Segment, low: StoredOffset)
    requires 2 * i + 1 < |d| == |d'| && d[2 * i].localDepth + 1 == globalDepth
    requires forall y | 0 <= y < |d| && y / 2 != i :: d'[y] == d[y]
    requires d'[2 * i] == SegmentNode(globalDepth, low, d[2 * i].segmentPtr)
    requires d'[2 * i + 1] == SegmentNode(globalDepth, 0, newSeg)
    ensures Relinked(d, d', globalDepth, 2 * i, newSeg, low, 0)
  {
    ShrSmall(2 * i);
    forall y | 0 <= y < |d| ensures d'[y] == RelinkedEntry(d, globalDepth, 2 * i, newSeg, low, 0, y) {
      ShrSmall(y);
    }
  }

  lemma LinkedGroup(d: seq<SegmentNode>, globalDepth: nat, i: nat, y: nat)
    requires Linked(d, globalDepth) && i < |d| && y < |d|
    ensures d[i].segmentPtr == d[y].segmentPtr <==> SameGroup(i, y, globalDepth - d[i].localDepth)
    ensures d[i].segmentPtr == d[y].segmentPtr ==> d[i] == d[y]
  {
  }

  lemma StoredSegment(b: SegmentValue, localDepth: nat, offset: Offset, pre: nat, isMain: bool, p: nat, j: nat, k: U32, s: Slot, update: bool)
    requires SegmentOk(b, localDepth, offset, pre) && Top(k, localDepth) == pre && s.subKey == k
    requires update ==> SitsAt(b, localDepth, offset, k, p, j) && s == b[p][j].(value := s.value, nodeFlag := s.nodeFlag)
    requires !update ==> Insertable(b, localDepth, offset, pre, isMain, p, j, s)
    ensures p < SEGMENT_SIZE && j < SLOTS_PER_BUCKET
    ensures SegmentOk(b[p := b[p][j := s]], localDepth, offset, pre)
    ensures forall k': U32 ::
      SegmentLookup(b[p := b[p][j := s]], localDepth, offset, k')
      == if k' == k then Some(EntryOf(s)) else SegmentLookup(b, localDepth, offset, k')
  {
    hide BucketOk;
    hide SegmentLookup;
    hide SegmentOk;
    if update {
      SegmentUpdate(b, localDepth, offset, pre, k, p, j, s);
    } else {
      SegmentInsert(b, localDepth, offset, pre, isMain, p, j, s);
    }
  }
}
