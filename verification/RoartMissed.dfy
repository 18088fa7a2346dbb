/**
 Range lookups that go wrong: at a node whose bytes go past the byte where the bounds part, at one that turns keys away, and at a leaf
 that is read as a node. The keys are 12910000 and 12920000, byte by byte, and those of RoartStale.
 */
module RoartMisses {
  import opened Bits
  import opened Addresses
  import opened Prefixes
  import opened RoartKeys
  import opened RoartLayouts
  import opened RoartModel
  import opened RoartPrefixes
  import opened RoartStates
  import opened RoartStale
  import opened RoartLists
  import opened RoartWays
  import opened RoartVerdicts
  import opened RoartBounds

  const KEY_ONE: U64 := 0x0102090100000000
  const KEY_TWO: U64 := 0x0102090200000000
  const LOW: U64 := 0x0102030000000000
  const HIGH: U64 := 0x0105000000000000

  function Shared(): seq<Byte> {
    [1, 2, 9]
  }

  lemma TwoBytes()
    ensures Bytes(KEY_ONE) == [1, 2, 9, 1, 0, 0, 0, 0] && Bytes(KEY_TWO) == [1, 2, 9, 2, 0, 0, 0, 0]
  {
    AppendByte(0, 0, 0x01, 1);
    AppendByte(0x01, 1, 0x0102, 2);
    AppendByte(0x0102, 2, 0x010209, 9);
    AppendByte(0x010209, 3, 0x01020901, 1);
    AppendByte(0x01020901, 4, 0x0102090100, 0);
    AppendByte(0x0102090100, 5, 0x010209010000, 0);
    AppendByte(0x010209010000, 6, 0x01020901000000, 0);
    AppendByte(0x01020901000000, 7, KEY_ONE, 0);
    AppendByte(0x010209, 3, 0x01020902, 2);
    AppendByte(0x01020902, 4, 0x0102090200, 0);
    AppendByte(0x0102090200, 5, 0x010209020000, 0);
    AppendByte(0x010209020000, 6, 0x01020902000000, 0);
    AppendByte(0x01020902000000, 7, KEY_TWO, 0);
  }

  lemma BoundBytes()
    ensures Bytes(LOW) == [1, 2, 3, 0, 0, 0, 0, 0] && Bytes(HIGH) == [1, 5, 0, 0, 0, 0, 0, 0]
  {
    AppendByte(0, 0, 0x01, 1);
    AppendByte(0x01, 1, 0x0102, 2);
    AppendByte(0x0102, 2, 0x010203, 3);
    AppendByte(0x010203, 3, 0x01020300, 0);
    AppendByte(0x01020300, 4, 0x0102030000, 0);
    AppendByte(0x0102030000, 5, 0x010203000000, 0);
    AppendByte(0x010203000000, 6, 0x01020300000000, 0);
    AppendByte(0x01020300000000, 7, LOW, 0);
    AppendByte(0x01, 1, 0x0105, 5);
    AppendByte(0x0105, 2, 0x010500, 0);
    AppendByte(0x010500, 3, 0x01050000, 0);
    AppendByte(0x01050000, 4, 0x0105000000, 0);
    AppendByte(0x0105000000, 5, 0x010500000000, 0);
    AppendByte(0x010500000000, 6, 0x01050000000000, 0);
    AppendByte(0x01050000000000, 7, HIGH, 0);
  }

  // ----- a clean tree with two keys -----

  ghost function FirstOnly(v: U64): Tree {
    Tree(1, map[1 := RootTo(2), 2 := Leaf(KEY_ONE, v)], map[1 := Place([], []), 2 := Place([1], Bytes(KEY_ONE))])
  }

  lemma FirstOnlyOk(v: U64)
    ensures TreeOk(FirstOnly(v)) && Contents(FirstOnly(v)) == map[KEY_ONE := v]
  {
    hide TreeOk;
    hide Kid;
    hide Contents;
    hide Fits;
    hide RootTo;
    hide Empty;
    hide Bytes;
    NewTreeOk();
    var t := WithCell(NewTree(), 2, Leaf(KEY_ONE, v));
    Allocated(NewTree(), 2, Leaf(KEY_ONE, v));
    RootFits(2);
    TwoBytes();
    assert CanAdd(t, 1, RootTo(2), 2, KEY_ONE, v);
    LeafAdded(t, 1, RootTo(2), 2, KEY_ONE, v);
    assert [] + [Bytes(KEY_ONE)[0]] == [1];
    assert WithLeaf(t, 1, RootTo(2), 2, KEY_ONE) == FirstOnly(v);
  }

  ghost function Both(v: U64): Tree {
    Tree(1,
         map[1 := RootTo(4), 2 := Leaf(KEY_ONE, v), 3 := Leaf(KEY_TWO, v), 4 := Fork(3, NodePrefix(2, [2, 9]), 2, 3, 1, 2)],
         map[1 := Place([], []), 2 := Place([1, 2, 9, 1], Bytes(KEY_ONE)), 3 := Place([1, 2, 9, 2], Bytes(KEY_TWO)), 4 := Place([1], Shared())])
  }

  lemma BothOk(v: U64)
    ensures TreeOk(Both(v)) && Contents(Both(v)) == map[KEY_ONE := v, KEY_TWO := v]
  {
    hide TreeOk;
    hide Kid;
    hide Contents;
    hide Fits;
    hide RootTo;
    hide Fork;
    hide Bytes;
    hide Both;
    FirstOnlyOk(v);
    TwoBytes();
    var t, cell := FirstOnly(v), Fork(3, NodePrefix(2, [2, 9]), 2, 3, 1, 2);
    Allocated(t, 3, Leaf(KEY_TWO, v));
    var t1 := WithCell(t, 3, Leaf(KEY_TWO, v));
    Allocated(t1, 4, cell);
    var t2 := WithCell(t1, 4, cell);
    RootFits(2);
    RootFits(4);
    assert Bytes(KEY_ONE)[..3] == Shared() == Bytes(KEY_TWO)[..3];
    ForkFits(3, NodePrefix(2, [2, 9]), 2, 3, 1, 2, Place([1], Shared()));
    assert CanFork(t2, 1, 1, RootTo(4), 2, 4, 3, KEY_TWO, v, 3);
    ForkAdded(t2, 1, 1, RootTo(4), 2, 4, 3, KEY_TWO, v, 3);
    BothIs(v);
    AllAfter(t, t1, KEY_TWO, v);
    AllAfter(t1, t2, KEY_TWO, v);
  }

  lemma BothIs(v: U64)
    ensures var t := WithCell(WithCell(FirstOnly(v), 3, Leaf(KEY_TWO, v)), 4, Fork(3, NodePrefix(2, [2, 9]), 2, 3, 1, 2));
      Forked(t, 1, RootTo(4), 2, 4, 3, KEY_TWO, 3) == Both(v)
  {
    hide RootTo;
    hide Fork;
    hide Bytes;
    TwoBytes();
    assert Bytes(KEY_ONE)[..4] == [1, 2, 9, 1] && Bytes(KEY_TWO)[..4] == [1, 2, 9, 2] && Bytes(KEY_ONE)[..3] == Shared();
  }

  lemma BothClean(v: U64)
    ensures Clean(Both(v)) && Quiet(Both(v))
  {
    hide Fork;
    hide Bytes;
    hide Settled;
    hide RootTo;
    RootFits(4);
    ForkFits(3, NodePrefix(2, [2, 9]), 2, 3, 1, 2, Place([1], Shared()));
    assert Shared()[1..] == [2, 9] && Shared()[1..][..2] == [2, 9];
  }

  /** The walk goes on from a root with one child. */
  lemma FromRoot(t: Tree, start: U64, end: U64, c: Addr)
    requires TreeOk(t) && t.root == 1 && 1 in t.nodes && t.nodes[1] == RootTo(c) && 1 in t.places && t.places[1] == Place([], []) && c != NULL
    requires Bytes(start)[0] == 1 == Bytes(end)[0]
    ensures c in t.places && WalkEnd(t, t.root, start, end) == WalkEnd(t, c, start, end)
  {
    hide TreeOk;
    hide Bytes;
    hide RootTo;
    hide Kid;
    RootFits(c);
    assert IsParent(t, 1, 1, c);
    ParentSteps(t, 1, 1, c);
  }

  /** Where the verdict leaves a node out, the walk ends. */
  lemma EndsOutside(t: Tree, n: Addr, start: U64, end: U64)
    requires Compared(t, n) && VerdictAt(t, n, start, end) == Outside
    ensures WalkEnd(t, n, start, end) == n
  {
    hide Bytes;
    hide VerdictAt;
  }

  /**
   All keys of a clean tree lie between these bounds, and the lookup finds none: their node's bytes go past the byte where the bounds
   part, and are compared with the upper bound's bytes behind it.
   */
  lemma StraddleMisses(v: U64, limit: nat, lookup: Lookup)
    ensures TreeOk(Both(v)) && Clean(Both(v)) && Quiet(Both(v)) && Contents(Both(v)) == map[KEY_ONE := v, KEY_TWO := v]
    ensures LOW <= KEY_ONE < HIGH && LOW <= KEY_TWO < HIGH && (LookupOf(Both(v), LOW, HIGH, limit, lookup) ==> lookup == Found([], false))
  {
    hide TreeOk;
    hide Contents;
    hide Bytes;
    hide RootTo;
    hide Fork;
    hide Clean;
    hide Quiet;
    hide Less;
    hide WalkEnd;
    hide FirstEntries;
    hide RangeKeys;
    hide RangeStuck;
    BothOk(v);
    BothClean(v);
    BoundBytes();
    var t := Both(v);
    FromRoot(t, LOW, HIGH, 4);
    BothOutside(v);
    EndsOutside(t, 4, LOW, HIGH);
    if LookupOf(t, LOW, HIGH, limit, lookup) { FoundNothing(t, 4, LOW, HIGH, limit, lookup); }
  }

  lemma BothOutside(v: U64)
    ensures Compared(Both(v), 4) && VerdictAt(Both(v), 4, LOW, HIGH) == Outside
  {
    hide Bytes;
    hide RootTo;
    hide Fork;
    BoundBytes();
    ForkFits(3, NodePrefix(2, [2, 9]), 2, 3, 1, 2, Place([1], Shared()));
    var p := NodePrefix(2, [2, 9]);
    assert Seen(p, Place([1], Shared())) == Shared() by {
      assert SeenAt(p, Place([1], Shared()), 1) == 2 && SeenAt(p, Place([1], Shared()), 2) == 9;
    }
    LeavesOut(Shared(), Bytes(LOW), Bytes(HIGH));
  }

  lemma LeavesOut(full: seq<Byte>, s: seq<Byte>, e: seq<Byte>)
    requires |full| == 3 && |s| == 8 == |e| && s[1] <= full[1] <= e[1] && !(s[1] < full[1] < e[1]) && full[2] > e[2]
    ensures Verdict(full, s, e, 1) == Outside
  {
    assert Verdict(full, s, e, 1) == Verdict(full, s, e, 2);
  }

  // ----- a node that turns keys away -----

  /** After the run of RoartStale both keys left are in the range, and the lookup finds none. */
  lemma StaleJoinHides(v: U64, w: U64, u: U64, z: U64, limit: nat, lookup: Lookup)
    ensures TreeOk(TwiceRemoved(v, w, u, z)) && Contents(TwiceRemoved(v, w, u, z)) == map[KEY_A := v, KEY_B := w]
    ensures KEY_A < KEY_B < KEY_P && (LookupOf(TwiceRemoved(v, w, u, z), KEY_A, KEY_P, limit, lookup) ==> lookup == Found([], false))
  {
    hide TreeOk;
    hide Contents;
    hide Bytes;
    hide RootTo;
    hide Fork;
    hide Less;
    hide WalkEnd;
    hide FirstEntries;
    hide RangeKeys;
    hide RangeStuck;
    hide AddPrefixBefore;
    StaleJoinMisses(v, w, u, z);
    KeyBytes();
    var t := TwiceRemoved(v, w, u, z);
    FromRoot(t, KEY_A, KEY_P, 4);
    StaleOutside(v, w, u, z);
    EndsOutside(t, 4, KEY_A, KEY_P);
    if LookupOf(t, KEY_A, KEY_P, limit, lookup) { FoundNothing(t, 4, KEY_A, KEY_P, limit, lookup); }
  }

  lemma StaleOutside(v: U64, w: U64, u: U64, z: U64)
    ensures Compared(TwiceRemoved(v, w, u, z), 4) && VerdictAt(TwiceRemoved(v, w, u, z), 4, KEY_A, KEY_P) == Outside
  {
    hide Bytes;
    hide RootTo;
    hide Fork;
    KeyBytes();
    var prefix, place := AddPrefixBefore(NodePrefix(4, [4, 5, 6, 7]), NodePrefix(3, [2, 3, 4]), 5), Place([1], [1, 2, 3, 4, 5, 6, 7]);
    assert prefix == NodePrefix(8, [2, 3, 4, 5]);
    ForkFits(7, prefix, 9, 3, 8, 2, place);
    assert SeenAt(prefix, place, 1) == 4;
  }

  // ----- a leaf read as a node -----

  /** In a tree of one key a lookup between bounds that share the key's first byte reads the leaf as a node. */
  lemma LeafIsRead(v: U64, limit: nat, lookup: Lookup)
    ensures TreeOk(OneKey(v)) && Clean(OneKey(v)) && Quiet(OneKey(v))
    ensures LookupOf(OneKey(v), KEY_A, KEY_P, limit, lookup) ==> lookup == LeafRead
  {
    hide TreeOk;
    hide Bytes;
    hide RootTo;
    hide FirstEntries;
    hide RangeKeys;
    hide RangeStuck;
    KeyBytes();
    RootFits(2);
    OneKeyOk(v);
    var t := OneKey(v);
    FromRoot(t, KEY_A, KEY_P, 2);
    assert WalkEnd(t, 2, KEY_A, KEY_P) == 2;
  }
}
