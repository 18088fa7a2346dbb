/**
 How a lookup comes to miss: a put that a crash cuts off between its two stores, and two removals after it. The keys are
 12345678, 12345679, 12900000 and 12349000, byte by byte.
 */
module RoartStale {
  import opened Bits
  import opened Addresses
  import opened Prefixes
  import opened RoartKeys
  import opened RoartLayouts
  import opened RoartModel
  import opened RoartPrefixes
  import opened RoartStates

  const KEY_A: U64 := 0x0102030405060708
  const KEY_B: U64 := 0x0102030405060709
  const KEY_P: U64 := 0x0102090000000000
  const KEY_X: U64 := 0x0102030409000000

  lemma {:induction false} AppendByte(x: nat, n: nat, y: nat, b: Byte)
    requires y == 256 * x + b
    ensures LowBytes(y, n + 1) == LowBytes(x, n) + [b]
  {
    assert y / 256 == x && y % 256 == b;
  }

  lemma KeyBytes()
    ensures Bytes(KEY_A) == [1, 2, 3, 4, 5, 6, 7, 8] && Bytes(KEY_B) == [1, 2, 3, 4, 5, 6, 7, 9]
    ensures Bytes(KEY_P) == [1, 2, 9, 0, 0, 0, 0, 0] && Bytes(KEY_X) == [1, 2, 3, 4, 9, 0, 0, 0]
  {
    AppendByte(0, 0, 0x01, 1);
    AppendByte(0x01, 1, 0x0102, 2);
    AppendByte(0x0102, 2, 0x010203, 3);
    AppendByte(0x010203, 3, 0x01020304, 4);
    AppendByte(0x01020304, 4, 0x0102030405, 5);
    AppendByte(0x0102030405, 5, 0x010203040506, 6);
    AppendByte(0x010203040506, 6, 0x01020304050607, 7);
    AppendByte(0x01020304050607, 7, KEY_A, 8);
    AppendByte(0x01020304050607, 7, KEY_B, 9);
    AppendByte(0x0102, 2, 0x010209, 9);
    AppendByte(0x010209, 3, 0x01020900, 0);
    AppendByte(0x01020900, 4, 0x0102090000, 0);
    AppendByte(0x0102090000, 5, 0x010209000000, 0);
    AppendByte(0x010209000000, 6, 0x01020900000000, 0);
    AppendByte(0x01020900000000, 7, KEY_P, 0);
    AppendByte(0x01020304, 4, 0x0102030409, 9);
    AppendByte(0x0102030409, 5, 0x010203040900, 0);
    AppendByte(0x010203040900, 6, 0x01020304090000, 0);
    AppendByte(0x01020304090000, 7, KEY_X, 0);
  }

  // ----- cells -----

  ghost function Two(b: Byte, x: Addr, c: Byte, y: Addr): Layout {
    Inserted(Inserted(Empty(4), b, x), c, y)
  }

  lemma TwoKids(b: Byte, x: Addr, c: Byte, y: Addr)
    requires b != c && x != NULL && y != NULL
    ensures var l := Two(b, x, c, y); LayoutOk(l) && l.count == 2 && Capacity(l) == 4 && Fewest(l) == 2 && !l.Direct?
    ensures forall k: Byte :: Child(Two(b, x, c, y), k) == if k == b then x else if k == c then y else NULL
  {
    assert Live(Empty(4)) == {};
    InsertedOk(Empty(4), b, x);
    InsertedOk(Inserted(Empty(4), b, x), c, y);
  }

  ghost function RootTo(x: Addr): Cell {
    Node(0, NodePrefix(0, []), Inserted(Empty(256), 1, x))
  }

  lemma RootKids(x: Addr)
    requires x != NULL
    ensures LayoutOk(RootTo(x).layout) && RootTo(x).layout.Direct?
    ensures forall k: Byte :: Kid(RootTo(x), k) == if k == 1 then x else NULL
  {
    assert Live(Empty(256)) == {};
    InsertedOk(Empty(256), 1, x);
  }

  ghost function Fork(level: nat, prefix: NodePrefix, b: Byte, x: Addr, c: Byte, y: Addr): Cell {
    Node(level, prefix, Two(b, x, c, y))
  }

  lemma ForkFits(level: nat, prefix: NodePrefix, b: Byte, x: Addr, c: Byte, y: Addr, place: Place)
    requires b != c && x != NULL && y != NULL && PrefixShaped(prefix) && Prefix(place.path, place.full) && level == |place.full| < KEY_LEN
    ensures Fits(Fork(level, prefix, b, x, c, y), place, false) && Settled(Fork(level, prefix, b, x, c, y).layout)
    ensures forall k: Byte :: Kid(Fork(level, prefix, b, x, c, y), k) == if k == b then x else if k == c then y else NULL
    ensures Fork(level, prefix, b, x, c, y).Node? && Fork(level, prefix, b, x, c, y).level == level && Fork(level, prefix, b, x, c, y).prefix == prefix
    ensures Fork(level, prefix, b, x, c, y).layout.count == 2 && Capacity(Fork(level, prefix, b, x, c, y).layout) == 4
  {
    TwoKids(b, x, c, y);
  }

  lemma RootFits(x: Addr)
    requires x != NULL
    ensures RootTo(x).Node? && RootTo(x).level == 0 && RootTo(x).prefix == NodePrefix(0, []) && Fits(RootTo(x), Place([], []), true)
    ensures forall k: Byte :: Kid(RootTo(x), k) == if k == 1 then x else NULL
  {
    RootKids(x);
  }

  // ----- before the crash -----

  ghost function NewTree(): Tree {
    Tree(1, map[1 := Node(0, NodePrefix(0, []), Empty(256))], map[1 := Place([], [])])
  }

  lemma NewTreeOk()
    ensures TreeOk(NewTree()) && Contents(NewTree()) == map[]
    ensures forall k: Byte :: Kid(NewTree().nodes[1], k) == NULL
  {
    assert Live(Empty(256)) == {};
  }

  /** put of A in an empty tree. */
  ghost function OneKey(v: U64): Tree {
    Tree(1, map[1 := RootTo(2), 2 := Leaf(KEY_A, v)], map[1 := Place([], []), 2 := Place([1], Bytes(KEY_A))])
  }

  lemma OneKeyOk(v: U64)
    ensures TreeOk(OneKey(v)) && Contents(OneKey(v)) == map[KEY_A := v]
  {
    hide TreeOk;
    hide Kid;
    hide Contents;
    hide Fits;
    hide RootTo;
    hide Empty;
    hide Bytes;
    NewTreeOk();
    var t := WithCell(NewTree(), 2, Leaf(KEY_A, v));
    Allocated(NewTree(), 2, Leaf(KEY_A, v));
    RootFits(2);
    KeyBytes();
    assert CanAdd(t, 1, RootTo(2), 2, KEY_A, v);
    LeafAdded(t, 1, RootTo(2), 2, KEY_A, v);
    assert [] + [Bytes(KEY_A)[0]] == [1];
    assert WithLeaf(t, 1, RootTo(2), 2, KEY_A) == OneKey(v);
  }

  /** And of B: a node for their seven common bytes. */
  ghost function TwoKeys(v: U64, w: U64): Tree {
    Tree(1,
         map[1 := RootTo(4), 2 := Leaf(KEY_A, v), 3 := Leaf(KEY_B, w), 4 := Fork(7, NodePrefix(6, [2, 3, 4, 5]), 9, 3, 8, 2)],
         map[1 := Place([], []), 2 := Place(Bytes(KEY_A), Bytes(KEY_A)), 3 := Place(Bytes(KEY_B), Bytes(KEY_B)),
             4 := Place([1], [1, 2, 3, 4, 5, 6, 7])])
  }

  lemma TwoKeysOk(v: U64, w: U64)
    ensures TreeOk(TwoKeys(v, w)) && Contents(TwoKeys(v, w)) == map[KEY_A := v, KEY_B := w]
  {
    hide TreeOk;
    hide Kid;
    hide Contents;
    hide Fits;
    hide RootTo;
    hide Fork;
    hide Bytes;
    OneKeyOk(v);
    KeyBytes();
    var t, cell := OneKey(v), Fork(7, NodePrefix(6, [2, 3, 4, 5]), 9, 3, 8, 2);
    Allocated(t, 3, Leaf(KEY_B, w));
    var t1 := WithCell(t, 3, Leaf(KEY_B, w));
    Allocated(t1, 4, cell);
    var t2 := WithCell(t1, 4, cell);
    RootFits(2);
    RootFits(4);
    assert Bytes(KEY_A)[..7] == [1, 2, 3, 4, 5, 6, 7] == Bytes(KEY_B)[..7];
    ForkFits(7, NodePrefix(6, [2, 3, 4, 5]), 9, 3, 8, 2, Place([1], [1, 2, 3, 4, 5, 6, 7]));
    assert CanFork(t2, 1, 1, RootTo(4), 2, 4, 3, KEY_B, w, 7);
    ForkAdded(t2, 1, 1, RootTo(4), 2, 4, 3, KEY_B, w, 7);
    assert Forked(t2, 1, RootTo(4), 2, 4, 3, KEY_B, 7) == TwoKeys(v, w) by {
      assert Bytes(KEY_A)[..8] == Bytes(KEY_A) && Bytes(KEY_B)[..8] == Bytes(KEY_B);
    }
    AllAfter(t, t1, KEY_B, w);
    AllAfter(t1, t2, KEY_B, w);
  }

  /** And of P, which leaves the prefix behind two bytes: a node above, and then another prefix for the node of A and B. */
  ghost function WithP(v: U64, w: U64, u: U64, prefix: NodePrefix): Tree {
    Tree(1,
         map[1 := RootTo(6), 2 := Leaf(KEY_A, v), 3 := Leaf(KEY_B, w), 4 := Fork(7, prefix, 9, 3, 8, 2),
             5 := Leaf(KEY_P, u), 6 := Fork(2, NodePrefix(1, [2]), 9, 5, 3, 4)],
         map[1 := Place([], []), 2 := Place(Bytes(KEY_A), Bytes(KEY_A)), 3 := Place(Bytes(KEY_B), Bytes(KEY_B)),
             4 := Place([1, 2, 3], [1, 2, 3, 4, 5, 6, 7]), 5 := Place([1, 2, 9], Bytes(KEY_P)), 6 := Place([1], [1, 2])])
  }

  ghost function ThreeKeys(v: U64, w: U64, u: U64): Tree {
    WithP(v, w, u, NodePrefix(4, [4, 5, 6, 7]))
  }

  lemma WithPOk(v: U64, w: U64, u: U64)
    ensures var t := WithP(v, w, u, NodePrefix(6, [2, 3, 4, 5])); TreeOk(t) && Contents(t) == map[KEY_A := v, KEY_B := w, KEY_P := u]
  {
    hide TreeOk;
    hide Kid;
    hide Contents;
    hide Fits;
    hide RootTo;
    hide Fork;
    hide Bytes;
    hide WithP;
    TwoKeysOk(v, w);
    KeyBytes();
    var t, cell, full := TwoKeys(v, w), Fork(2, NodePrefix(1, [2]), 9, 5, 3, 4), [1, 2, 3, 4, 5, 6, 7];
    Allocated(t, 5, Leaf(KEY_P, u));
    var t1 := WithCell(t, 5, Leaf(KEY_P, u));
    Allocated(t1, 6, cell);
    var t2 := WithCell(t1, 6, cell);
    RootFits(4);
    RootFits(6);
    assert Bytes(KEY_P)[..2] == [1, 2] == full[..2];
    ForkFits(2, NodePrefix(1, [2]), 9, 5, 3, 4, Place([1], [1, 2]));
    assert CanFork(t2, 1, 1, RootTo(6), 4, 6, 5, KEY_P, u, 2);
    ForkAdded(t2, 1, 1, RootTo(6), 4, 6, 5, KEY_P, u, 2);
    AllAfter(t, t1, KEY_P, u);
    AllAfter(t1, t2, KEY_P, u);
    WithPIs(v, w, u);
  }

  lemma WithPIs(v: U64, w: U64, u: U64)
    ensures var t := WithCell(WithCell(TwoKeys(v, w), 5, Leaf(KEY_P, u)), 6, Fork(2, NodePrefix(1, [2]), 9, 5, 3, 4));
      Forked(t, 1, RootTo(6), 4, 6, 5, KEY_P, 2) == WithP(v, w, u, NodePrefix(6, [2, 3, 4, 5]))
  {
    hide RootTo;
    hide Fork;
    hide Bytes;
    KeyBytes();
    assert [1, 2, 3, 4, 5, 6, 7][..3] == [1, 2, 3] && Bytes(KEY_P)[..3] == [1, 2, 9] && [1, 2, 3, 4, 5, 6, 7][..2] == [1, 2];
  }

  lemma ThreeKeysOk(v: U64, w: U64, u: U64)
    ensures TreeOk(ThreeKeys(v, w, u)) && Contents(ThreeKeys(v, w, u)) == map[KEY_A := v, KEY_B := w, KEY_P := u]
  {
    hide TreeOk;
    hide Kid;
    hide Contents;
    hide Fits;
    hide RootTo;
    hide Fork;
    hide Bytes;
    WithPOk(v, w, u);
    var t := WithP(v, w, u, NodePrefix(6, [2, 3, 4, 5]));
    ForkFits(7, NodePrefix(6, [2, 3, 4, 5]), 9, 3, 8, 2, Place([1], [1, 2, 3, 4, 5, 6, 7]));
    PrefixSet(t, 4, NodePrefix(4, [4, 5, 6, 7]));
    OtherPrefix(7, NodePrefix(6, [2, 3, 4, 5]), NodePrefix(4, [4, 5, 6, 7]), 9, 3, 8, 2);
    assert WithCell(t, 4, Fork(7, NodePrefix(4, [4, 5, 6, 7]), 9, 3, 8, 2)) == ThreeKeys(v, w, u);
  }

  lemma OtherPrefix(level: nat, p: NodePrefix, p': NodePrefix, b: Byte, x: Addr, c: Byte, y: Addr)
    ensures Node(level, p', Fork(level, p, b, x, c, y).layout) == Fork(level, p', b, x, c, y)
  {
  }

  // ----- the crash, and what comes after -----

  /** put of X links its node above the one of A and B; a crash keeps that node's prefix from being cut. */
  ghost function Crashed(v: U64, w: U64, u: U64, z: U64): Tree {
    Tree(1,
         map[1 := RootTo(6), 2 := Leaf(KEY_A, v), 3 := Leaf(KEY_B, w), 4 := Fork(7, NodePrefix(4, [4, 5, 6, 7]), 9, 3, 8, 2),
             5 := Leaf(KEY_P, u), 6 := Fork(2, NodePrefix(1, [2]), 9, 5, 3, 8), 7 := Leaf(KEY_X, z),
             8 := Fork(4, NodePrefix(1, [4]), 9, 7, 5, 4)],
         map[1 := Place([], []), 2 := Place(Bytes(KEY_A), Bytes(KEY_A)), 3 := Place(Bytes(KEY_B), Bytes(KEY_B)),
             4 := Place([1, 2, 3, 4, 5], [1, 2, 3, 4, 5, 6, 7]), 5 := Place([1, 2, 9], Bytes(KEY_P)), 6 := Place([1], [1, 2]),
             7 := Place([1, 2, 3, 4, 9], Bytes(KEY_X)), 8 := Place([1, 2, 3], [1, 2, 3, 4])])
  }

  lemma CrashedOk(v: U64, w: U64, u: U64, z: U64)
    ensures TreeOk(ThreeKeys(v, w, u)) && Updated(ThreeKeys(v, w, u), Crashed(v, w, u, z), KEY_X, z)
    ensures Contents(Crashed(v, w, u, z)) == map[KEY_A := v, KEY_B := w, KEY_P := u, KEY_X := z]
  {
    hide TreeOk;
    hide Kid;
    hide Contents;
    hide Fits;
    hide RootTo;
    hide Fork;
    hide Bytes;
    hide Crashed;
    ThreeKeysOk(v, w, u);
    KeyBytes();
    var t, cell, full := ThreeKeys(v, w, u), Fork(4, NodePrefix(1, [4]), 9, 7, 5, 4), [1, 2, 3, 4, 5, 6, 7];
    Allocated(t, 7, Leaf(KEY_X, z));
    var t1 := WithCell(t, 7, Leaf(KEY_X, z));
    Allocated(t1, 8, cell);
    var t2 := WithCell(t1, 8, cell);
    ForkFits(2, NodePrefix(1, [2]), 9, 5, 3, 4, Place([1], [1, 2]));
    ForkFits(2, NodePrefix(1, [2]), 9, 5, 3, 8, Place([1], [1, 2]));
    assert Bytes(KEY_X)[..4] == [1, 2, 3, 4] == full[..4];
    ForkFits(4, NodePrefix(1, [4]), 9, 7, 5, 4, Place([1, 2, 3], [1, 2, 3, 4]));
    var cell' := Fork(2, NodePrefix(1, [2]), 9, 5, 3, 8);
    assert CanFork(t2, 6, 3, cell', 4, 8, 7, KEY_X, z, 4);
    ForkAdded(t2, 6, 3, cell', 4, 8, 7, KEY_X, z, 4);
    CrashedIs(v, w, u, z);
    AllAfter(t, t1, KEY_X, z);
    AllAfter(t1, t2, KEY_X, z);
  }

  lemma CrashedIs(v: U64, w: U64, u: U64, z: U64)
    ensures var t := WithCell(WithCell(ThreeKeys(v, w, u), 7, Leaf(KEY_X, z)), 8, Fork(4, NodePrefix(1, [4]), 9, 7, 5, 4));
      Forked(t, 6, Fork(2, NodePrefix(1, [2]), 9, 5, 3, 8), 4, 8, 7, KEY_X, 4) == Crashed(v, w, u, z)
  {
    hide RootTo;
    hide Fork;
    hide Bytes;
    KeyBytes();
    var full := [1, 2, 3, 4, 5, 6, 7];
    assert full[..5] == [1, 2, 3, 4, 5] && Bytes(KEY_X)[..5] == [1, 2, 3, 4, 9] && full[..4] == [1, 2, 3, 4];
  }

  /** remove of P: the node of X takes the place of P's, and joins its prefix, which is right, with that node's. */
  ghost function OnceRemoved(v: U64, w: U64, u: U64, z: U64): Tree {
    Tree(1,
         Crashed(v, w, u, z).nodes[1 := RootTo(8)][8 := Fork(4, AddPrefixBefore(NodePrefix(1, [4]), NodePrefix(1, [2]), 3), 9, 7, 5, 4)],
         map[1 := Place([], []), 2 := Place(Bytes(KEY_A), Bytes(KEY_A)), 3 := Place(Bytes(KEY_B), Bytes(KEY_B)),
             4 := Place([1, 2, 3, 4, 5], [1, 2, 3, 4, 5, 6, 7]), 7 := Place([1, 2, 3, 4, 9], Bytes(KEY_X)), 8 := Place([1], [1, 2, 3, 4])])
  }

  lemma OnceRemovedOk(v: U64, w: U64, u: U64, z: U64)
    ensures Removed(Crashed(v, w, u, z), OnceRemoved(v, w, u, z), KEY_P)
  {
    hide TreeOk;
    hide Kid;
    hide Contents;
    hide Fits;
    hide RootTo;
    hide Fork;
    hide Bytes;
    CrashedOk(v, w, u, z);
    KeyBytes();
    var t := Crashed(v, w, u, z);
    RootFits(6);
    RootFits(8);
    ForkFits(2, NodePrefix(1, [2]), 9, 5, 3, 8, Place([1], [1, 2]));
    assert CanMerge(t, 1, 1, RootTo(8), 6, 5, 9, 8, 3, KEY_P);
    MergeRemoved(t, 1, 1, RootTo(8), 6, 5, 9, 8, 3, KEY_P);
    var t1 := Merged(t, 1, RootTo(8), 6, 5, 8);
    ForkFits(4, NodePrefix(1, [4]), 9, 7, 5, 4, Place([1, 2, 3], [1, 2, 3, 4]));
    var prefix := AddPrefixBefore(NodePrefix(1, [4]), NodePrefix(1, [2]), 3);
    PrefixSet(t1, 8, prefix);
    OtherPrefix(4, NodePrefix(1, [4]), prefix, 9, 7, 5, 4);
    assert WithCell(t1, 8, Fork(4, prefix, 9, 7, 5, 4)) == OnceRemoved(v, w, u, z);
    AllAfterToo(t, t1, KEY_P, 0);
  }

  /** remove of X: the node of A and B takes the place of X's. */
  ghost function TwiceRemoved(v: U64, w: U64, u: U64, z: U64): Tree {
    Tree(1,
         OnceRemoved(v, w, u, z).nodes[1 := RootTo(4)][4 := Fork(7, AddPrefixBefore(NodePrefix(4, [4, 5, 6, 7]), NodePrefix(3, [2, 3, 4]), 5), 9, 3, 8, 2)],
         map[1 := Place([], []), 2 := Place(Bytes(KEY_A), Bytes(KEY_A)), 3 := Place(Bytes(KEY_B), Bytes(KEY_B)),
             4 := Place([1], [1, 2, 3, 4, 5, 6, 7])])
  }

  lemma TwiceRemovedOk(v: U64, w: U64, u: U64, z: U64)
    ensures Removed(OnceRemoved(v, w, u, z), TwiceRemoved(v, w, u, z), KEY_X)
  {
    hide TreeOk;
    hide Kid;
    hide Contents;
    hide Fits;
    hide RootTo;
    hide Fork;
    hide Bytes;
    OnceRemovedOk(v, w, u, z);
    KeyBytes();
    var t := OnceRemoved(v, w, u, z);
    var upper, prefix := NodePrefix(3, [2, 3, 4]), AddPrefixBefore(NodePrefix(4, [4, 5, 6, 7]), NodePrefix(3, [2, 3, 4]), 5);
    assert AddPrefixBefore(NodePrefix(1, [4]), NodePrefix(1, [2]), 3) == upper;
    RootFits(8);
    RootFits(4);
    ForkFits(4, upper, 9, 7, 5, 4, Place([1], [1, 2, 3, 4]));
    assert CanMerge(t, 1, 1, RootTo(4), 8, 7, 9, 4, 5, KEY_X);
    MergeRemoved(t, 1, 1, RootTo(4), 8, 7, 9, 4, 5, KEY_X);
    var t1 := Merged(t, 1, RootTo(4), 8, 7, 4);
    ForkFits(7, NodePrefix(4, [4, 5, 6, 7]), 9, 3, 8, 2, Place([1, 2, 3, 4, 5], [1, 2, 3, 4, 5, 6, 7]));
    PrefixSet(t1, 4, prefix);
    OtherPrefix(7, NodePrefix(4, [4, 5, 6, 7]), prefix, 9, 3, 8, 2);
    assert WithCell(t1, 4, Fork(7, prefix, 9, 3, 8, 2)) == TwiceRemoved(v, w, u, z);
    AllAfterToo(t, t1, KEY_X, 0);
  }

  lemma AllRight(v: U64, w: U64, u: U64)
    ensures Clean(ThreeKeys(v, w, u)) && Quiet(ThreeKeys(v, w, u))
  {
    hide Fork;
    hide Bytes;
    hide Settled;
    hide PrefixFrom;
    hide RootTo;
    RootFits(6);
    ForkFits(7, NodePrefix(4, [4, 5, 6, 7]), 9, 3, 8, 2, Place([1, 2, 3], [1, 2, 3, 4, 5, 6, 7]));
    ForkFits(2, NodePrefix(1, [2]), 9, 5, 3, 4, Place([1], [1, 2]));
    Spelled();
  }

  lemma Spelled()
    ensures PrefixFrom([1, 2, 3, 4, 5, 6, 7], 3) == NodePrefix(4, [4, 5, 6, 7]) && PrefixFrom([1, 2], 1) == NodePrefix(1, [2])
    ensures PrefixFrom([1, 2, 3, 4], 3) == NodePrefix(1, [4]) && PrefixFrom([1, 2, 3, 4], 1) == NodePrefix(3, [2, 3, 4])
    ensures PrefixFrom([], 0) == NodePrefix(0, [])
  {
    var full := [1, 2, 3, 4, 5, 6, 7];
    assert full[3..] == [4, 5, 6, 7] && full[3..][..4] == [4, 5, 6, 7];
    assert [1, 2][1..] == [2] && [1, 2][1..][..1] == [2];
    assert [1, 2, 3, 4][3..] == [4] && [1, 2, 3, 4][3..][..1] == [4];
    assert [1, 2, 3, 4][1..] == [2, 3, 4] && [1, 2, 3, 4][1..][..3] == [2, 3, 4];
  }

  /**
   A clean tree of three keys; a put that a crash cuts off; a remove, after which all lookups are still right; and another
   remove. Then the lookups of both remaining keys miss.
   */
  lemma StaleJoinMisses(v: U64, w: U64, u: U64, z: U64)
    ensures TreeOk(ThreeKeys(v, w, u)) && Clean(ThreeKeys(v, w, u)) && Quiet(ThreeKeys(v, w, u))
    ensures PutImage(ThreeKeys(v, w, u), Crashed(v, w, u, z), KEY_X, z)
    ensures Removed(Crashed(v, w, u, z), OnceRemoved(v, w, u, z), KEY_P) && Honest(OnceRemoved(v, w, u, z))
    ensures Removed(OnceRemoved(v, w, u, z), TwiceRemoved(v, w, u, z), KEY_X)
    ensures Contents(TwiceRemoved(v, w, u, z)) == map[KEY_A := v, KEY_B := w]
    ensures Turned(TwiceRemoved(v, w, u, z), KEY_A) && Turned(TwiceRemoved(v, w, u, z), KEY_B)
  {
    hide TreeOk;
    hide Contents;
    hide Clean;
    hide Quiet;
    hide Kept;
    hide Turned;
    hide Described;
    hide Honest;
    hide ThreeKeys;
    hide Crashed;
    hide OnceRemoved;
    hide TwiceRemoved;
    CrashedOk(v, w, u, z);
    AllRight(v, w, u);
    OnceRemovedOk(v, w, u, z);
    TwiceRemovedOk(v, w, u, z);
    CrashKept(v, w, u, z);
    CrashQuiet(v, w, u, z);
    OnceDescribed(v, w, u, z);
    BothTurned(v, w, u, z);
    DescribedHonest(OnceRemoved(v, w, u, z));
  }

  lemma CrashKept(v: U64, w: U64, u: U64, z: U64)
    ensures Kept(ThreeKeys(v, w, u), Crashed(v, w, u, z))
  {
    hide RootTo;
    hide PrefixFrom;
    hide Fork;
    hide Bytes;
    ForkFits(7, NodePrefix(4, [4, 5, 6, 7]), 9, 3, 8, 2, Place([1, 2, 3], [1, 2, 3, 4, 5, 6, 7]));
    ForkFits(2, NodePrefix(1, [2]), 9, 5, 3, 8, Place([1], [1, 2]));
    ForkFits(4, NodePrefix(1, [4]), 9, 7, 5, 4, Place([1, 2, 3], [1, 2, 3, 4]));
    Spelled();
    RootFits(6);
  }

  lemma CrashQuiet(v: U64, w: U64, u: U64, z: U64)
    ensures Quiet(Crashed(v, w, u, z))
  {
    hide RootTo;
    hide Fork;
    hide Bytes;
    hide Settled;
    ForkFits(7, NodePrefix(4, [4, 5, 6, 7]), 9, 3, 8, 2, Place([1, 2, 3], [1, 2, 3, 4, 5, 6, 7]));
    ForkFits(2, NodePrefix(1, [2]), 9, 5, 3, 8, Place([1], [1, 2]));
    ForkFits(4, NodePrefix(1, [4]), 9, 7, 5, 4, Place([1, 2, 3], [1, 2, 3, 4]));
  }

  lemma OnceDescribed(v: U64, w: U64, u: U64, z: U64)
    ensures Described(OnceRemoved(v, w, u, z))
  {
    hide RootTo;
    hide PrefixFrom;
    hide Fork;
    hide Bytes;
    ForkFits(7, NodePrefix(4, [4, 5, 6, 7]), 9, 3, 8, 2, Place([1, 2, 3], [1, 2, 3, 4, 5, 6, 7]));
    var upper := NodePrefix(3, [2, 3, 4]);
    assert AddPrefixBefore(NodePrefix(1, [4]), NodePrefix(1, [2]), 3) == upper;
    ForkFits(4, upper, 9, 7, 5, 4, Place([1], [1, 2, 3, 4]));
    Spelled();
    RootFits(8);
  }

  lemma BothTurned(v: U64, w: U64, u: U64, z: U64)
    ensures Turned(TwiceRemoved(v, w, u, z), KEY_A) && Turned(TwiceRemoved(v, w, u, z), KEY_B)
  {
    KeyBytes();
    hide Bytes;
    hide Fork;
    var full, prefix := [1, 2, 3, 4, 5, 6, 7], AddPrefixBefore(NodePrefix(4, [4, 5, 6, 7]), NodePrefix(3, [2, 3, 4]), 5);
    assert prefix == NodePrefix(8, [2, 3, 4, 5]);
    ForkFits(7, prefix, 9, 3, 8, 2, Place([1], full));
    ByteTurns(prefix, Place([1], full), 2);
    assert Bytes(KEY_A)[..7] == full == Bytes(KEY_B)[..7];
    assert TurnsAt(TwiceRemoved(v, w, u, z), KEY_A, 4) && TurnsAt(TwiceRemoved(v, w, u, z), KEY_B, 4);
  }
}
