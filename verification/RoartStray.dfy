/**
 How a lookup comes to find another key's value: a put that a crash cuts off between the index and the child, in an N48 on the
 last level, and the next put into that node. The keys are 1000000i, byte by byte, and 10100000.
 */
module RoartStrays {
  import opened Bits
  import opened Options
  import opened Addresses
  import opened Prefixes
  import opened RoartKeys
  import opened RoartLayouts
  import opened RoartModel
  import opened RoartPrefixes
  import opened RoartStates
  import opened RoartLookups
  import opened RoartCollisions
  import opened RoartStale

  const FIRST: U64 := 0x0100000000000000
  const APART: U64 := 0x0100010000000000

  function Path(): seq<Byte> {
    [1, 0, 0, 0, 0, 0, 0]
  }

  lemma FirstBytes(i: Byte)
    ensures Bytes(FIRST + i) == Path() + [i] && Bytes(FIRST + i)[..7] == Path() && Bytes(FIRST + i)[7] == i
  {
    AppendByte(0, 0, 0x01, 1);
    AppendByte(0x01, 1, 0x0100, 0);
    AppendByte(0x0100, 2, 0x010000, 0);
    AppendByte(0x010000, 3, 0x01000000, 0);
    AppendByte(0x01000000, 4, 0x0100000000, 0);
    AppendByte(0x0100000000, 5, 0x010000000000, 0);
    AppendByte(0x010000000000, 6, 0x01000000000000, 0);
    AppendByte(0x01000000000000, 7, FIRST + i, i);
  }

  lemma ApartBytes()
    ensures Bytes(APART) == [1, 0, 1, 0, 0, 0, 0, 0]
  {
    AppendByte(0, 0, 0x01, 1);
    AppendByte(0x01, 1, 0x0100, 0);
    AppendByte(0x0100, 2, 0x010001, 1);
    AppendByte(0x010001, 3, 0x01000100, 0);
    AppendByte(0x01000100, 4, 0x0100010000, 0);
    AppendByte(0x0100010000, 5, 0x010001000000, 0);
    AppendByte(0x010001000000, 6, 0x01000100000000, 0);
    AppendByte(0x01000100000000, 7, APART, 0);
  }

  // ----- an N48 with the first m bytes -----

  ghost function Lay(m: nat): (l: Layout)
    requires 2 <= m <= 48
    ensures l.Indexed? && LayoutOk(l) && Sealed(l) && l.compactCount == m == l.count
    ensures forall b: Byte :: Child(l, b) == if b < m then 10 + b else NULL
  {
    if m == 2 then
      TwoIn48();
      Inserted(Inserted(Empty(48), 1, 11), 0, 10)
    else
      InsertedOk(Lay(m - 1), m - 1, 9 + m);
      Inserted(Lay(m - 1), m - 1, 9 + m)
  }

  lemma TwoIn48()
    ensures var l := Inserted(Empty(48), 1, 11); LayoutOk(l) && !Full(l) && FreeFor(l, 0) && Child(l, 0) == NULL && l.Indexed?
    ensures var l := Inserted(Inserted(Empty(48), 1, 11), 0, 10); LayoutOk(l) && Sealed(l) && l.count == 2
    ensures forall b: Byte :: Child(Inserted(Inserted(Empty(48), 1, 11), 0, 10), b) == if b < 2 then 10 + b else NULL
  {
    assert Live(Empty(48)) == {};
    InsertedOk(Empty(48), 1, 11);
    InsertedOk(Inserted(Empty(48), 1, 11), 0, 10);
  }

  ghost function Wide(m: nat, prefix: NodePrefix): Cell
    requires 2 <= m <= 48
  {
    Node(7, prefix, Lay(m))
  }

  lemma WideFits(m: nat, prefix: NodePrefix, path: seq<Byte>)
    requires 2 <= m <= 48 && PrefixShaped(prefix) && Prefix(path, Path())
    ensures Fits(Wide(m, prefix), Place(path, Path()), false)
    ensures forall b: Byte :: Kid(Wide(m, prefix), b) == if b < m then 10 + b else NULL
    ensures Wide(m, prefix).Node? && Wide(m, prefix).level == 7 && Wide(m, prefix).prefix == prefix && Wide(m, prefix).layout == Lay(m)
  {
    hide Lay;
  }

  // ----- trees with such a node -----

  /** Below byte 1: a leaf for the first key, and then a node for the first two. */
  ghost function FirstTree(v: U64): Tree {
    Tree(1, map[1 := RootTo(10), 10 := Leaf(FIRST, v)], map[1 := Place([], []), 10 := Place([1], Bytes(FIRST))])
  }

  lemma FirstTreeOk(v: U64)
    ensures TreeOk(FirstTree(v)) && Contents(FirstTree(v)) == map[FIRST := v]
  {
    hide TreeOk;
    hide Kid;
    hide Contents;
    hide Fits;
    hide RootTo;
    hide Empty;
    hide Bytes;
    NewTreeOk();
    var t := WithCell(NewTree(), 10, Leaf(FIRST, v));
    Allocated(NewTree(), 10, Leaf(FIRST, v));
    RootFits(10);
    FirstBytes(0);
    assert CanAdd(t, 1, RootTo(10), 10, FIRST, v);
    LeafAdded(t, 1, RootTo(10), 10, FIRST, v);
    assert [] + [Bytes(FIRST)[0]] == [1];
    assert WithLeaf(t, 1, RootTo(10), 10, FIRST) == FirstTree(v);
  }

  ghost function SecondTree(v: U64): Tree {
    Tree(1,
         map[1 := RootTo(4), 10 := Leaf(FIRST, v), 11 := Leaf(FIRST + 1, v), 4 := Wide(2, NodePrefix(6, [0, 0, 0, 0]))],
         map[1 := Place([], []), 10 := Place(Bytes(FIRST), Bytes(FIRST)), 11 := Place(Bytes(FIRST + 1), Bytes(FIRST + 1)), 4 := Place([1], Path())])
  }

  lemma SecondTreeOk(v: U64)
    ensures TreeOk(SecondTree(v)) && Contents(SecondTree(v)) == map[FIRST := v, FIRST + 1 := v]
  {
    hide TreeOk;
    hide Kid;
    hide Contents;
    hide Fits;
    hide RootTo;
    hide Wide;
    hide Bytes;
    FirstTreeOk(v);
    FirstBytes(0);
    FirstBytes(1);
    var t, cell := FirstTree(v), Wide(2, NodePrefix(6, [0, 0, 0, 0]));
    Allocated(t, 11, Leaf(FIRST + 1, v));
    var t1 := WithCell(t, 11, Leaf(FIRST + 1, v));
    Allocated(t1, 4, cell);
    var t2 := WithCell(t1, 4, cell);
    RootFits(10);
    RootFits(4);
    WideFits(2, NodePrefix(6, [0, 0, 0, 0]), [1]);
    assert CanFork(t2, 1, 1, RootTo(4), 10, 4, 11, FIRST + 1, v, 7);
    ForkAdded(t2, 1, 1, RootTo(4), 10, 4, 11, FIRST + 1, v, 7);
    assert Forked(t2, 1, RootTo(4), 10, 4, 11, FIRST + 1, 7) == SecondTree(v) by {
      assert Bytes(FIRST)[..8] == Bytes(FIRST) && Bytes(FIRST + 1)[..8] == Bytes(FIRST + 1);
    }
    AllAfter(t, t1, FIRST + 1, v);
    AllAfter(t1, t2, FIRST + 1, v);
  }

  const SHORT := NodePrefix(4, [0, 0, 0, 0])

  /** And a key apart, so that four bytes are left of the node's prefix. */
  ghost function ThirdTree(v: U64, prefix: NodePrefix): Tree {
    Tree(1,
         map[1 := RootTo(6), 10 := Leaf(FIRST, v), 11 := Leaf(FIRST + 1, v), 4 := Wide(2, prefix),
             5 := Leaf(APART, v), 6 := Fork(2, NodePrefix(1, [0]), 1, 5, 0, 4)],
         map[1 := Place([], []), 10 := Place(Bytes(FIRST), Bytes(FIRST)), 11 := Place(Bytes(FIRST + 1), Bytes(FIRST + 1)),
             4 := Place([1, 0, 0], Path()), 5 := Place([1, 0, 1], Bytes(APART)), 6 := Place([1], [1, 0])])
  }

  lemma ThirdTreeOk(v: U64)
    ensures TreeOk(ThirdTree(v, SHORT)) && Contents(ThirdTree(v, SHORT)) == map[FIRST := v, FIRST + 1 := v, APART := v]
  {
    hide TreeOk;
    hide Kid;
    hide Contents;
    hide Fits;
    hide RootTo;
    hide Fork;
    hide Wide;
    hide Bytes;
    ThirdTreeLong(v);
    var t := ThirdTree(v, NodePrefix(6, [0, 0, 0, 0]));
    WideFits(2, NodePrefix(6, [0, 0, 0, 0]), [1, 0, 0]);
    WideFits(2, SHORT, [1, 0, 0]);
    PrefixSet(t, 4, SHORT);
    assert WithCell(t, 4, Wide(2, SHORT)) == ThirdTree(v, SHORT);
  }

  lemma ThirdTreeLong(v: U64)
    ensures var t := ThirdTree(v, NodePrefix(6, [0, 0, 0, 0])); TreeOk(t) && Contents(t) == map[FIRST := v, FIRST + 1 := v, APART := v]
  {
    hide TreeOk;
    hide Kid;
    hide Contents;
    hide Fits;
    hide RootTo;
    hide Fork;
    hide Wide;
    hide Bytes;
    hide ThirdTree;
    SecondTreeOk(v);
    ApartBytes();
    var t, cell, full := SecondTree(v), Fork(2, NodePrefix(1, [0]), 1, 5, 0, 4), Path();
    Allocated(t, 5, Leaf(APART, v));
    var t1 := WithCell(t, 5, Leaf(APART, v));
    Allocated(t1, 6, cell);
    var t2 := WithCell(t1, 6, cell);
    RootFits(4);
    RootFits(6);
    assert Bytes(APART)[..2] == [1, 0] == full[..2];
    ForkFits(2, NodePrefix(1, [0]), 1, 5, 0, 4, Place([1], [1, 0]));
    assert CanFork(t2, 1, 1, RootTo(6), 4, 6, 5, APART, v, 2);
    ForkAdded(t2, 1, 1, RootTo(6), 4, 6, 5, APART, v, 2);
    AllAfter(t, t1, APART, v);
    AllAfter(t1, t2, APART, v);
    ThirdTreeIs(v);
  }

  lemma ThirdTreeIs(v: U64)
    ensures var t := WithCell(WithCell(SecondTree(v), 5, Leaf(APART, v)), 6, Fork(2, NodePrefix(1, [0]), 1, 5, 0, 4));
      Forked(t, 1, RootTo(6), 4, 6, 5, APART, 2) == ThirdTree(v, NodePrefix(6, [0, 0, 0, 0]))
  {
    hide RootTo;
    hide Fork;
    hide Wide;
    hide Bytes;
    ThirdPlaces(v);
    hide ForkPlaces;
    assert SecondTree(v).nodes[5 := Leaf(APART, v)][6 := Fork(2, NodePrefix(1, [0]), 1, 5, 0, 4)][1 := RootTo(6)]
        == ThirdTree(v, NodePrefix(6, [0, 0, 0, 0])).nodes;
  }

  lemma ThirdPlaces(v: U64)
    ensures 4 in SecondTree(v).places && ForkPlaces(SecondTree(v).places, 4, 6, 5, APART, 2) == ThirdTree(v, NodePrefix(6, [0, 0, 0, 0])).places
  {
    hide RootTo;
    hide Fork;
    hide Wide;
    hide Bytes;
    ApartBytes();
    assert Path()[..3] == [1, 0, 0] && Bytes(APART)[..3] == [1, 0, 1] && Path()[..2] == [1, 0];
  }

  /** After puts of the first m keys. */
  ghost function Upto(m: nat, v: U64): Tree
    requires 2 <= m <= 48
  {
    if m == 2 then ThirdTree(v, SHORT)
    else
      var t := WithCell(Upto(m - 1, v), 9 + m, Leaf(FIRST + m - 1, v));
      if 4 in t.places && |t.places[4].full| < KEY_LEN then WithLeaf(t, 4, Wide(m, SHORT), 9 + m, FIRST + m - 1) else t
  }

  /** Such a tree: a root, the fork below it, and the node with the first keys. */
  ghost predicate Looks(t: Tree, cell: Cell) {
    && t.root == 1 && IsNode(t, 1) && IsNode(t, 4) && IsNode(t, 6) && (forall n | IsNode(t, n) :: n == 1 || n == 4 || n == 6)
    && t.nodes[1] == RootTo(6) && t.places[1] == Place([], []) && t.nodes[4] == cell && t.places[4] == Place([1, 0, 0], Path())
    && t.nodes[6] == Fork(2, NodePrefix(1, [0]), 1, 5, 0, 4) && t.places[6] == Place([1], [1, 0])
  }

  ghost predicate IsUpto(t: Tree, m: nat)
    requires 2 <= m <= 48
  {
    && TreeOk(t) && Looks(t, Wide(m, SHORT)) && (forall n | n in t.nodes :: n < 10 + m)
    && (forall key | key in Contents(t) :: key == APART || FIRST <= key < FIRST + m)
  }

  lemma ThirdLooks(v: U64)
    ensures IsUpto(ThirdTree(v, SHORT), 2)
  {
    hide TreeOk;
    hide Contents;
    hide RootTo;
    hide Fork;
    hide Wide;
    hide Bytes;
    ThirdTreeOk(v);
    RootFits(6);
    ForkFits(2, NodePrefix(1, [0]), 1, 5, 0, 4, Place([1], [1, 0]));
    WideFits(2, SHORT, [1, 0, 0]);
  }

  lemma {:induction false} UptoIs(m: nat, v: U64)
    requires 2 <= m <= 48
    ensures IsUpto(Upto(m, v), m)
  {
    hide TreeOk;
    hide Contents;
    hide Kid;
    hide Fits;
    hide RootTo;
    hide Fork;
    hide Wide;
    hide Bytes;
    hide ThirdTree;
    hide IsUpto;
    if m == 2 {
      ThirdLooks(v);
    } else {
      UptoIs(m - 1, v);
      Next(Upto(m - 1, v), m, v);
    }
  }

  lemma NextCan(t: Tree, m: nat, v: U64)
    requires 3 <= m <= 48 && IsUpto(t, m - 1)
    ensures CanAdd(WithCell(t, 9 + m, Leaf(FIRST + m - 1, v)), 4, Wide(m, SHORT), 9 + m, FIRST + m - 1, v)
    ensures SameContents(t, WithCell(t, 9 + m, Leaf(FIRST + m - 1, v))) && 9 + m !in t.places && Wide(m, SHORT).Node?
  {
    hide TreeOk;
    hide Contents;
    hide Kid;
    hide Fits;
    hide RootTo;
    hide Fork;
    hide Wide;
    hide Bytes;
    Allocated(t, 9 + m, Leaf(FIRST + m - 1, v));
    NotPlaced(t, 9 + m);
    FirstBytes(m - 1);
    NextKids(m);
  }

  lemma NextKids(m: nat)
    requires 3 <= m <= 48
    ensures Fits(Wide(m, SHORT), Place([1, 0, 0], Path()), false) && CellRepointed(Wide(m - 1, SHORT), Wide(m, SHORT), m - 1, 9 + m)
    ensures Kid(Wide(m - 1, SHORT), m - 1) == NULL
  {
    hide Kid;
    hide Fits;
    hide Wide;
    hide Lay;
    WideFits(m - 1, SHORT, [1, 0, 0]);
    WideFits(m, SHORT, [1, 0, 0]);
  }

  /** One put more. */
  lemma Next(t: Tree, m: nat, v: U64)
    requires 3 <= m <= 48 && IsUpto(t, m - 1)
    ensures var t1 := WithCell(t, 9 + m, Leaf(FIRST + m - 1, v));
      4 in t1.places && |t1.places[4].full| < KEY_LEN && IsUpto(WithLeaf(t1, 4, Wide(m, SHORT), 9 + m, FIRST + m - 1), m)
  {
    hide TreeOk;
    hide Contents;
    hide Kid;
    hide Fits;
    hide Wide;
    hide Bytes;
    hide IsUpto;
    hide WithLeaf;
    var t1, key := WithCell(t, 9 + m, Leaf(FIRST + m - 1, v)), FIRST + m - 1;
    NextCan(t, m, v);
    LeafAdded(t1, 4, Wide(m, SHORT), 9 + m, key, v);
    hide CanAdd;
    NextShape(t, m, v);
  }

  lemma NextShape(t: Tree, m: nat, v: U64)
    requires 3 <= m <= 48 && IsUpto(t, m - 1) && 4 in t.places && |t.places[4].full| < KEY_LEN
    requires var t' := WithLeaf(WithCell(t, 9 + m, Leaf(FIRST + m - 1, v)), 4, Wide(m, SHORT), 9 + m, FIRST + m - 1);
      TreeOk(t') && Contents(t') == Contents(t)[FIRST + m - 1 := v] && 9 + m !in t.places && Wide(m, SHORT).Node?
    ensures IsUpto(WithLeaf(WithCell(t, 9 + m, Leaf(FIRST + m - 1, v)), 4, Wide(m, SHORT), 9 + m, FIRST + m - 1), m)
  {
    hide TreeOk;
    hide Contents;
    hide RootTo;
    hide Fork;
    hide Wide;
    hide Bytes;
    var t' := WithLeaf(WithCell(t, 9 + m, Leaf(FIRST + m - 1, v)), 4, Wide(m, SHORT), 9 + m, FIRST + m - 1);
    forall n | IsNode(t', n) ensures n == 1 || n == 4 || n == 6 {
      if n != 4 { assert IsNode(t, n); }
    }
  }

  // ----- the crash, and the put after it -----

  /** A tree of some keys in the node, as puts make it: clean, and quiet. */
  lemma BeforeOk(m: nat, v: U64)
    requires 12 <= m <= 46
    ensures var t := Upto(m, v); TreeOk(t) && Clean(t) && Quiet(t) && FIRST + m !in Contents(t)
  {
    hide TreeOk;
    hide Contents;
    hide RootTo;
    hide Fork;
    hide Wide;
    hide Bytes;
    hide PrefixFrom;
    hide Upto;
    hide Lay;
    UptoIs(m, v);
    RootFits(6);
    ForkFits(2, NodePrefix(1, [0]), 1, 5, 0, 4, Place([1], [1, 0]));
    WideFits(m, SHORT, [1, 0, 0]);
    Spelled0();
  }

  lemma Spelled0()
    ensures PrefixFrom(Path(), 3) == SHORT && PrefixFrom([1, 0], 1) == NodePrefix(1, [0]) && PrefixFrom([], 0) == NodePrefix(0, [])
  {
    assert Path()[3..] == [0, 0, 0, 0] && Path()[3..][..4] == [0, 0, 0, 0];
    assert [1, 0][1..] == [0] && [1, 0][1..][..1] == [0];
  }

  ghost function HalfLay(m: nat): (l: Layout)
    requires 12 <= m <= 46
    ensures l == HalfInserted(Lay(m), m) && LayoutOk(l) && l.Indexed? && l.compactCount == m == l.count && !Full(l) && l.childIndex[m] == m
    ensures Leftover(l, m) && forall b: Byte :: Child(l, b) == if b < m then 10 + b else NULL
  {
    HalfInsertedSame(Lay(m), m);
    HalfInserted(Lay(m), m)
  }

  lemma HalfSame(m: nat)
    requires 12 <= m <= 46
    ensures LayoutOk(HalfInserted(Lay(m), m)) && HalfInserted(Lay(m), m).count == Lay(m).count && HalfLay(m) == HalfInserted(Lay(m), m)
    ensures forall c: Byte :: Child(HalfInserted(Lay(m), m), c) == Child(Lay(m), c)
  {
    HalfInsertedSame(Lay(m), m);
  }

  /** put of key m stores the index; a crash keeps the child from following. */
  ghost function HalfDone(m: nat, v: U64): Tree
    requires 12 <= m <= 46
  {
    WithCell(Upto(m, v), 4, Node(7, SHORT, HalfLay(m)))
  }

  lemma HalfDoneOk(m: nat, v: U64)
    requires 12 <= m <= 46
    ensures PutImage(Upto(m, v), HalfDone(m, v), FIRST + m, v) && Honest(HalfDone(m, v)) && IsNode(HalfDone(m, v), 4)
  {
    hide TreeOk;
    hide Contents;
    hide RootTo;
    hide Fork;
    hide Bytes;
    hide Upto;
    hide Lay;
    hide Kept;
    hide CostsOne;
    hide Honest;
    hide HalfLay;
    var t := Upto(m, v);
    UptoIs(m, v);
    BeforeOk(m, v);
    NodeAt(t, 4);
    WideFits(m, SHORT, [1, 0, 0]);
    HalfSame(m);
    HalfTwin(t.nodes[4], m, t.places[4], false);
    TwinImage(t, 4, Node(7, SHORT, HalfLay(m)), FIRST + m, v);
    CleanDescribed(t);
    KeptKeeps(t, HalfDone(m, v));
    DescribedHonest(HalfDone(m, v));
  }

  /** Memory with the leaf of key m + 1. */
  ghost function WithNew(m: nat, v: U64, w: U64): Tree
    requires 12 <= m <= 46
  {
    WithCell(HalfDone(m, v), 60, Leaf(FIRST + m + 1, w))
  }

  /** put of key m + 1 takes the same slot. */
  ghost function TwoBytes(m: nat, v: U64, w: U64): Tree
    requires 12 <= m <= 46
  {
    var t := WithNew(m, v, w);
    if 4 in t.places && |t.places[4].full| < KEY_LEN then
      WithLeaf(t, 4, Node(7, SHORT, Inserted(HalfLay(m), m + 1, 60)), 60, FIRST + m + 1)
    else t
  }

  lemma WithNewIs(m: nat, v: U64, w: U64)
    requires 12 <= m <= 46
    ensures var t := WithNew(m, v, w); TreeOk(t) && SameContents(HalfDone(m, v), t) && KeptRight(HalfDone(m, v), t) && Honest(t)
    ensures var t := WithNew(m, v, w); 60 !in t.places && 60 in t.nodes && t.nodes[60] == Leaf(FIRST + m + 1, w) && t.places == Upto(m, v).places
    ensures Looks(WithNew(m, v, w), Node(7, SHORT, HalfLay(m)))
  {
    hide TreeOk;
    hide Contents;
    hide RootTo;
    hide Fork;
    hide Bytes;
    hide Upto;
    hide Lay;
    hide Kept;
    hide KeptRight;
    hide CostsOne;
    hide Honest;
    hide HalfLay;
    hide Looks;
    hide HalfDone;
    hide Wide;
    HalfDoneOk(m, v);
    HalfFresh(m, v);
    var t0, t := HalfDone(m, v), WithNew(m, v, w);
    Allocated(t0, 60, Leaf(FIRST + m + 1, w));
    AllocKept(t0, t, 60);
    KeptRightKept(t0, t);
    KeptKeeps(t0, t);
    LooksNext(Upto(m, v), Wide(m, SHORT), Node(7, SHORT, HalfLay(m)), 60, Leaf(FIRST + m + 1, w));
  }

  lemma HalfFresh(m: nat, v: U64)
    requires 12 <= m <= 46
    ensures HalfDone(m, v) == WithCell(Upto(m, v), 4, Node(7, SHORT, HalfLay(m))) && Looks(Upto(m, v), Wide(m, SHORT))
    ensures 60 !in HalfDone(m, v).nodes && 60 !in HalfDone(m, v).places
  {
    hide TreeOk;
    hide Contents;
    hide RootTo;
    hide Fork;
    hide Bytes;
    hide Upto;
    hide Lay;
    hide HalfLay;
    hide Wide;
    hide Looks;
    UptoIs(m, v);
    NotPlaced(Upto(m, v), 60);
  }

  lemma LooksNext(t: Tree, cell: Cell, cell': Cell, x: Addr, leaf: Cell)
    requires Looks(t, cell) && cell'.Node? && x !in t.places && x !in {1, 4, 6}
    ensures Looks(WithCell(WithCell(t, 4, cell'), x, leaf), cell')
  {
    hide RootTo;
    hide Fork;
    var t' := WithCell(WithCell(t, 4, cell'), x, leaf);
    forall n | IsNode(t', n) ensures n == 1 || n == 4 || n == 6 {
      assert n == 4 || IsNode(t, n);
    }
  }

  lemma TwoBytesCollide(m: nat, v: U64, w: U64)
    requires 12 <= m <= 46
    ensures Collides(WithNew(m, v, w), TwoBytes(m, v, w), 4, 60, FIRST + m + 1, w)
  {
    hide TreeOk;
    hide Contents;
    hide RootTo;
    hide Fork;
    hide Bytes;
    hide Upto;
    hide Lay;
    hide Kept;
    hide KeptRight;
    hide Honest;
    hide WithNew;
    hide HalfLay;
    WithNewIs(m, v, w);
    FirstBytes(m + 1);
    var l: Layout := HalfLay(m);
    var c: Byte := m;
    assert Leftover(l, c);
  }

  lemma Astray(m: nat, v: U64, w: U64)
    requires 12 <= m <= 46
    ensures Collides(WithNew(m, v, w), TwoBytes(m, v, w), 4, 60, FIRST + m + 1, w)
    ensures Strays(WithNew(m, v, w), 4, 60, FIRST + m + 1, FIRST + m)
  {
    hide TreeOk;
    hide Contents;
    hide Bytes;
    hide Upto;
    hide Honest;
    hide Lay;
    hide LedTo;
    hide Refuses;
    hide TwoBytes;
    hide WithNew;
    hide HalfLay;
    hide KeptRight;
    TwoBytesCollide(m, v, w);
    WithNewIs(m, v, w);
    FirstBytes(m);
    FirstBytes(m + 1);
    StraysItself(WithNew(m, v, w), 4, 60, FIRST + m + 1, FIRST + m, TwoBytes(m, v, w), w);
  }

  lemma NotBlind(m: nat, v: U64, w: U64)
    requires 12 <= m <= 46
    ensures IsNode(WithNew(m, v, w), 4) && !BlindAt(WithNew(m, v, w), 4)
  {
    hide TreeOk;
    hide Contents;
    hide Bytes;
    hide Upto;
    hide Honest;
    hide RootTo;
    hide Fork;
    hide Lay;
    hide WithNew;
    hide HalfLay;
    hide KeptRight;
    WithNewIs(m, v, w);
    UptoIs(m, v);
    RootFits(6);
    ForkFits(2, NodePrefix(1, [0]), 1, 5, 0, 4, Place([1], [1, 0]));
    var t := WithNew(m, v, w);
    forall n | Passes(t, n, [1, 0, 0]) ensures !Skips(t.nodes[n].prefix, |t.places[n].full|, |t.places[n].path|) {
      assert IsNode(t, n);
    }
  }

  /**
   A tree with a full enough N48 on the last level, clean and quiet; a put that a crash cuts off; another put. Then the lookup of
   the first put's key, which the tree does not hold, finds the value of the second.
   */
  lemma StrayFinds(m: nat, v: U64, w: U64)
    requires 12 <= m <= 46
    ensures TreeOk(Upto(m, v)) && Clean(Upto(m, v)) && Quiet(Upto(m, v)) && FIRST + m !in Contents(Upto(m, v))
    ensures PutImage(Upto(m, v), HalfDone(m, v), FIRST + m, v)
    ensures Collided(HalfDone(m, v), TwoBytes(m, v, w), FIRST + m + 1, w)
    ensures Answer(TwoBytes(m, v, w), FIRST + m) == Some(w)
  {
    hide TreeOk;
    hide Contents;
    hide Bytes;
    hide Upto;
    hide Kept;
    hide CostsOne;
    hide Honest;
    hide Lay;
    hide Answer;
    hide BlindAt;
    hide Collides;
    hide TwoBytes;
    hide HalfDone;
    hide WithNew;
    hide HalfLay;
    hide KeptRight;
    hide Strays;
    BeforeOk(m, v);
    HalfDoneOk(m, v);
    WithNewIs(m, v, w);
    TwoBytesCollide(m, v, w);
    NotBlind(m, v, w);
    LastLevel(m, v, w);
  }

  lemma LastLevel(m: nat, v: U64, w: U64)
    requires 12 <= m <= 46
    requires IsNode(WithNew(m, v, w), 4) && !BlindAt(WithNew(m, v, w), 4)
    ensures Answer(TwoBytes(m, v, w), FIRST + m) == Some(w)
  {
    hide TreeOk;
    hide Contents;
    hide Bytes;
    hide Upto;
    hide Lay;
    hide Answer;
    hide BlindAt;
    hide Collides;
    hide TwoBytes;
    hide WithNew;
    hide HalfLay;
    hide KeptRight;
    hide Honest;
    WithNewIs(m, v, w);
    Astray(m, v, w);
    CollisionAnswer(WithNew(m, v, w), TwoBytes(m, v, w), 4, 60, FIRST + m + 1, w, FIRST + m);
  }
}
