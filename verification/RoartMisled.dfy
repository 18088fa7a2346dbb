/**
 How a put comes to fork in the wrong place: a put cut off between its two stores leaves a prefix that is too long, a removal cut off
 between its two stores leaves one below it that is too short, and a removal joins the two to one of the right length. The keys are
 12345678, 12345679, 12349000, 12390000 and 19000000, byte by byte.
 */
module RoartMisled {
  import opened Bits
  import opened Options
  import opened Addresses
  import opened Prefixes
  import opened RoartKeys
  import opened RoartLayouts
  import opened RoartModel
  import opened RoartPrefixes
  import opened RoartStates
  import opened RoartLookups
  import opened RoartStale

  const KEY_Q: U64 := 0x0102030900000000
  const KEY_R: U64 := 0x0109000000000000

  function Seven(): seq<Byte> {
    [1, 2, 3, 4, 5, 6, 7]
  }

  lemma MoreBytes()
    ensures Bytes(KEY_Q) == [1, 2, 3, 9, 0, 0, 0, 0] && Bytes(KEY_R) == [1, 9, 0, 0, 0, 0, 0, 0]
  {
    AppendByte(0, 0, 0x01, 1);
    AppendByte(0x01, 1, 0x0102, 2);
    AppendByte(0x0102, 2, 0x010203, 3);
    AppendByte(0x010203, 3, 0x01020309, 9);
    AppendByte(0x01020309, 4, 0x0102030900, 0);
    AppendByte(0x0102030900, 5, 0x010203090000, 0);
    AppendByte(0x010203090000, 6, 0x01020309000000, 0);
    AppendByte(0x01020309000000, 7, KEY_Q, 0);
    AppendByte(0x01, 1, 0x0109, 9);
    AppendByte(0x0109, 2, 0x010900, 0);
    AppendByte(0x010900, 3, 0x01090000, 0);
    AppendByte(0x01090000, 4, 0x0109000000, 0);
    AppendByte(0x0109000000, 5, 0x010900000000, 0);
    AppendByte(0x010900000000, 6, 0x01090000000000, 0);
    AppendByte(0x01090000000000, 7, KEY_R, 0);
  }

  const FOUR := NodePrefix(3, [2, 3, 4])
  const TWO := NodePrefix(2, [6, 7])
  const LONG := NodePrefix(2, [2, 3])
  const NONE := NodePrefix(0, [])

  ghost function NodeC(prefix: NodePrefix): Cell {
    Fork(7, prefix, 9, 3, 8, 2)
  }

  /** Puts of A, B and X; prefix is that of the node of A and B, before and after it is cut. */
  ghost function WithX(v: U64, prefix: NodePrefix): Tree {
    Tree(1,
         map[1 := RootTo(6), 2 := Leaf(KEY_A, v), 3 := Leaf(KEY_B, v), 4 := NodeC(prefix),
             5 := Leaf(KEY_X, v), 6 := Fork(4, FOUR, 9, 5, 5, 4)],
         map[1 := Place([], []), 2 := Place(Bytes(KEY_A), Bytes(KEY_A)), 3 := Place(Bytes(KEY_B), Bytes(KEY_B)),
             4 := Place([1, 2, 3, 4, 5], Seven()), 5 := Place([1, 2, 3, 4, 9], Bytes(KEY_X)), 6 := Place([1], [1, 2, 3, 4])])
  }

  lemma WithXLong(v: U64)
    ensures var t := WithX(v, NodePrefix(6, [2, 3, 4, 5])); TreeOk(t) && Contents(t) == map[KEY_A := v, KEY_B := v, KEY_X := v]
  {
    hide TreeOk;
    hide Kid;
    hide Contents;
    hide Fits;
    hide RootTo;
    hide Fork;
    hide Bytes;
    hide WithX;
    TwoKeysOk(v, v);
    KeyBytes();
    var t, cell, full := TwoKeys(v, v), Fork(4, FOUR, 9, 5, 5, 4), Seven();
    Allocated(t, 5, Leaf(KEY_X, v));
    var t1 := WithCell(t, 5, Leaf(KEY_X, v));
    Allocated(t1, 6, cell);
    var t2 := WithCell(t1, 6, cell);
    RootFits(4);
    RootFits(6);
    assert Bytes(KEY_X)[..4] == [1, 2, 3, 4] == full[..4];
    ForkFits(4, FOUR, 9, 5, 5, 4, Place([1], [1, 2, 3, 4]));
    assert CanFork(t2, 1, 1, RootTo(6), 4, 6, 5, KEY_X, v, 4);
    ForkAdded(t2, 1, 1, RootTo(6), 4, 6, 5, KEY_X, v, 4);
    AllAfter(t, t1, KEY_X, v);
    AllAfter(t1, t2, KEY_X, v);
    WithXIs(v);
  }

  lemma WithXIs(v: U64)
    ensures var t := WithCell(WithCell(TwoKeys(v, v), 5, Leaf(KEY_X, v)), 6, Fork(4, FOUR, 9, 5, 5, 4));
      Forked(t, 1, RootTo(6), 4, 6, 5, KEY_X, 4) == WithX(v, NodePrefix(6, [2, 3, 4, 5]))
  {
    hide RootTo;
    hide Fork;
    hide Bytes;
    WithXPlaces(v);
    hide ForkPlaces;
    assert TwoKeys(v, v).nodes[5 := Leaf(KEY_X, v)][6 := Fork(4, FOUR, 9, 5, 5, 4)][1 := RootTo(6)] == WithX(v, NodePrefix(6, [2, 3, 4, 5])).nodes;
  }

  lemma WithXPlaces(v: U64)
    ensures 4 in TwoKeys(v, v).places && ForkPlaces(TwoKeys(v, v).places, 4, 6, 5, KEY_X, 4) == WithX(v, NodePrefix(6, [2, 3, 4, 5])).places
  {
    hide RootTo;
    hide Fork;
    hide Bytes;
    KeyBytes();
    assert Seven()[..5] == [1, 2, 3, 4, 5] && Bytes(KEY_X)[..5] == [1, 2, 3, 4, 9] && Seven()[..4] == [1, 2, 3, 4];
  }

  lemma WithXOk(v: U64)
    ensures TreeOk(WithX(v, TWO)) && Contents(WithX(v, TWO)) == map[KEY_A := v, KEY_B := v, KEY_X := v]
  {
    hide TreeOk;
    hide Kid;
    hide Contents;
    hide Fits;
    hide RootTo;
    hide Fork;
    hide Bytes;
    WithXLong(v);
    var long := NodePrefix(6, [2, 3, 4, 5]);
    var t := WithX(v, long);
    ForkFits(7, long, 9, 3, 8, 2, Place([1, 2, 3, 4, 5], Seven()));
    PrefixSet(t, 4, TWO);
    OtherPrefix(7, long, TWO, 9, 3, 8, 2);
    assert WithCell(t, 4, NodeC(TWO)) == WithX(v, TWO);
  }

  /** And of Q: a node above X's; prefix is that of X's. */
  ghost function WithQ(v: U64, prefix: NodePrefix): Tree {
    Tree(1,
         map[1 := RootTo(8), 2 := Leaf(KEY_A, v), 3 := Leaf(KEY_B, v), 4 := NodeC(TWO),
             5 := Leaf(KEY_X, v), 6 := Fork(4, prefix, 9, 5, 5, 4), 7 := Leaf(KEY_Q, v), 8 := Fork(3, LONG, 9, 7, 4, 6)],
         map[1 := Place([], []), 2 := Place(Bytes(KEY_A), Bytes(KEY_A)), 3 := Place(Bytes(KEY_B), Bytes(KEY_B)),
             4 := Place([1, 2, 3, 4, 5], Seven()), 5 := Place([1, 2, 3, 4, 9], Bytes(KEY_X)), 6 := Place([1, 2, 3, 4], [1, 2, 3, 4]),
             7 := Place([1, 2, 3, 9], Bytes(KEY_Q)), 8 := Place([1], [1, 2, 3])])
  }

  lemma WithQLong(v: U64)
    ensures TreeOk(WithQ(v, FOUR)) && Contents(WithQ(v, FOUR)) == map[KEY_A := v, KEY_B := v, KEY_X := v, KEY_Q := v]
  {
    hide TreeOk;
    hide Kid;
    hide Contents;
    hide Fits;
    hide RootTo;
    hide Fork;
    hide Bytes;
    hide WithQ;
    WithXOk(v);
    MoreBytes();
    var t, cell, full := WithX(v, TWO), Fork(3, LONG, 9, 7, 4, 6), [1, 2, 3, 4];
    Allocated(t, 7, Leaf(KEY_Q, v));
    var t1 := WithCell(t, 7, Leaf(KEY_Q, v));
    Allocated(t1, 8, cell);
    var t2 := WithCell(t1, 8, cell);
    RootFits(6);
    RootFits(8);
    assert Bytes(KEY_Q)[..3] == [1, 2, 3] == full[..3];
    ForkFits(3, LONG, 9, 7, 4, 6, Place([1], [1, 2, 3]));
    assert CanFork(t2, 1, 1, RootTo(8), 6, 8, 7, KEY_Q, v, 3);
    ForkAdded(t2, 1, 1, RootTo(8), 6, 8, 7, KEY_Q, v, 3);
    AllAfter(t, t1, KEY_Q, v);
    AllAfter(t1, t2, KEY_Q, v);
    WithQIs(v);
  }

  lemma WithQIs(v: U64)
    ensures var t := WithCell(WithCell(WithX(v, TWO), 7, Leaf(KEY_Q, v)), 8, Fork(3, LONG, 9, 7, 4, 6));
      Forked(t, 1, RootTo(8), 6, 8, 7, KEY_Q, 3) == WithQ(v, FOUR)
  {
    hide RootTo;
    hide Fork;
    hide NodeC;
    hide Bytes;
    WithQPlaces(v);
    hide ForkPlaces;
    assert WithX(v, TWO).nodes[7 := Leaf(KEY_Q, v)][8 := Fork(3, LONG, 9, 7, 4, 6)][1 := RootTo(8)] == WithQ(v, FOUR).nodes;
  }

  lemma WithQPlaces(v: U64)
    ensures 6 in WithX(v, TWO).places && ForkPlaces(WithX(v, TWO).places, 6, 8, 7, KEY_Q, 3) == WithQ(v, FOUR).places
  {
    hide RootTo;
    hide Fork;
    hide NodeC;
    hide Bytes;
    MoreBytes();
    assert [1, 2, 3, 4][..4] == [1, 2, 3, 4] && Bytes(KEY_Q)[..4] == [1, 2, 3, 9] && [1, 2, 3, 4][..3] == [1, 2, 3];
  }

  lemma WithQOk(v: U64)
    ensures TreeOk(WithQ(v, NONE)) && Contents(WithQ(v, NONE)) == map[KEY_A := v, KEY_B := v, KEY_X := v, KEY_Q := v]
  {
    hide TreeOk;
    hide Kid;
    hide Contents;
    hide Fits;
    hide RootTo;
    hide Fork;
    hide Bytes;
    WithQLong(v);
    var t := WithQ(v, FOUR);
    ForkFits(4, FOUR, 9, 5, 5, 4, Place([1, 2, 3, 4], [1, 2, 3, 4]));
    PrefixSet(t, 6, NONE);
    OtherPrefix(4, FOUR, NONE, 9, 5, 5, 4);
    assert WithCell(t, 6, Fork(4, NONE, 9, 5, 5, 4)) == WithQ(v, NONE);
  }

  // ----- the two crashes -----

  /** put of R links its node above Q's; a crash keeps the prefix of Q's from being cut. */
  ghost function TooLong(v: U64): Tree {
    Tree(1,
         map[1 := RootTo(10), 2 := Leaf(KEY_A, v), 3 := Leaf(KEY_B, v), 4 := NodeC(TWO),
             5 := Leaf(KEY_X, v), 6 := Fork(4, NONE, 9, 5, 5, 4), 7 := Leaf(KEY_Q, v), 8 := Fork(3, LONG, 9, 7, 4, 6),
             9 := Leaf(KEY_R, v), 10 := Fork(1, NONE, 9, 9, 2, 8)],
         map[1 := Place([], []), 2 := Place(Bytes(KEY_A), Bytes(KEY_A)), 3 := Place(Bytes(KEY_B), Bytes(KEY_B)),
             4 := Place([1, 2, 3, 4, 5], Seven()), 5 := Place([1, 2, 3, 4, 9], Bytes(KEY_X)), 6 := Place([1, 2, 3, 4], [1, 2, 3, 4]),
             7 := Place([1, 2, 3, 9], Bytes(KEY_Q)), 8 := Place([1, 2], [1, 2, 3]), 9 := Place([1, 9], Bytes(KEY_R)), 10 := Place([1], [1])])
  }

  lemma TooLongOk(v: U64)
    ensures Updated(WithQ(v, NONE), TooLong(v), KEY_R, v)
    ensures Contents(TooLong(v)) == map[KEY_A := v, KEY_B := v, KEY_X := v, KEY_Q := v, KEY_R := v]
  {
    hide TreeOk;
    hide Kid;
    hide Contents;
    hide Fits;
    hide RootTo;
    hide Fork;
    hide Bytes;
    hide TooLong;
    WithQOk(v);
    MoreBytes();
    var t, cell, full := WithQ(v, NONE), Fork(1, NONE, 9, 9, 2, 8), [1, 2, 3];
    Allocated(t, 9, Leaf(KEY_R, v));
    var t1 := WithCell(t, 9, Leaf(KEY_R, v));
    Allocated(t1, 10, cell);
    var t2 := WithCell(t1, 10, cell);
    RootFits(8);
    RootFits(10);
    assert Bytes(KEY_R)[..1] == [1] == full[..1];
    ForkFits(1, NONE, 9, 9, 2, 8, Place([1], [1]));
    assert CanFork(t2, 1, 1, RootTo(10), 8, 10, 9, KEY_R, v, 1);
    ForkAdded(t2, 1, 1, RootTo(10), 8, 10, 9, KEY_R, v, 1);
    AllAfter(t, t1, KEY_R, v);
    AllAfter(t1, t2, KEY_R, v);
    TooLongIs(v);
  }

  lemma TooLongIs(v: U64)
    ensures var t := WithCell(WithCell(WithQ(v, NONE), 9, Leaf(KEY_R, v)), 10, Fork(1, NONE, 9, 9, 2, 8));
      Forked(t, 1, RootTo(10), 8, 10, 9, KEY_R, 1) == TooLong(v)
  {
    hide RootTo;
    hide Fork;
    hide NodeC;
    hide Bytes;
    TooLongPlaces(v);
    assert WithQ(v, NONE).nodes[9 := Leaf(KEY_R, v)][10 := Fork(1, NONE, 9, 9, 2, 8)][1 := RootTo(10)] == TooLong(v).nodes;
    hide ForkPlaces;
  }

  lemma TooLongPlaces(v: U64)
    ensures 8 in WithQ(v, NONE).places && ForkPlaces(WithQ(v, NONE).places, 8, 10, 9, KEY_R, 1) == TooLong(v).places
  {
    hide RootTo;
    hide Fork;
    hide NodeC;
    hide Bytes;
    MoreBytes();
    assert [1, 2, 3][..2] == [1, 2] && Bytes(KEY_R)[..2] == [1, 9] && [1, 2, 3][..1] == [1];
  }

  /** remove of X swings the pointer past its node; a crash keeps the prefix of the node of A and B from growing. */
  ghost function TooShort(v: U64): Tree {
    Tree(1,
         TooLong(v).nodes[8 := Fork(3, LONG, 9, 7, 4, 4)],
         map[1 := Place([], []), 2 := Place(Bytes(KEY_A), Bytes(KEY_A)), 3 := Place(Bytes(KEY_B), Bytes(KEY_B)),
             4 := Place([1, 2, 3, 4], Seven()), 7 := Place([1, 2, 3, 9], Bytes(KEY_Q)), 8 := Place([1, 2], [1, 2, 3]),
             9 := Place([1, 9], Bytes(KEY_R)), 10 := Place([1], [1])])
  }

  lemma TooShortOk(v: U64)
    ensures Removed(TooLong(v), TooShort(v), KEY_X)
    ensures Contents(TooShort(v)) == map[KEY_A := v, KEY_B := v, KEY_Q := v, KEY_R := v]
  {
    hide TreeOk;
    hide Kid;
    hide Contents;
    hide Fits;
    hide RootTo;
    hide Fork;
    hide Bytes;
    TooLongOk(v);
    CanSwingX(v);
    hide CanMerge;
    MergeRemoved(TooLong(v), 8, 4, Fork(3, LONG, 9, 7, 4, 4), 6, 5, 9, 4, 5, KEY_X);
    SwungX(v);
    hide TooLong;
    hide TooShort;
  }

  lemma CanSwingX(v: U64)
    ensures CanMerge(TooLong(v), 8, 4, Fork(3, LONG, 9, 7, 4, 4), 6, 5, 9, 4, 5, KEY_X)
  {
    hide Kid;
    hide Fits;
    hide RootTo;
    hide Fork;
    hide Bytes;
    ForkFits(3, LONG, 9, 7, 4, 6, Place([1, 2], [1, 2, 3]));
    ForkFits(3, LONG, 9, 7, 4, 4, Place([1, 2], [1, 2, 3]));
    ForkFits(4, NONE, 9, 5, 5, 4, Place([1, 2, 3, 4], [1, 2, 3, 4]));
  }

  lemma SwungX(v: U64)
    ensures {4, 6} <= TooLong(v).places.Keys && Merged(TooLong(v), 8, Fork(3, LONG, 9, 7, 4, 4), 6, 5, 4) == TooShort(v)
  {
    hide RootTo;
    hide Fork;
    hide NodeC;
    hide Bytes;
  }

  /** remove of Q joins the two: five bytes, as many as the node has, but 2346. */
  ghost function WrongJoin(v: U64): Tree {
    Tree(1,
         TooShort(v).nodes[10 := Fork(1, NONE, 9, 9, 2, 4)][4 := NodeC(AddPrefixBefore(TWO, LONG, 4))],
         map[1 := Place([], []), 2 := Place(Bytes(KEY_A), Bytes(KEY_A)), 3 := Place(Bytes(KEY_B), Bytes(KEY_B)),
             4 := Place([1, 2], Seven()), 9 := Place([1, 9], Bytes(KEY_R)), 10 := Place([1], [1])])
  }

  lemma WrongJoinOk(v: U64)
    ensures Removed(TooShort(v), WrongJoin(v), KEY_Q)
    ensures Contents(WrongJoin(v)) == map[KEY_A := v, KEY_B := v, KEY_R := v]
  {
    hide TreeOk;
    hide Kid;
    hide Contents;
    hide Fits;
    hide RootTo;
    hide Fork;
    hide Bytes;
    TooShortOk(v);
    CanSwingQ(v);
    hide CanMerge;
    MergeRemoved(TooShort(v), 10, 2, Fork(1, NONE, 9, 9, 2, 4), 8, 7, 9, 4, 4, KEY_Q);
    SwungQ(v);
    var t1, prefix := Merged(TooShort(v), 10, Fork(1, NONE, 9, 9, 2, 4), 8, 7, 4), AddPrefixBefore(TWO, LONG, 4);
    hide TooShort;
    hide WrongJoin;
    hide Merged;
    hide AddPrefixBefore;
    ForkFits(7, TWO, 9, 3, 8, 2, Place([1, 2], Seven()));
    PrefixSet(t1, 4, prefix);
    OtherPrefix(7, TWO, prefix, 9, 3, 8, 2);
    AllAfterToo(TooShort(v), t1, KEY_Q, 0);
  }

  lemma CanSwingQ(v: U64)
    ensures CanMerge(TooShort(v), 10, 2, Fork(1, NONE, 9, 9, 2, 4), 8, 7, 9, 4, 4, KEY_Q)
  {
    hide Kid;
    hide Fits;
    hide RootTo;
    hide Fork;
    hide Bytes;
    ForkFits(1, NONE, 9, 9, 2, 8, Place([1], [1]));
    ForkFits(1, NONE, 9, 9, 2, 4, Place([1], [1]));
    ForkFits(3, LONG, 9, 7, 4, 4, Place([1, 2], [1, 2, 3]));
  }

  lemma SwungQ(v: U64)
    ensures {4, 8} <= TooShort(v).places.Keys
    ensures var t1 := Merged(TooShort(v), 10, Fork(1, NONE, 9, 9, 2, 4), 8, 7, 4);
      IsNode(t1, 4) && t1.nodes[4] == NodeC(TWO) && WithCell(t1, 4, NodeC(AddPrefixBefore(TWO, LONG, 4))) == WrongJoin(v)
  {
    hide RootTo;
    hide Fork;
    hide Bytes;
    hide AddPrefixBefore;
    ForkFits(7, TWO, 9, 3, 8, 2, Place([1, 2], Seven()));
  }

  // ----- what the operations promise of these steps -----

  lemma BytesOf()
    ensures PrefixFrom(Seven(), 5) == TWO && PrefixFrom([1, 2, 3, 4], 4) == NONE && PrefixFrom([1, 2, 3], 1) == LONG
    ensures PrefixFrom([1], 1) == NONE && PrefixFrom([], 0) == NONE
  {
    assert Seven()[5..] == [6, 7] && Seven()[5..][..2] == [6, 7];
    assert [1, 2, 3][1..] == [2, 3] && [1, 2, 3][1..][..2] == [2, 3];
  }

  lemma WithQClean(v: U64)
    ensures Clean(WithQ(v, NONE)) && Quiet(WithQ(v, NONE))
  {
    hide Fork;
    hide Bytes;
    hide Settled;
    hide PrefixFrom;
    hide RootTo;
    RootFits(8);
    ForkFits(7, TWO, 9, 3, 8, 2, Place([1, 2, 3, 4, 5], Seven()));
    ForkFits(4, NONE, 9, 5, 5, 4, Place([1, 2, 3, 4], [1, 2, 3, 4]));
    ForkFits(3, LONG, 9, 7, 4, 6, Place([1], [1, 2, 3]));
    BytesOf();
  }

  lemma TooLongKept(v: U64)
    ensures Kept(WithQ(v, NONE), TooLong(v)) && Quiet(TooLong(v))
  {
    hide Fork;
    hide Bytes;
    hide Settled;
    hide PrefixFrom;
    hide RootTo;
    RootFits(10);
    ForkFits(7, TWO, 9, 3, 8, 2, Place([1, 2, 3, 4, 5], Seven()));
    ForkFits(4, NONE, 9, 5, 5, 4, Place([1, 2, 3, 4], [1, 2, 3, 4]));
    ForkFits(3, LONG, 9, 7, 4, 6, Place([1, 2], [1, 2, 3]));
    ForkFits(1, NONE, 9, 9, 2, 8, Place([1], [1]));
    BytesOf();
  }

  lemma TooShortKept(v: U64)
    ensures Described(TooShort(v)) && Quiet(TooShort(v))
  {
    hide Fork;
    hide Bytes;
    hide Describes;
    hide Settled;
    hide RootTo;
    RootFits(10);
    ForkFits(7, TWO, 9, 3, 8, 2, Place([1, 2, 3, 4], Seven()));
    ForkFits(3, LONG, 9, 7, 4, 4, Place([1, 2], [1, 2, 3]));
    ForkFits(1, NONE, 9, 9, 2, 8, Place([1], [1]));
    TooShortDescribes();
  }

  lemma TooShortDescribes()
    ensures Describes(TWO, Seven()) && Describes(LONG, [1, 2, 3]) && Describes(NONE, [1]) && Describes(NONE, [])
  {
    hide PrefixFrom;
    BytesOf();
  }

  /** Two crashes and a removal after them leave a prefix of the right length that is wrong. */
  lemma WrongJoinReached(v: U64)
    ensures TreeOk(WithQ(v, NONE)) && Clean(WithQ(v, NONE)) && Quiet(WithQ(v, NONE))
    ensures PutImage(WithQ(v, NONE), TooLong(v), KEY_R, v)
    ensures RemoveImage(TooLong(v), TooShort(v), KEY_X) && Honest(TooShort(v))
    ensures Removed(TooShort(v), WrongJoin(v), KEY_Q)
  {
    hide TreeOk;
    hide Contents;
    hide Clean;
    hide Quiet;
    hide Kept;
    hide Described;
    hide Honest;
    hide WithQ;
    hide TooLong;
    hide TooShort;
    hide WrongJoin;
    WithQOk(v);
    WithQClean(v);
    TooLongOk(v);
    TooLongKept(v);
    TooShortOk(v);
    TooShortKept(v);
    DescribedHonest(TooShort(v));
    WrongJoinOk(v);
  }

  /** There put does not see that the prefix is wrong, and leaves it for a present key at a byte that is not the node's. */
  lemma ScanLeaves(v: U64)
    ensures TreeOk(WrongJoin(v)) && KEY_A in Contents(WrongJoin(v)) && IsNode(WrongJoin(v), 4) && Prefix(WrongJoin(v).places[4].full, Bytes(KEY_A))
    ensures RightLength(WrongJoin(v), 4) && PrefixShaped(WrongJoin(v).nodes[4].prefix) && !RepairableOn(WrongJoin(v), KEY_A)
    ensures WrongJoin(v).places[4] == Place([1, 2], Seven()) && SeenAt(WrongJoin(v).nodes[4].prefix, Place([1, 2], Seven()), 2) == 2 != Bytes(KEY_A)[2]
    ensures Turned(WrongJoin(v), KEY_A) && Turned(WrongJoin(v), KEY_B)
  {
    hide TreeOk;
    hide Contents;
    hide Bytes;
    hide Fork;
    hide Right;
    hide TurnsAway;
    hide SeenAt;
    hide AddPrefixBefore;
    WrongJoinOk(v);
    KeyBytes();
    WrongBytes();
    ForkFits(7, NodePrefix(5, [2, 3, 4, 6]), 9, 3, 8, 2, Place([1, 2], Seven()));
    assert Bytes(KEY_A)[..7] == Seven() == Bytes(KEY_B)[..7] && Bytes(KEY_A)[..2] == [1, 2];
    assert TurnsAt(WrongJoin(v), KEY_A, 4) && TurnsAt(WrongJoin(v), KEY_B, 4);
    assert RightLength(WrongJoin(v), 4) && !PrefixRight(WrongJoin(v), 4);
  }

  lemma WrongBytes()
    ensures AddPrefixBefore(TWO, LONG, 4) == NodePrefix(5, [2, 3, 4, 6])
    ensures var p, place := NodePrefix(5, [2, 3, 4, 6]), Place([1, 2], Seven()); TurnsAway(p, place) && !Right(p, place) && SeenAt(p, place, 2) == 2
  {
    var p, place := NodePrefix(5, [2, 3, 4, 6]), Place([1, 2], Seven());
    ByteTurns(p, place, 0);
    RightLengthExactly(p, place);
  }

  /** What put of A stores there: a fork at that byte, with another leaf for A. */
  ghost function WrongFork(v: U64, w: U64): map<Addr, Cell> {
    WrongJoin(v).nodes[10 := Fork(1, NONE, 9, 9, 2, 12)][11 := Leaf(KEY_A, w)][12 := Fork(2, NONE, 3, 11, 2, 4)][4 := NodeC(NodePrefix(4, [4, 5, 6, 7]))]
  }

  lemma PlainStep(nodes: map<Addr, Cell>, key: U64, n: Addr, b: Byte, x: Addr)
    requires n in nodes && nodes[n].Node? && nodes[n].level < KEY_LEN - 1 && nodes[n].prefix == NONE && LayoutOk(nodes[n].layout)
    requires b == Bytes(key)[nodes[n].level] && Kid(nodes[n], b) == x != NULL && x in nodes
    ensures AnswerFrom(nodes, key, n, nodes[n].level, false) ==
      if nodes[x].Node? then AnswerFrom(nodes, key, x, nodes[n].level + 1, false)
      else if nodes[x].key != key then None else Some(nodes[x].value)
  {
    hide Bytes;
    hide Shaped;
  }

  lemma WrongWay(nodes: map<Addr, Cell>, w: U64)
    requires {1, 10, 12, 11} <= nodes.Keys && nodes[1] == RootTo(10) && nodes[10] == Fork(1, NONE, 9, 9, 2, 12)
    requires nodes[12] == Fork(2, NONE, 3, 11, 2, 4) && nodes[11] == Leaf(KEY_A, w)
    ensures AnswerFrom(nodes, KEY_A, 1, 0, false) == Some(w) && AnswerFrom(nodes, KEY_B, 1, 0, false) == None
  {
    hide Bytes;
    hide Fork;
    hide RootTo;
    hide AnswerFrom;
    hide LayoutOk;
    KeyBytes();
    RootFits(10);
    ForkFits(1, NONE, 9, 9, 2, 12, Place([1], [1]));
    ForkFits(2, NONE, 3, 11, 2, 4, Place([1, 2], [1, 2]));
    PlainStep(nodes, KEY_A, 1, 1, 10);
    PlainStep(nodes, KEY_A, 10, 2, 12);
    PlainStep(nodes, KEY_A, 12, 3, 11);
    PlainStep(nodes, KEY_B, 1, 1, 10);
    PlainStep(nodes, KEY_B, 10, 2, 12);
    PlainStep(nodes, KEY_B, 12, 3, 11);
  }

  /** Then A has two leaves, and no lookup finds the key next to it. */
  lemma PutTwice(v: U64, w: U64)
    ensures AnswerFrom(WrongFork(v, w), KEY_A, 1, 0, false) == Some(w) && AnswerFrom(WrongFork(v, w), KEY_B, 1, 0, false) == None
    ensures TreeOk(WrongJoin(v)) && KEY_A in Contents(WrongJoin(v)) && KEY_B in Contents(WrongJoin(v))
    ensures {2, 3, 11} <= WrongFork(v, w).Keys
    ensures WrongFork(v, w)[11] == Leaf(KEY_A, w) && WrongFork(v, w)[2] == Leaf(KEY_A, v) && WrongFork(v, w)[3] == Leaf(KEY_B, v)
  {
    hide TreeOk;
    hide Contents;
    hide Bytes;
    hide Fork;
    hide RootTo;
    hide AnswerFrom;
    WrongJoinOk(v);
    WrongWay(WrongFork(v, w), w);
  }
}
