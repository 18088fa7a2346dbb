/**
 An insertion into an N48 in which a crash left another byte's index for the next slot: afterwards two bytes lead to one
 child. Which lookups are still right, and what the next put of the other byte does.
 */
module RoartCollisions {
  import opened Bits
  import opened Options
  import opened Addresses
  import opened Prefixes
  import opened RoartKeys
  import opened RoartLayouts
  import opened RoartModel
  import opened RoartPrefixes
  import opened RoartStates
  import opened RoartLookups

  /** t' is t after the insertion of the leaf x in place into node n, whose next slot another byte has an index for. */
  ghost predicate Collides(t: Tree, t': Tree, n: Addr, x: Addr, key: U64, value: U64) {
    && TreeOk(t) && Blocked(t, key, n) && !Full(t.nodes[n].layout)
    && x != NULL && x !in t.places && x in t.nodes && t.nodes[x] == Leaf(key, value)
    && t' == WithLeaf(t, n, Node(t.nodes[n].level, t.nodes[n].prefix, Inserted(t.nodes[n].layout, KeyByte(t, n, key), x)), x, key)
  }

  function KeyByte(t: Tree, n: Addr, key: U64): Byte
    requires n in t.places && |t.places[n].full| < KEY_LEN
  {
    Bytes(key)[|t.places[n].full|]
  }

  /** What put leaves in such a case, after the repairs on its way. */
  ghost predicate Collided(t: Tree, t': Tree, key: U64, value: U64) {
    exists t1, n, x :: SameContents(t, t1) && KeptRight(t, t1) && Collides(t1, t', n, x, key, value)
  }

  /** A node's arrays without the indices that are left over. */
  function Unleft(l: Layout): Layout
    requires Shaped(l)
  {
    match l
    case Indexed(childIndex, children, compactCount, count) =>
      Indexed(seq(256, c requires 0 <= c < 256 => if childIndex[c] == compactCount then EMPTY_MARKER else childIndex[c]), children, compactCount, count)
    case _ => l
  }

  lemma UnleftOk(l: Layout)
    requires LayoutOk(l)
    ensures LayoutOk(Unleft(l)) && Sealed(Unleft(l)) && Capacity(Unleft(l)) == Capacity(l) && Unleft(l).count == l.count && (Full(Unleft(l)) <==> Full(l))
    ensures forall c: Byte :: Child(Unleft(l), c) == Child(l, c)
  {
    UnleftShaped(l);
    assert Live(Unleft(l)) == Live(l);
  }

  lemma UnleftShaped(l: Layout)
    requires LayoutOk(l)
    ensures Shaped(Unleft(l)) && Unshared(Unleft(l)) && Sealed(Unleft(l))
    ensures forall c: Byte :: Child(Unleft(l), c) == Child(l, c)
  {
    if l.Indexed? {
      var l' := Unleft(l);
      forall i | 0 <= i < 48 && l'.children[i] != NULL ensures i in l'.childIndex {
        var c :| 0 <= c < 256 && l.childIndex[c] == i;
        assert l'.childIndex[c] == i;
      }
      forall c: Byte ensures !Leftover(l', c) && Child(l', c) == Child(l, c) {
      }
    }
  }

  /** The tree that the insertion would have made without them. */
  ghost function Cleared(t: Tree, n: Addr, x: Addr, key: U64): Tree
    requires n in t.places && n in t.nodes && t.nodes[n].Node? && Shaped(t.nodes[n].layout) && |t.places[n].full| < KEY_LEN
  {
    var cell := t.nodes[n];
    var l := Unleft(cell.layout);
    if Shaped(l) && !Full(l) then
      WithLeaf(WithCell(t, n, Node(cell.level, cell.prefix, l)), n, Node(cell.level, cell.prefix, Inserted(l, KeyByte(t, n, key), x)), x, key)
    else t
  }

  lemma ClearedOk(t: Tree, t': Tree, n: Addr, x: Addr, key: U64, value: U64)
    requires Collides(t, t', n, x, key, value)
    ensures Updated(t, Cleared(t, n, x, key), key, value) && KeptRight(t, Cleared(t, n, x, key))
    ensures IsNode(Cleared(t, n, x, key), n) && IsNode(t', n)
    ensures Cleared(t, n, x, key).places == t'.places && Cleared(t, n, x, key).root == t'.root
    ensures t'.nodes == Cleared(t, n, x, key).nodes[n := t'.nodes[n]]
    ensures t'.places[n] == t.places[n] && x in t'.nodes && t'.nodes[x] == Leaf(key, value) && x != n
  {
    hide TreeOk;
    hide Contents;
    hide Bytes;
    hide PrefixShaped;
    hide Shaped;
    var cell, c := t.nodes[n], KeyByte(t, n, key);
    NodeAt(t, n);
    UnleftOk(cell.layout);
    InsertedOk(Unleft(cell.layout), c, x);
    var cell0 := Node(cell.level, cell.prefix, Unleft(cell.layout));
    UnleftTwin(cell, cell0, t.places[n], n == t.root);
    Reshaped(t, n, cell0);
    var t0 := WithCell(t, n, cell0);
    var l := Inserted(Unleft(cell.layout), c, x);
    LayoutKept(cell0, l, c, x, t.places[n], n == t.root);
    hide Fits;
    hide Kid;
    hide LayoutOk;
    var cell' := Node(cell.level, cell.prefix, l);
    KidOfTwin(cell, cell0, c);
    assert CanAdd(t0, n, cell', x, key, value);
    LeafAdded(t0, n, cell', x, key, value);
    AllAfter(t, t0, key, value);
    ClearedKept(t, Cleared(t, n, x, key), n, x);
  }

  lemma UnleftTwin(cell: Cell, cell0: Cell, p: Place, isRoot: bool)
    requires cell.Node? && Fits(cell, p, isRoot) && LayoutOk(cell.layout) && LayoutOk(Unleft(cell.layout))
    requires Unleft(cell.layout).count == cell.layout.count && Capacity(Unleft(cell.layout)) == Capacity(cell.layout)
    requires forall c: Byte :: Child(Unleft(cell.layout), c) == Child(cell.layout, c)
    requires cell0 == Node(cell.level, cell.prefix, Unleft(cell.layout))
    ensures Twin(cell, cell0) && Fits(cell0, p, isRoot)
  {
    hide Bytes;
    hide PrefixShaped;
    hide Unleft;
    KindOfCapacity(cell.layout, Unleft(cell.layout));
  }

  lemma KidOfTwin(cell: Cell, cell0: Cell, c: Byte)
    requires Twin(cell, cell0)
    ensures Kid(cell0, c) == Kid(cell, c)
  {
  }

  lemma ClearedKept(t: Tree, t2: Tree, n: Addr, x: Addr)
    requires TreeOk(t) && t2.root == t.root && IsNode(t, n) && n in t2.nodes && t2.nodes[n].Node? && t2.nodes[n].prefix == t.nodes[n].prefix
    requires x in t2.nodes && t2.nodes[x].Leaf? && x !in t.places && n != x
    requires forall a | a in t2.places && a != x :: a in t.places && t2.places[a] == t.places[a]
    requires forall a | a in t.nodes && a !in {n, x} :: a in t2.nodes && t2.nodes[a] == t.nodes[a]
    ensures KeptRight(t, t2)
  {
    hide TreeOk;
    hide Right;
    forall a | IsNode(t2, a) ensures Carries(t, t2.places[a], t2.nodes[a].prefix) {
      InNodes(t, a);
      assert CarriesAt(t, a, t2.places[a], t2.nodes[a].prefix);
    }
  }

  /** The children of the node afterwards. */
  lemma CollidedKids(t: Tree, t': Tree, n: Addr, x: Addr, key: U64, value: U64, c: Byte)
    requires Collides(t, t', n, x, key, value)
    ensures var l, l', l2 := t.nodes[n].layout, t'.nodes[n].layout, Cleared(t, n, x, key).nodes[n].layout;
      && Shaped(l) && Shaped(l') && Shaped(l2) && Child(l2, c) == (if c == KeyByte(t, n, key) then x else Child(l, c))
      && Child(l', c) == if Leftover(l, c) then x else Child(l2, c)
    ensures t'.nodes[n].level == Cleared(t, n, x, key).nodes[n].level == t.nodes[n].level
    ensures t'.nodes[n].prefix == Cleared(t, n, x, key).nodes[n].prefix == t.nodes[n].prefix
    ensures Leftover(t.nodes[n].layout, c) ==> Child(t.nodes[n].layout, c) == NULL
  {
    hide TreeOk;
    hide Bytes;
    var l, b := t.nodes[n].layout, KeyByte(t, n, key);
    UnleftOk(l);
    InsertedKids(l, b, x);
    InsertedKids(Unleft(l), b, x);
  }

  // ----- lookups afterwards -----

  /** Bytes are skipped on the way to a node, or in it: a leaf below it is compared with the key. */
  ghost predicate BlindAt(t: Tree, n: Addr)
    requires IsNode(t, n)
  {
    Blind(t, t.places[n].path) || Skips(t.nodes[n].prefix, |t.places[n].full|, |t.places[n].path|)
  }

  lemma SameBlind(t: Tree, t2: Tree, n: Addr, x: Addr)
    requires TreeOk(t) && IsNode(t, n) && IsNode(t2, n) && t2.places[n] == t.places[n] && t2.nodes[n].prefix == t.nodes[n].prefix
    requires x !in t.places && x in t2.nodes && t2.nodes[x].Leaf?
    requires forall a | a in t.places :: a in t2.places && t2.places[a] == t.places[a]
    requires forall a | a in t2.places && a != x :: a in t.places
    requires forall a | a in t.nodes && a !in {n, x} :: a in t2.nodes && t2.nodes[a] == t.nodes[a]
    ensures BlindAt(t2, n) <==> BlindAt(t, n)
    ensures Blind(t2, t.places[n].path) <==> Blind(t, t.places[n].path)
  {
    hide TreeOk;
    hide Bytes;
    hide Skips;
    NodeAt(t, n);
    var path := t.places[n].path;
    forall m ensures Passes(t2, m, path) <==> Passes(t, m, path)
      ensures Passes(t, m, path) ==> t2.nodes[m] == t.nodes[m] && t2.places[m] == t.places[m]
    {
      if m in t.places { InNodes(t, m); }
    }
  }

  /** The lookup of a key comes to the node with a byte whose index was left over. */
  ghost predicate Strays(t: Tree, n: Addr, x: Addr, key: U64, k: U64)
    requires Blocked(t, key, n)
  {
    && LedTo(Cleared(t, n, x, key), k, t.places[n].path)
    && |t.places[n].path| <= |t.places[n].full|
    && !Refuses(t.nodes[n].prefix, |t.places[n].full|, Bytes(k), |t.places[n].path|)
    && Leftover(t.nodes[n].layout, Bytes(k)[|t.places[n].full|]) && Bytes(k)[|t.places[n].full|] != KeyByte(t, n, key)
  }

  /** Every lookup but such ones answers as if nothing had been left over; those find the new leaf. */
  lemma CollisionAnswer(t: Tree, t': Tree, n: Addr, x: Addr, key: U64, value: U64, k: U64)
    requires Collides(t, t', n, x, key, value)
    ensures !Strays(t, n, x, key, k) ==> Answer(t', k) == Answer(Cleared(t, n, x, key), k)
    ensures Strays(t, n, x, key, k) ==> Answer(Cleared(t, n, x, key), k) == None && k != key
    ensures Strays(t, n, x, key, k) ==> Answer(t', k) == if |t.places[n].full| < KEY_LEN - 1 || BlindAt(t, n) then None else Some(value)
  {
    hide TreeOk;
    hide Contents;
    hide Bytes;
    hide Refuses;
    hide Skips;
    hide LedTo;
    hide Blind;
    hide KeptRight;
    var t2 := Cleared(t, n, x, key);
    ClearedOk(t, t', n, x, key, value);
    hide Cleared;
    NodeAt(t2, n);
    NodeAt(t, n);
    SameBlind(t, t2, n, x);
    if LedTo(t2, k, t.places[n].path) {
      Reach(t2, t2.nodes, k, n);
      NotAboveItself(t2, t'.nodes, n);
      Reach(t2, t'.nodes, k, n);
      CollidedKids(t, t', n, x, key, value, Bytes(k)[|t.places[n].full|]);
      StepInto(t, t2, t', n, x, key, value, k, Blind(t, t.places[n].path));
    } else {
      LedRoot(t2, k);
      RootBlind(t2);
      Root(t2);
      NotLed(t2, t'.nodes, k, n, t2.root, false);
    }
  }

  lemma NotAboveItself(t: Tree, nodes: map<Addr, Cell>, n: Addr)
    requires TreeOk(t) && IsNode(t, n) && n in nodes && forall a | a in t.nodes && a != n :: a in nodes && nodes[a] == t.nodes[a]
    ensures SameAbove(t, nodes, t.places[n].path)
  {
    hide TreeOk;
    NodeAt(t, n);
  }

  /** The step of a lookup in the node. */
  lemma StepInto(t: Tree, t2: Tree, t': Tree, n: Addr, x: Addr, key: U64, value: U64, k: U64, optimistic: bool)
    requires IsNode(t, n) && IsNode(t2, n) && IsNode(t', n) && Blocked(t, key, n) && TreeOk(t) && TreeOk(t2) && t2.places[n] == t.places[n]
    requires t'.nodes == t2.nodes[n := t'.nodes[n]] && x in t'.nodes && t'.nodes[x] == Leaf(key, value) && x != n && x != NULL
    requires t'.nodes[n].level == t2.nodes[n].level == t.nodes[n].level && t'.nodes[n].prefix == t2.nodes[n].prefix == t.nodes[n].prefix
    requires Shaped(t'.nodes[n].layout) && Shaped(t2.nodes[n].layout)
    requires var c := Bytes(k)[|t.places[n].full|]; Leftover(t.nodes[n].layout, c) ==> Child(t.nodes[n].layout, c) == NULL
    requires var c := Bytes(k)[|t.places[n].full|];
      && Child(t2.nodes[n].layout, c) == (if c == KeyByte(t, n, key) then x else Child(t.nodes[n].layout, c))
      && Child(t'.nodes[n].layout, c) == if Leftover(t.nodes[n].layout, c) then x else Child(t2.nodes[n].layout, c)
    ensures var level, refused := |t.places[n].path|, Refuses(t.nodes[n].prefix, |t.places[n].full|, Bytes(k), |t.places[n].path|);
      var c := Bytes(k)[|t.places[n].full|];
      if !refused && Leftover(t.nodes[n].layout, c) && c != KeyByte(t, n, key) then
        && k != key && AnswerFrom(t2.nodes, k, n, level, optimistic) == None
        && AnswerFrom(t'.nodes, k, n, level, optimistic) ==
          if |t.places[n].full| < KEY_LEN - 1 || optimistic || Skips(t.nodes[n].prefix, |t.places[n].full|, level) then None else Some(value)
      else AnswerFrom(t'.nodes, k, n, level, optimistic) == AnswerFrom(t2.nodes, k, n, level, optimistic)
  {
    hide TreeOk;
    hide Bytes;
    hide Refuses;
    hide Skips;
    NodeAt(t, n);
    NodeAt(t2, n);
    hide Shaped;
    hide Leftover;
    var c := Bytes(k)[|t.places[n].full|];
    if Child(t2.nodes[n].layout, c) != NULL { KidPlaced(t2, n, c); BelowN(t2, t', n, c, k, optimistic || Skips(t.nodes[n].prefix, |t.places[n].full|, |t.places[n].path|)); }
  }

  /** Below the node nothing is different. */
  lemma BelowN(t2: Tree, t': Tree, n: Addr, c: Byte, k: U64, optimistic: bool)
    requires TreeOk(t2) && IsNode(t2, n) && n in t'.nodes && t'.nodes == t2.nodes[n := t'.nodes[n]] && IsParent(t2, n, c, Kid(t2.nodes[n], c))
    ensures var s := Kid(t2.nodes[n], c); s != n && s in t2.nodes && s in t'.nodes && t'.nodes[s] == t2.nodes[s] && s in t2.places
    ensures var s := Kid(t2.nodes[n], c); |t2.places[s].path| == |t2.places[n].full| + 1
    ensures var s, level := Kid(t2.nodes[n], c), |t2.places[n].full| + 1;
      t2.nodes[s].Node? ==> AnswerFrom(t'.nodes, k, s, level, optimistic) == AnswerFrom(t2.nodes, k, s, level, optimistic)
  {
    hide TreeOk;
    hide Kid;
    hide Bytes;
    var s := Kid(t2.nodes[n], c);
    Link(t2, n, c, s);
    InNodes(t2, s);
    if t2.nodes[s].Node? { Deeper(t2, t'.nodes, n, s, k, optimistic); }
  }

  lemma {:induction false} Deeper(t: Tree, nodes: map<Addr, Cell>, n: Addr, s: Addr, k: U64, optimistic: bool)
    requires TreeOk(t) && IsNode(t, n) && IsNode(t, s) && |t.places[s].path| > |t.places[n].path|
    requires n in nodes && forall a | a in t.nodes && a != n :: a in nodes && nodes[a] == t.nodes[a]
    ensures AnswerFrom(nodes, k, s, |t.places[s].path|, optimistic) == AnswerFrom(t.nodes, k, s, |t.places[s].path|, optimistic)
    decreases KEY_LEN - |t.places[s].path|
  {
    hide TreeOk;
    hide Bytes;
    hide Refuses;
    hide Skips;
    NodeAt(t, s);
    hide Shaped;
    var b := Bytes(k)[|t.places[s].full|];
    var d := Kid(t.nodes[s], b);
    if d != NULL {
      KidPlaced(t, s, b);
      Link(t, s, b, d);
      InNodes(t, d);
      if t.nodes[d].Node? {
        Deeper(t, nodes, n, d, k, optimistic || Skips(t.nodes[s].prefix, |t.places[s].full|, |t.places[s].path|));
      }
    }
  }

  // ----- when they are right -----

  lemma LastByte(key: U64, c: Byte) returns (k: U64)
    ensures Bytes(k)[..KEY_LEN - 1] == Bytes(key)[..KEY_LEN - 1] && Bytes(k)[KEY_LEN - 1] == c
  {
    k := key / 256 * 256 + c;
    assert k / 256 == key / 256 && k % 256 == c;
    assert Bytes(k) == LowBytes(key / 256, KEY_LEN - 1) + [c];
    assert Bytes(key) == LowBytes(key / 256, KEY_LEN - 1) + [key % 256];
  }

  /** A key with a node's bytes comes to the node, if no node turns keys away. */
  lemma HonestLed(t: Tree, k: U64, n: Addr)
    requires TreeOk(t) && Honest(t) && IsNode(t, n) && Prefix(t.places[n].full, Bytes(k))
    ensures LedTo(t, k, t.places[n].path) && |t.places[n].path| <= |t.places[n].full| < KEY_LEN
    ensures !Refuses(t.nodes[n].prefix, |t.places[n].full|, Bytes(k), |t.places[n].path|)
  {
    hide TreeOk;
    hide Bytes;
    hide LayoutOk;
    hide StoredMismatch;
    hide TurnsAway;
    NodeAt(t, n);
    var path := t.places[n].path;
    PrefixTrans(path, t.places[n].full, Bytes(k));
    if t.nodes[n].prefix.prefixCount + |path| >= |t.places[n].full| { BelowMatches(t.nodes[n].prefix, t.places[n], Bytes(k)); }
    forall m | Passes(t, m, path) ensures Takes(t, m, k, path) {
      PrefixTrans(t.places[m].full, path, Bytes(k));
      PrefixAt(path, Bytes(k));
      if t.nodes[m].prefix.prefixCount + |t.places[m].path| >= |t.places[m].full| { BelowMatches(t.nodes[m].prefix, t.places[m], Bytes(k)); }
    }
  }

  /**
   After such an insertion all lookups are right if and only if a leaf below the node is compared with the key: the node is not
   on the last level, or bytes were skipped.
   */
  lemma CollisionExactly(t: Tree, t': Tree, n: Addr, x: Addr, key: U64, value: U64)
    requires Collides(t, t', n, x, key, value) && Honest(t)
    ensures (forall k: U64 :: Answer(t', k) == Lookup(Contents(t)[key := value], k)) <==> |t.places[n].full| < KEY_LEN - 1 || BlindAt(t, n)
  {
    hide TreeOk;
    hide Contents;
    hide Bytes;
    hide Answer;
    hide BlindAt;
    hide KeptRight;
    var t2, m := Cleared(t, n, x, key), Contents(t)[key := value];
    ClearedOk(t, t', n, x, key, value);
    KeptRightKept(t, t2);
    KeptKeeps(t, t2);
    hide Cleared;
    hide Honest;
    forall k: U64 ensures Answer(t', k) == Lookup(m, k) || (Strays(t, n, x, key, k) && !(|t.places[n].full| < KEY_LEN - 1 || BlindAt(t, n))) {
      CollisionAnswer(t, t', n, x, key, value, k);
      HonestAnswers(t2, k);
    }
    if !(|t.places[n].full| < KEY_LEN - 1 || BlindAt(t, n)) {
      var k := Stray(t, t', n, x, key, value);
      CollisionAnswer(t, t', n, x, key, value, k);
      HonestAnswers(t2, k);
      assert Answer(t', k) != Lookup(m, k);
    }
  }

  /** On the last level there is a key that strays. */
  lemma Stray(t: Tree, t': Tree, n: Addr, x: Addr, key: U64, value: U64) returns (k: U64)
    requires Collides(t, t', n, x, key, value) && Honest(t) && |t.places[n].full| == KEY_LEN - 1
    ensures Strays(t, n, x, key, k)
  {
    hide TreeOk;
    hide Bytes;
    hide Contents;
    hide Refuses;
    var t2 := Cleared(t, n, x, key);
    ClearedOk(t, t', n, x, key, value);
    KeptRightKept(t, t2);
    KeptKeeps(t, t2);
    var c: Byte :| c != KeyByte(t, n, key) && Leftover(t.nodes[n].layout, c);
    k := LastByte(key, c);
    assert Prefix(t.places[n].full, Bytes(k));
    HonestLed(t2, k, n);
    CollidedKids(t, t', n, x, key, value, c);
  }

  // ----- the next put of the other byte -----

  /**
   A later put of a key with the other byte, and the same bytes behind, finds a leaf with which it shares all bytes behind the
   node, takes it for its own and stores its value there: then the first key is found with the value of the second.
   */
  lemma DuplicateOverwrites(t: Tree, t': Tree, n: Addr, x: Addr, key: U64, value: U64, k: U64, value': U64)
    requires Collides(t, t', n, x, key, value) && Honest(t) && Prefix(t.places[n].full, Bytes(k)) && k != key
    requires Leftover(t.nodes[n].layout, KeyByte(t, n, k)) && forall j | |t.places[n].full| < j < KEY_LEN :: Bytes(k)[j] == Bytes(key)[j]
    ensures IsNode(t', n) && Shaped(t'.nodes[n].layout) && Child(t'.nodes[n].layout, KeyByte(t, n, k)) == x
    ensures x in t'.nodes && t'.nodes[x] == Leaf(key, value)
    ensures Answer(WithCell(t', x, Leaf(key, value')), key) == Some(value')
    ensures |t.places[n].full| < KEY_LEN - 1 ==> Answer(WithCell(t', x, Leaf(key, value')), k) == None
  {
    hide TreeOk;
    hide Contents;
    hide Bytes;
    hide Answer;
    hide KeptRight;
    hide Shaped;
    OtherByte(t, n, key, k);
    CollidedKids(t, t', n, x, key, value, KeyByte(t, n, k));
    ClearedOk(t, t', n, x, key, value);
    hide Cleared;
    var t0, t3 := WithCell(t, x, Leaf(key, value')), WithCell(t', x, Leaf(key, value'));
    Garbage(t, x, Leaf(key, value'), key, n);
    assert Collides(t0, t3, n, x, key, value');
    CollisionLookups(t0, t3, n, x, key, value', key);
    CollisionLookups(t0, t3, n, x, key, value', k);
    StraysItself(t0, n, x, key, k, t3, value');
  }

  lemma OtherByte(t: Tree, n: Addr, key: U64, k: U64)
    requires n in t.places && Prefix(t.places[n].full, Bytes(key)) && Prefix(t.places[n].full, Bytes(k)) && |t.places[n].full| < KEY_LEN && k != key
    requires forall j | |t.places[n].full| < j < KEY_LEN :: Bytes(k)[j] == Bytes(key)[j]
    ensures KeyByte(t, n, k) != KeyByte(t, n, key)
  {
    hide Bytes;
    PrefixAt(t.places[n].full, Bytes(key));
    PrefixAt(t.places[n].full, Bytes(k));
    if KeyByte(t, n, k) == KeyByte(t, n, key) {
      assert Bytes(k) == Bytes(key);
      BytesDiffer(k, key);
    }
  }

  /** Memory that is not linked may hold anything. */
  lemma Garbage(t: Tree, x: Addr, cell: Cell, key: U64, n: Addr)
    requires TreeOk(t) && x != NULL && x !in t.places && x in t.nodes && Honest(t) && Blocked(t, key, n)
    ensures SameContents(t, WithCell(t, x, cell)) && Honest(WithCell(t, x, cell)) && Blocked(WithCell(t, x, cell), key, n)
  {
    hide Kid;
    hide Fits;
    hide HasParent;
    hide Contents;
    hide TurnsAway;
    hide Bytes;
    hide FreeFor;
    var t' := WithCell(t, x, cell);
    forall b | b in t'.places ensures b in t'.nodes && CellOk(t', b) {
      InNodes(t, b);
      forall c: Byte ensures ChildOk(t', t.places[b].full, c, Kid(t'.nodes[b], c)) {
        assert ChildOk(t, t.places[b].full, c, Kid(t.nodes[b], c));
      }
    }
    forall b | b in t'.places && b != t'.root ensures HasParent(t', b) {
      var p, c := Parent(t, b);
      ParentKept(t, t', p, c, b);
    }
    assert TreeOk(t');
    hide TreeOk;
    LeavesSame(t, t');
    forall m | IsNode(t', m) ensures !TurnsAway(t'.nodes[m].prefix, t'.places[m]) {
      assert IsNode(t, m);
    }
  }

  /** What a lookup finds, among honest nodes. */
  lemma CollisionLookups(t: Tree, t': Tree, n: Addr, x: Addr, key: U64, value: U64, k: U64)
    requires Collides(t, t', n, x, key, value) && Honest(t)
    ensures !Strays(t, n, x, key, k) ==> Answer(t', k) == Lookup(Contents(t)[key := value], k)
    ensures Strays(t, n, x, key, k) ==> k != key
    ensures Strays(t, n, x, key, k) && |t.places[n].full| < KEY_LEN - 1 ==> Answer(t', k) == None
  {
    hide TreeOk;
    hide Contents;
    hide Bytes;
    hide Answer;
    hide BlindAt;
    hide KeptRight;
    var t2 := Cleared(t, n, x, key);
    ClearedOk(t, t', n, x, key, value);
    KeptRightKept(t, t2);
    KeptKeeps(t, t2);
    hide Cleared;
    hide Honest;
    CollisionAnswer(t, t', n, x, key, value, k);
    HonestAnswers(t2, k);
  }

  lemma StraysItself(t: Tree, n: Addr, x: Addr, key: U64, k: U64, t': Tree, value: U64)
    requires Collides(t, t', n, x, key, value) && Honest(t) && Prefix(t.places[n].full, Bytes(k))
    requires Leftover(t.nodes[n].layout, KeyByte(t, n, k)) && KeyByte(t, n, k) != KeyByte(t, n, key)
    ensures Strays(t, n, x, key, k)
  {
    hide TreeOk;
    hide Bytes;
    hide Contents;
    hide Refuses;
    var t2 := Cleared(t, n, x, key);
    ClearedOk(t, t', n, x, key, value);
    KeptRightKept(t, t2);
    KeptKeeps(t, t2);
    HonestLed(t2, k, n);
    CollidedKids(t, t', n, x, key, value, KeyByte(t, n, k));
  }
}
