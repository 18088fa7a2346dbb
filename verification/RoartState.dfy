/**
 The state of a whole ROART tree's prefixes and arrays: which lookups it serves, what an operation keeps of it, and what
 an operation that a crash cut off leaves.
 */
module RoartStates {
  import opened Bits
  import opened Addresses
  import opened Prefixes
  import opened RoartKeys
  import opened RoartLayouts
  import opened RoartModel
  import opened RoartPrefixes

  ghost predicate IsNode(t: Tree, n: Addr) {
    n in t.places && n in t.nodes && t.nodes[n].Node?
  }

  // ----- prefixes -----

  ghost predicate PrefixRight(t: Tree, n: Addr)
    requires IsNode(t, n)
  {
    Right(t.nodes[n].prefix, t.places[n])
  }

  /** No half-done prefix edit is left over. */
  ghost predicate Clean(t: Tree) {
    forall n | IsNode(t, n) :: PrefixRight(t, n)
  }

  /** Every prefix is right from some byte on: too long after a split, too short after a merge that stopped half-way. */
  ghost predicate Described(t: Tree) {
    forall n | IsNode(t, n) :: Describes(t.nodes[n].prefix, t.places[n].full)
  }

  /** No node turns the keys below it away. */
  ghost predicate Honest(t: Tree) {
    forall n | IsNode(t, n) :: !TurnsAway(t.nodes[n].prefix, t.places[n])
  }

  /** What put needs to find every wrong prefix: the wrong ones have a wrong length. */
  ghost predicate Repairable(t: Tree) {
    forall n | IsNode(t, n) && RightLength(t, n) :: PrefixRight(t, n)
  }

  ghost predicate RightLength(t: Tree, n: Addr)
    requires IsNode(t, n)
  {
    t.nodes[n].prefix.prefixCount + |t.places[n].path| == |t.places[n].full|
  }

  /** The same for the nodes that put comes to with a key. */
  ghost predicate RepairableOn(t: Tree, key: U64) {
    forall n | IsNode(t, n) && Prefix(t.places[n].path, Bytes(key)) && RightLength(t, n) :: PrefixRight(t, n)
  }

  lemma RepairableThere(t: Tree, key: U64)
    requires Repairable(t)
    ensures RepairableOn(t, key)
  {
  }

  lemma RightByLength(t: Tree, n: Addr, key: U64)
    requires RepairableOn(t, key) && IsNode(t, n) && Prefix(t.places[n].path, Bytes(key))
    ensures RightLength(t, n) ==> PrefixRight(t, n)
  {
  }

  ghost predicate TurnsAt(t: Tree, key: U64, n: Addr) {
    IsNode(t, n) && Prefix(t.places[n].full, Bytes(key)) && TurnsAway(t.nodes[n].prefix, t.places[n])
  }

  /** Some node on a key's way turns its keys away. */
  ghost predicate Turned(t: Tree, key: U64) {
    exists n :: TurnsAt(t, key, n)
  }

  /** No insertion or removal in a node was cut off: it has no fewer children than remove leaves in its kind, and no index too many. */
  ghost predicate Settled(l: Layout) {
    Shaped(l) && l.count >= Fewest(l) && Sealed(l)
  }

  ghost predicate Quiet(t: Tree) {
    forall n | IsNode(t, n) && n != t.root :: Settled(t.nodes[n].layout)
  }

  lemma QuietAt(t: Tree, n: Addr)
    requires Quiet(t) && IsNode(t, n) && n != t.root
    ensures Settled(t.nodes[n].layout)
  {
  }

  lemma CleanDescribed(t: Tree)
    requires Clean(t)
    ensures Described(t)
  {
    hide Right;
    hide Describes;
    forall n | IsNode(t, n) ensures Describes(t.nodes[n].prefix, t.places[n].full) {
      assert PrefixRight(t, n);
      RightDescribes(t.nodes[n].prefix, t.places[n]);
    }
  }

  /** Half-done edits turn nobody away. */
  lemma DescribedHonest(t: Tree)
    requires Described(t)
    ensures Honest(t)
  {
    hide Describes;
    hide TurnsAway;
    forall n | IsNode(t, n) ensures !TurnsAway(t.nodes[n].prefix, t.places[n]) {
      DescribesHonest(t.nodes[n].prefix, t.places[n]);
    }
  }

  lemma HonestRepairable(t: Tree)
    requires TreeOk(t) && Honest(t)
    ensures Repairable(t)
  {
    hide TreeOk;
    hide LayoutOk;
    hide Kid;
    hide Right;
    hide TurnsAway;
    forall n | IsNode(t, n) && t.nodes[n].prefix.prefixCount + |t.places[n].path| == |t.places[n].full| ensures PrefixRight(t, n) {
      NodeAt(t, n);
      RightLengthExactly(t.nodes[n].prefix, t.places[n]);
    }
  }

  // ----- what steps keep -----

  ghost predicate Carries(t: Tree, place: Place, prefix: NodePrefix) {
    exists b :: CarriesAt(t, b, place, prefix)
  }

  ghost predicate CarriesAt(t: Tree, b: Addr, place: Place, prefix: NodePrefix) {
    IsNode(t, b) && t.places[b] == place && t.nodes[b].prefix == prefix
  }

  /** Every prefix of t' is right, or was there before. */
  ghost predicate KeptRight(t: Tree, t': Tree) {
    forall a | IsNode(t', a) :: Right(t'.nodes[a].prefix, t'.places[a]) || Carries(t, t'.places[a], t'.nodes[a].prefix)
  }

  /** Every prefix of t' describes its node from some byte on, or was there before. */
  ghost predicate Kept(t: Tree, t': Tree) {
    forall a | IsNode(t', a) :: Describes(t'.nodes[a].prefix, t'.places[a].full) || Carries(t, t'.places[a], t'.nodes[a].prefix)
  }

  lemma KeptRightKept(t: Tree, t': Tree)
    requires KeptRight(t, t')
    ensures Kept(t, t')
  {
    hide Describes;
    hide Right;
    hide Carries;
    forall a | IsNode(t', a) ensures Describes(t'.nodes[a].prefix, t'.places[a].full) || Carries(t, t'.places[a], t'.nodes[a].prefix) {
      if Right(t'.nodes[a].prefix, t'.places[a]) { RightDescribes(t'.nodes[a].prefix, t'.places[a]); }
    }
  }

  lemma KeptSelf(t: Tree)
    ensures Kept(t, t) && KeptRight(t, t)
  {
    forall a | IsNode(t, a) ensures Carries(t, t.places[a], t.nodes[a].prefix) {
      assert CarriesAt(t, a, t.places[a], t.nodes[a].prefix);
    }
  }

  lemma KeptTrans(t: Tree, t1: Tree, t2: Tree)
    requires Kept(t, t1) && Kept(t1, t2)
    ensures Kept(t, t2)
  {
    hide Describes;
    forall a | IsNode(t2, a) ensures Describes(t2.nodes[a].prefix, t2.places[a].full) || Carries(t, t2.places[a], t2.nodes[a].prefix) {
      if !Describes(t2.nodes[a].prefix, t2.places[a].full) {
        var b :| CarriesAt(t1, b, t2.places[a], t2.nodes[a].prefix);
      }
    }
  }

  lemma KeptRightTrans(t: Tree, t1: Tree, t2: Tree)
    requires KeptRight(t, t1) && KeptRight(t1, t2)
    ensures KeptRight(t, t2)
  {
    hide Right;
    forall a | IsNode(t2, a) ensures Right(t2.nodes[a].prefix, t2.places[a]) || Carries(t, t2.places[a], t2.nodes[a].prefix) {
      if !Right(t2.nodes[a].prefix, t2.places[a]) {
        var b :| CarriesAt(t1, b, t2.places[a], t2.nodes[a].prefix);
      }
    }
  }

  /** A step that keeps prefixes keeps everything that lookups and repairs need. */
  lemma KeptKeeps(t: Tree, t': Tree)
    requires Kept(t, t')
    ensures Described(t) ==> Described(t')
    ensures Honest(t) ==> Honest(t')
    ensures Repairable(t) ==> Repairable(t')
  {
    hide TurnsAway;
    forall a | IsNode(t', a)
      ensures (Described(t) ==> Describes(t'.nodes[a].prefix, t'.places[a].full))
        && (Honest(t) ==> !TurnsAway(t'.nodes[a].prefix, t'.places[a]))
        && (Repairable(t) && t'.nodes[a].prefix.prefixCount + |t'.places[a].path| == |t'.places[a].full| ==> PrefixRight(t', a))
    {
      if Describes(t'.nodes[a].prefix, t'.places[a].full) {
        DescribesHonest(t'.nodes[a].prefix, t'.places[a]);
      } else {
        var b :| CarriesAt(t, b, t'.places[a], t'.nodes[a].prefix);
        assert IsNode(t, b);
      }
    }
  }

  lemma TurnedKept(t: Tree, t': Tree, key: U64)
    requires Kept(t, t') && Turned(t', key)
    ensures Turned(t, key)
  {
    hide TurnsAway;
    hide Describes;
    hide Bytes;
    var a :| TurnsAt(t', key, a);
    if Describes(t'.nodes[a].prefix, t'.places[a].full) {
      DescribesHonest(t'.nodes[a].prefix, t'.places[a]);
    } else {
      var b :| CarriesAt(t, b, t'.places[a], t'.nodes[a].prefix);
      assert TurnsAt(t, key, b);
    }
  }

  lemma KeptRightKeeps(t: Tree, t': Tree)
    requires KeptRight(t, t')
    ensures Clean(t) ==> Clean(t')
    ensures Kept(t, t')
  {
    hide Right;
    KeptRightKept(t, t');
    forall a | IsNode(t', a) ensures Clean(t) ==> PrefixRight(t', a) {
      if Carries(t, t'.places[a], t'.nodes[a].prefix) {
        var b :| CarriesAt(t, b, t'.places[a], t'.nodes[a].prefix);
        assert IsNode(t, b);
      }
    }
  }

  // ----- how a step is seen to keep them -----

  /** The same prefix, and no fewer children in the same kind of node. */
  ghost predicate Alike(cell: Cell, cell': Cell) {
    cell.Node? && cell'.Node? && cell'.prefix == cell.prefix && (Settled(cell.layout) ==> Settled(cell'.layout))
  }

  /** All nodes but some are at their places and as they were. */
  ghost predicate SameElsewhere(t: Tree, t': Tree, news: set<Addr>) {
    && t'.root == t.root
    && forall a | IsNode(t', a) && a !in news :: IsNode(t, a) && t'.places[a] == t.places[a] && Alike(t.nodes[a], t'.nodes[a])
  }

  /** One cell has other pointers; the rest of memory outside news is untouched. */
  lemma Elsewhere(t: Tree, t': Tree, p: Addr, news: set<Addr>)
    requires TreeOk(t) && t'.root == t.root
    requires forall a | a in t'.places && a !in news :: a in t.places && t'.places[a] == t.places[a]
    requires forall a | a in t.nodes && a !in news && a != p :: a in t'.nodes && t'.nodes[a] == t.nodes[a]
    requires p !in news ==> p in t.nodes && p in t'.nodes && Alike(t.nodes[p], t'.nodes[p])
    ensures SameElsewhere(t, t', news)
  {
    hide TreeOk;
    forall a | IsNode(t', a) && a !in news ensures IsNode(t, a) && Alike(t.nodes[a], t'.nodes[a]) {
      InNodes(t, a);
    }
  }

  lemma StepKept(t: Tree, t': Tree, news: set<Addr>)
    requires SameElsewhere(t, t', news)
    requires forall a | a in news && IsNode(t', a) :: Describes(t'.nodes[a].prefix, t'.places[a].full) || Carries(t, t'.places[a], t'.nodes[a].prefix)
    ensures Kept(t, t')
  {
    hide Describes;
    forall a | IsNode(t', a) ensures Describes(t'.nodes[a].prefix, t'.places[a].full) || Carries(t, t'.places[a], t'.nodes[a].prefix) {
      if a !in news { assert CarriesAt(t, a, t'.places[a], t'.nodes[a].prefix); }
    }
  }

  lemma StepKeptRight(t: Tree, t': Tree, news: set<Addr>)
    requires SameElsewhere(t, t', news)
    requires forall a | a in news && IsNode(t', a) :: Right(t'.nodes[a].prefix, t'.places[a]) || Carries(t, t'.places[a], t'.nodes[a].prefix)
    ensures KeptRight(t, t')
  {
    hide Right;
    forall a | IsNode(t', a) ensures Right(t'.nodes[a].prefix, t'.places[a]) || Carries(t, t'.places[a], t'.nodes[a].prefix) {
      if a !in news { assert CarriesAt(t, a, t'.places[a], t'.nodes[a].prefix); }
    }
  }

  lemma StepQuiet(t: Tree, t': Tree, news: set<Addr>)
    requires SameElsewhere(t, t', news)
    requires forall a | a in news && IsNode(t', a) && a != t.root && Quiet(t) :: Settled(t'.nodes[a].layout)
    ensures Quiet(t) ==> Quiet(t')
  {
    hide Settled;
    if Quiet(t) {
      forall a | IsNode(t', a) && a != t'.root ensures Settled(t'.nodes[a].layout) {
        if a !in news { assert IsNode(t, a) && Settled(t.nodes[a].layout); }
      }
    }
  }

  /** Memory that is not linked plays no part. */
  lemma AllocKept(t: Tree, t': Tree, a: Addr)
    requires TreeOk(t) && a !in t.nodes && a in t'.nodes && t' == WithCell(t, a, t'.nodes[a])
    ensures KeptRight(t, t') && (Quiet(t) ==> Quiet(t'))
  {
    hide TreeOk;
    hide Right;
    hide Settled;
    hide Quiet;
    hide Alike;
    NotPlaced(t, a);
    SameCells(t, t', a);
    StepKeptRight(t, t', {a});
    StepQuiet(t, t', {a});
  }

  lemma SameCells(t: Tree, t': Tree, a: Addr)
    requires TreeOk(t) && t'.root == t.root && t'.places == t.places
    requires forall b | b in t.nodes && b != a :: b in t'.nodes && t'.nodes[b] == t.nodes[b]
    ensures SameElsewhere(t, t', {a})
  {
    hide TreeOk;
    forall b | IsNode(t', b) && b != a ensures IsNode(t, b) && Alike(t.nodes[b], t'.nodes[b]) {
      InNodes(t, b);
    }
  }

  lemma LeafKept(t: Tree, t': Tree, n: Addr)
    requires TreeOk(t) && n in t.nodes && t.nodes[n].Leaf? && n in t'.nodes && t'.nodes[n].Leaf? && t' == WithCell(t, n, t'.nodes[n])
    ensures KeptRight(t, t') && (Quiet(t) ==> Quiet(t'))
  {
    hide TreeOk;
    hide Right;
    hide Settled;
    hide Quiet;
    hide Alike;
    SameCells(t, t', n);
    StepKeptRight(t, t', {n});
    StepQuiet(t, t', {n});
  }

  /** A repaired prefix changes neither pointers nor what is right elsewhere. */
  lemma RepairKept(t: Tree, t': Tree, n: Addr, p: Addr, c: Byte)
    requires TreeOk(t) && IsNode(t, n) && n in t'.nodes && t'.nodes[n].Node?
    requires t' == WithCell(t, n, Node(t.nodes[n].level, t'.nodes[n].prefix, t.nodes[n].layout)) && PrefixRight(t', n)
    ensures KeptRight(t, t') && (Quiet(t) ==> Quiet(t'))
    ensures IsParent(t, p, c, n) ==> IsParent(t', p, c, n)
  {
    hide TreeOk;
    hide Kid;
    hide Right;
    if IsParent(t, p, c, n) { Link(t, p, c, n); }
    SameCells(t, t', n);
    StepKeptRight(t, t', {n});
    StepQuiet(t, t', {n});
  }

  /** A new node x above cell n: after the pointer, and after n's prefix as well. */
  lemma ForkKept(t: Tree, t': Tree, p: Addr, n: Addr, x: Addr, b: Addr, key: U64, f: nat)
    requires TreeOk(t) && n in t.places && n in t.nodes && p in t.nodes && p in t'.nodes && Alike(t.nodes[p], t'.nodes[p])
    requires Prefix(t.places[n].path, t.places[n].full) && |t.places[n].path| <= f < |t.places[n].full| <= KEY_LEN
    requires p !in {n, x, b} && n !in {x, b} && x != b && t'.root == t.root && t'.places == ForkPlaces(t.places, n, x, b, key, f)
    requires {n, x, b} <= t'.nodes.Keys && forall a | a in t.nodes && a !in {n, x, b, p} :: a in t'.nodes && t'.nodes[a] == t.nodes[a]
    requires t'.nodes[b].Leaf? && t'.nodes[x].Node? && Settled(t'.nodes[x].layout)
    requires t'.nodes[x].prefix == PrefixFrom(t.places[n].full[..f], |t.places[n].path|)
    requires t'.nodes[n].Node? ==> t.nodes[n].Node? && t'.nodes[n].layout == t.nodes[n].layout && Describes(t'.nodes[n].prefix, t.places[n].full)
    requires n != t.root
    ensures Kept(t, t') && (Quiet(t) ==> Quiet(t'))
    ensures t'.nodes[n].Leaf? || t'.nodes[n].prefix == PrefixFrom(t.places[n].full, f + 1) ==> KeptRight(t, t')
  {
    hide TreeOk;
    hide Bytes;
    hide Describes;
    hide PrefixFrom;
    hide Settled;
    hide Carries;
    Elsewhere(t, t', p, {n, x, b});
    RightDescribes(t'.nodes[x].prefix, t'.places[x]);
    StepKept(t, t', {n, x, b});
    StepQuiet(t, t', {n, x, b});
    if t'.nodes[n].Leaf? || t'.nodes[n].prefix == PrefixFrom(t.places[n].full, f + 1) {
      StepKeptRight(t, t', {n, x, b});
    }
  }

  /** A node with the same prefix in another's place, or in its own with other arrays; cell b is a leaf or new. */
  lemma SwapKept(t: Tree, t': Tree, n: Addr, n': Addr, p: Addr, b: Addr)
    requires TreeOk(t) && IsNode(t, n) && n' in t'.nodes && t'.nodes[n'].Node? && t'.nodes[n'].prefix == t.nodes[n].prefix
    requires n' in t'.places && t'.places[n'] == t.places[n] && t'.root == t.root
    requires p in t.nodes && p in t'.nodes && (Alike(t.nodes[p], t'.nodes[p]) || p == n')
    requires b !in t'.places || (b in t'.nodes && t'.nodes[b].Leaf?)
    requires forall a | a in t'.places && a !in {n', b} :: a in t.places && t'.places[a] == t.places[a]
    requires forall a | a in t.nodes && a !in {n, n', p, b} :: a in t'.nodes && t'.nodes[a] == t.nodes[a]
    requires n' != n ==> n !in t'.places
    ensures KeptRight(t, t')
    ensures n' == t.root || (Quiet(t) ==> Settled(t'.nodes[n'].layout)) ==> (Quiet(t) ==> Quiet(t'))
  {
    hide TreeOk;
    hide Right;
    hide Settled;
    hide Alike;
    hide Quiet;
    Elsewhere(t, t', p, {n, n', b});
    assert CarriesAt(t, n, t'.places[n'], t'.nodes[n'].prefix);
    StepKeptRight(t, t', {n, n', b});
    if n' == t.root || (Quiet(t) ==> Settled(t'.nodes[n'].layout)) { StepQuiet(t, t', {n, n', b}); }
  }

  /** A leaf in another's place. */
  lemma LeafSwapKept(t: Tree, t': Tree, p: Addr, n: Addr, n': Addr)
    requires TreeOk(t) && n in t.nodes && t.nodes[n].Leaf? && n' in t'.nodes && t'.nodes[n'].Leaf? && t'.root == t.root
    requires p in t.nodes && p in t'.nodes && Alike(t.nodes[p], t'.nodes[p]) && p != n' && n !in t'.places
    requires forall a | a in t'.places && a != n' :: a in t.places && t'.places[a] == t.places[a]
    requires forall a | a in t.nodes && a !in {n', p} :: a in t'.nodes && t'.nodes[a] == t.nodes[a]
    ensures KeptRight(t, t') && (Quiet(t) ==> Quiet(t'))
  {
    hide TreeOk;
    hide Right;
    hide Settled;
    hide Alike;
    hide Quiet;
    Elsewhere(t, t', p, {n'});
    StepKeptRight(t, t', {n'});
    StepQuiet(t, t', {n'});
  }

  /** A bigger copy with a leaf more took a node's place. */
  lemma GrownKept(t: Tree, p: Addr, cell': Cell, n: Addr, n': Addr, big: Cell, b: Addr, key: U64)
    requires TreeOk(t) && IsNode(t, n) && n' !in t.nodes && b in t.nodes && t.nodes[b].Leaf? && |t.places[n].full| < KEY_LEN
    requires p in t.nodes && Alike(t.nodes[p], cell') && p != n && p != b && big.Node? && big.prefix == t.nodes[n].prefix
    requires Quiet(t) ==> Settled(big.layout)
    ensures KeptRight(t, Grown(t, p, cell', n, n', big, b, key)) && (Quiet(t) ==> Quiet(Grown(t, p, cell', n, n', big, b, key)))
  {
    hide TreeOk;
    hide KeptRight;
    hide Settled;
    hide Alike;
    hide Quiet;
    hide Bytes;
    NotPlaced(t, n');
    SwapKept(t, Grown(t, p, cell', n, n', big, b, key), n, n', p, b);
  }

  /** A smaller copy with a leaf less took a node's place. */
  lemma ShrunkKept(t: Tree, p: Addr, cell': Cell, n: Addr, cleared: Cell, l: Addr, n': Addr, small: Cell)
    requires TreeOk(t) && IsNode(t, n) && n' !in t.nodes && l in t.places && l != n
    requires p in t.nodes && Alike(t.nodes[p], cell') && p != n && small.Node? && small.prefix == t.nodes[n].prefix
    requires Quiet(t) ==> Settled(small.layout)
    ensures var t' := WithCopy(WithCell(WithoutLeaf(t, n, cleared, l), n', small), p, cell', n, n');
      KeptRight(t, t') && (Quiet(t) ==> Quiet(t'))
  {
    hide TreeOk;
    hide KeptRight;
    hide Settled;
    hide Alike;
    hide Quiet;
    NotPlaced(t, n');
    SwapKept(t, WithCopy(WithCell(WithoutLeaf(t, n, cleared, l), n', small), p, cell', n, n'), n, n', p, l);
  }

  // ----- what a crash leaves of an update -----

  /** A crash costs one of two things: between a pointer and a prefix, that all prefixes are right; inside a node, that the tree is quiet. */
  ghost predicate CostsOne(t: Tree, image: Tree) {
    (Quiet(t) ==> Quiet(image)) || KeptRight(t, image)
  }

  ghost predicate PutImage(t: Tree, image: Tree, key: U64, value: U64) {
    BeforeOrAfter(t, image, key, value) && Kept(t, image) && CostsOne(t, image)
  }

  ghost predicate UpdateImage(t: Tree, image: Tree, key: U64, value: U64) {
    && (SameContents(t, image) || (TreeOk(t) && key in Contents(t) && Updated(t, image, key, value)))
    && KeptRight(t, image) && (Quiet(t) ==> Quiet(image))
  }

  lemma ImagesAfter(t: Tree, t1: Tree, key: U64, value: U64)
    requires SameContents(t, t1) && KeptRight(t, t1) && (Quiet(t) ==> Quiet(t1))
    ensures forall im :: PutImage(t1, im, key, value) ==> PutImage(t, im, key, value)
  {
    hide TreeOk;
    hide Contents;
    hide Kept;
    hide KeptRight;
    hide Quiet;
    AllAfter(t, t1, key, value);
    KeptRightKept(t, t1);
    forall im | PutImage(t1, im, key, value) ensures PutImage(t, im, key, value) {
      KeptTrans(t, t1, im);
      if KeptRight(t1, im) { KeptRightTrans(t, t1, im); }
    }
  }

  /** A step after another: what both keep. */
  lemma KeptBoth(t: Tree, t1: Tree, t2: Tree)
    requires KeptRight(t, t1) && KeptRight(t1, t2)
    ensures KeptRight(t, t2) && Kept(t, t2)
  {
    hide KeptRight;
    hide Kept;
    KeptRightTrans(t, t1, t2);
    KeptRightKept(t, t2);
  }

  /** A leaf more below a node whose cell grew. */
  lemma AddedKept(t: Tree, t': Tree, n: Addr, b: Addr)
    requires TreeOk(t) && t'.root == t.root && n in t.nodes && n in t'.nodes && Alike(t.nodes[n], t'.nodes[n])
    requires b in t'.nodes && t'.nodes[b].Leaf? && b !in t.places && n != b
    requires forall a | a in t'.places && a != b :: a in t.places && t'.places[a] == t.places[a]
    requires forall a | a in t.nodes && a !in {n, b} :: a in t'.nodes && t'.nodes[a] == t.nodes[a]
    ensures KeptRight(t, t') && (Quiet(t) ==> Quiet(t'))
  {
    hide TreeOk;
    hide Right;
    hide Settled;
    hide Alike;
    hide Quiet;
    Elsewhere(t, t', n, {b});
    StepKeptRight(t, t', {b});
    StepQuiet(t, t', {b});
  }

  /** A key's insertion ends in this node, where another byte has an index left over for the slot that the key's child gets. */
  ghost predicate Blocked(t: Tree, key: U64, n: Addr) {
    && IsNode(t, n) && LayoutOk(t.nodes[n].layout) && Prefix(t.places[n].full, Bytes(key)) && |t.places[n].full| < KEY_LEN
    && Kid(t.nodes[n], Bytes(key)[|t.places[n].full|]) == NULL && !FreeFor(t.nodes[n].layout, Bytes(key)[|t.places[n].full|])
  }

  ghost predicate SlotFree(t: Tree, key: U64) {
    forall n :: !Blocked(t, key, n)
  }

  lemma QuietSlots(t: Tree, key: U64)
    requires TreeOk(t) && Quiet(t)
    ensures SlotFree(t, key)
  {
    hide TreeOk;
    hide Bytes;
    hide Shaped;
    forall n ensures !Blocked(t, key, n) {
      if IsNode(t, n) {
        NodeAt(t, n);
        if n != t.root { assert Settled(t.nodes[n].layout); }
      }
    }
  }

  /** A repair leaves slots as they are. */
  lemma RepairSlots(t: Tree, t': Tree, n: Addr, key: U64)
    requires TreeOk(t) && IsNode(t, n) && n in t'.nodes && t'.nodes[n].Node?
    requires t' == WithCell(t, n, Node(t.nodes[n].level, t'.nodes[n].prefix, t.nodes[n].layout))
    ensures forall m :: Blocked(t', key, m) <==> Blocked(t, key, m)
    ensures SlotFree(t', key) <==> SlotFree(t, key)
  {
    hide TreeOk;
    hide Bytes;
    hide Shaped;
    hide FreeFor;
    forall m ensures Blocked(t', key, m) <==> Blocked(t, key, m) {
      if m in t.places { InNodes(t, m); }
    }
  }

  /** A node with other arrays that say the same is an image of memory before an update. */
  lemma TwinImage(t: Tree, n: Addr, cell': Cell, key: U64, value: U64)
    requires TreeOk(t) && IsNode(t, n) && Twin(t.nodes[n], cell') && Fits(cell', t.places[n], n == t.root) && cell'.prefix == t.nodes[n].prefix
    ensures PutImage(t, WithCell(t, n, cell'), key, value)
  {
    hide TreeOk;
    hide Contents;
    hide Kid;
    hide Fits;
    hide Describes;
    hide Quiet;
    Reshaped(t, n, cell');
    var t' := WithCell(t, n, cell');
    forall a | IsNode(t', a) ensures Carries(t, t'.places[a], t'.nodes[a].prefix) {
      InNodes(t, a);
      assert CarriesAt(t, a, t'.places[a], t'.nodes[a].prefix);
    }
    KeptRightKept(t, t');
  }

  // ----- who is on a key's way -----

  /** Of the nodes that share a key's bytes, a cell on the key's way has above it only those with a lower level. */
  lemma OnWay(t: Tree, n: Addr, b: Addr, key: U64)
    requires TreeOk(t) && n in t.places && n in t.nodes && Prefix(t.places[n].path, Bytes(key))
    requires IsNode(t, b) && Prefix(t.places[b].full, Bytes(key)) && |t.places[n].path| <= |t.places[b].full|
    ensures IsNode(t, n) && Prefix(t.places[n].full, Bytes(key)) && |t.places[n].full| < KEY_LEN
    ensures b == n || (|t.places[n].full| < |t.places[b].full| && Kid(t.nodes[n], Bytes(key)[|t.places[n].full|]) != NULL)
  {
    hide TreeOk;
    hide Bytes;
    hide Kid;
    hide LayoutOk;
    NodeAt(t, b);
    PathPrefix(t, n);
    var fkey := Bytes(key);
    PrefixTrans(t.places[b].path, t.places[b].full, fkey);
    if |t.places[n].path| <= |t.places[b].path| {
      PrefixChain(t.places[n].path, t.places[b].path, fkey);
      Descends(t, n, b);
      if n != b {
        AboveMore(t, n, t.places[b].path, t.places[b].full);
        AboveMore(t, n, t.places[b].full, fkey);
      }
    } else {
      PrefixChain(t.places[b].path, t.places[n].path, fkey);
      Descends(t, b, n);
    }
    if n != b { NodeAt(t, n); }
  }

  /** No node above level k turns a key's way. */
  ghost predicate FreeAbove(t: Tree, key: U64, k: nat) {
    forall b | TurnsAt(t, key, b) :: k <= |t.places[b].full|
  }

  lemma RootFree(t: Tree, key: U64)
    ensures FreeAbove(t, key, 0)
  {
  }

  /** One node further down the way. */
  lemma NextFree(t: Tree, n: Addr, key: U64)
    requires TreeOk(t) && IsNode(t, n) && Prefix(t.places[n].path, Bytes(key)) && FreeAbove(t, key, |t.places[n].path|)
    requires !TurnsAway(t.nodes[n].prefix, t.places[n]) || !Prefix(t.places[n].full, Bytes(key))
    ensures FreeAbove(t, key, |t.places[n].full| + 1)
  {
    hide TreeOk;
    hide Bytes;
    hide Kid;
    hide TurnsAway;
    forall b | TurnsAt(t, key, b) ensures |t.places[n].full| + 1 <= |t.places[b].full| {
      OnWay(t, n, b, key);
    }
  }

  lemma FreeKept(t: Tree, t': Tree, key: U64, k: nat)
    requires KeptRight(t, t') && FreeAbove(t, key, k)
    ensures FreeAbove(t', key, k)
  {
    hide TurnsAway;
    hide Right;
    hide Bytes;
    forall b | TurnsAt(t', key, b) ensures k <= |t'.places[b].full| {
      if Right(t'.nodes[b].prefix, t'.places[b]) {
        RightHonest(t'.nodes[b].prefix, t'.places[b]);
      } else {
        var c :| CarriesAt(t, c, t'.places[b], t'.nodes[b].prefix);
        assert TurnsAt(t, key, c);
      }
    }
  }

  lemma RepairableKept(t: Tree, t': Tree, key: U64)
    requires KeptRight(t, t') && RepairableOn(t, key)
    ensures RepairableOn(t', key)
  {
    hide Right;
    hide Bytes;
    forall n | IsNode(t', n) && Prefix(t'.places[n].path, Bytes(key)) && RightLength(t', n) ensures PrefixRight(t', n) {
      if Carries(t, t'.places[n], t'.nodes[n].prefix) {
        var b :| CarriesAt(t, b, t'.places[n], t'.nodes[n].prefix);
        assert IsNode(t, b) && RightLength(t, b);
      }
    }
  }

  /** What a key is compared with at a node on its way, where the insertion is blocked, lies no higher. */
  ghost predicate BlockedFrom(t: Tree, key: U64, k: nat) {
    forall b | Blocked(t, key, b) :: k <= |t.places[b].full|
  }

  lemma NextBlocked(t: Tree, n: Addr, key: U64)
    requires TreeOk(t) && IsNode(t, n) && Prefix(t.places[n].full, Bytes(key)) && |t.places[n].full| < KEY_LEN
    requires Kid(t.nodes[n], Bytes(key)[|t.places[n].full|]) != NULL && BlockedFrom(t, key, |t.places[n].path|)
    ensures BlockedFrom(t, key, |t.places[n].full| + 1)
  {
    hide TreeOk;
    hide Bytes;
    hide Kid;
    hide LayoutOk;
    hide FreeFor;
    PathPrefix(t, n);
    PrefixTrans(t.places[n].path, t.places[n].full, Bytes(key));
    forall b | IsNode(t, b) && Blocked(t, key, b) ensures |t.places[n].full| + 1 <= |t.places[b].full| {
      OnWay(t, n, b, key);
    }
  }

  /** The way ends at a leaf, or at a node that the key leaves: nothing is blocked. */
  lemma NoneBlocked(t: Tree, n: Addr, key: U64)
    requires TreeOk(t) && n in t.places && n in t.nodes && Prefix(t.places[n].path, Bytes(key)) && BlockedFrom(t, key, |t.places[n].path|)
    requires t.nodes[n].Leaf? || !Prefix(t.places[n].full, Bytes(key))
    ensures SlotFree(t, key)
  {
    hide TreeOk;
    hide Bytes;
    hide Kid;
    hide LayoutOk;
    hide FreeFor;
    forall b ensures !Blocked(t, key, b) {
      if IsNode(t, b) && Prefix(t.places[b].full, Bytes(key)) && |t.places[n].path| <= |t.places[b].full| { OnWay(t, n, b, key); }
    }
  }

  /** It ends at an empty slot: that node decides. */
  lemma BlockedHere(t: Tree, n: Addr, key: U64)
    requires TreeOk(t) && IsNode(t, n) && LayoutOk(t.nodes[n].layout) && Prefix(t.places[n].full, Bytes(key)) && |t.places[n].full| < KEY_LEN
    requires Kid(t.nodes[n], Bytes(key)[|t.places[n].full|]) == NULL && BlockedFrom(t, key, |t.places[n].path|)
    ensures SlotFree(t, key) <==> FreeFor(t.nodes[n].layout, Bytes(key)[|t.places[n].full|])
  {
    hide TreeOk;
    hide Bytes;
    hide Kid;
    hide Shaped;
    hide FreeFor;
    PathPrefix(t, n);
    PrefixTrans(t.places[n].path, t.places[n].full, Bytes(key));
    forall b | b != n ensures !Blocked(t, key, b) {
      if IsNode(t, b) && Prefix(t.places[b].full, Bytes(key)) && |t.places[n].path| <= |t.places[b].full| { OnWay(t, n, b, key); }
    }
    assert Blocked(t, key, n) <==> !FreeFor(t.nodes[n].layout, Bytes(key)[|t.places[n].full|]);
  }

  lemma RootBlocked(t: Tree, key: U64)
    ensures BlockedFrom(t, key, 0)
  {
  }

  lemma RightHonest(p: NodePrefix, place: Place)
    requires Right(p, place)
    ensures !TurnsAway(p, place)
  {
    RightDescribes(p, place);
    DescribesHonest(p, place);
  }

  /** A key that a node turned away is on that node's way. */
  lemma Missed(t: Tree, n: Addr, key: U64)
    requires TreeOk(t) && IsNode(t, n) && (Has(t, key) ==> Prefix(t.places[n].full, Bytes(key)) && TurnsAway(t.nodes[n].prefix, t.places[n]))
    ensures key !in Contents(t) || Turned(t, key)
  {
    hide TreeOk;
    hide Contents;
    hide Bytes;
    hide TurnsAway;
    if key in Contents(t) {
      HasKey(t, key);
      assert TurnsAt(t, key, n);
    }
  }

  /** A prefix that is skipped turns nobody away. */
  lemma ShortHonest(p: NodePrefix, place: Place)
    requires p.prefixCount + |place.path| < |place.full|
    ensures !TurnsAway(p, place)
  {
  }

  /** What a lookup that reached a leaf may say. */
  lemma LeafAnswers(t: Tree, n: Addr, key: U64)
    requires TreeOk(t) && n in t.places && n in t.nodes && t.nodes[n].Leaf?
    requires Has(t, key) ==> Prefix(t.places[n].path, Bytes(key)) && FreeAbove(t, key, |t.places[n].path|)
    requires t.nodes[n].key == key || |t.places[n].path| == KEY_LEN
    ensures key in Contents(t) ==> !Turned(t, key) && Contents(t)[key] == t.nodes[n].value
    ensures t.nodes[n].key == key ==> key in Contents(t)
    ensures |t.places[n].path| == KEY_LEN && Prefix(t.places[n].path, Bytes(key)) ==> key in Contents(t)
  {
    hide TreeOk;
    hide Contents;
    hide Bytes;
    LeafOfPlace(t, n);
    if |t.places[n].path| == KEY_LEN && Prefix(t.places[n].path, Bytes(key)) { WholeKey(t, n, key); }
    if key in Contents(t) {
      HasKey(t, key);
      if |t.places[n].path| == KEY_LEN { WholeKey(t, n, key); }
      WayFree(t, n, key);
    }
    if t.nodes[n].key == key { AtLeaf(t, n, key); }
  }

  lemma Leaves(p: Place, fkey: seq<Byte>, f: nat, nodeByte: Byte, behind: seq<Byte>)
    requires PartsAt(p, fkey, f, nodeByte, behind)
    ensures !Prefix(p.full, fkey)
  {
    if Prefix(p.full, fkey) { BelowByte(p.full, fkey, f); }
  }

  lemma FromDescribes(full: seq<Byte>, s: nat)
    requires s <= |full|
    ensures Describes(PrefixFrom(full, s), full) && PrefixShaped(PrefixFrom(full, s))
  {
  }

  /** What the last step of put leaves to say. */
  lemma EndPut(t: Tree, t2: Tree, t': Tree, key: U64)
    requires KeptRight(t, t2) && KeptRight(t2, t') && !Turned(t2, key)
    ensures KeptRight(t, t') && !Turned(t', key)
  {
    hide KeptRight;
    hide Kept;
    hide Turned;
    KeptBoth(t, t2, t');
    KeptRightKept(t2, t');
    if Turned(t', key) { TurnedKept(t2, t', key); }
  }

  /** The way ends: at a node that the key leaves, or at a leaf. */
  lemma WayFree(t: Tree, n: Addr, key: U64)
    requires TreeOk(t) && n in t.places && n in t.nodes && Prefix(t.places[n].path, Bytes(key)) && FreeAbove(t, key, |t.places[n].path|)
    requires t.nodes[n].Leaf? || !Prefix(t.places[n].full, Bytes(key))
      || (Kid(t.nodes[n], Bytes(key)[|t.places[n].full|]) == NULL && !TurnsAway(t.nodes[n].prefix, t.places[n]))
    ensures !Turned(t, key)
  {
    hide TreeOk;
    hide Bytes;
    hide Kid;
    hide TurnsAway;
    if b :| TurnsAt(t, key, b) {
      OnWay(t, n, b, key);
    }
  }

  /** Some key lies below every cell but an empty root. */
  lemma {:induction false} KeyBelow(t: Tree, n: Addr) returns (key: U64)
    requires TreeOk(t) && n in t.places && n != t.root
    ensures key in Contents(t) && Prefix(t.places[n].full, Bytes(key))
    decreases KEY_LEN - |t.places[n].path|
  {
    hide TreeOk;
    hide Contents;
    hide Bytes;
    hide Kid;
    hide LayoutOk;
    InNodes(t, n);
    PathPrefix(t, n);
    if t.nodes[n].Leaf? {
      LeafOfPlace(t, n);
      key := t.nodes[n].key;
      AtLeaf(t, n, key);
      PrefixWhole(t.places[n].full);
    } else {
      var b := SomeKid(t, n);
      var s := Kid(t.nodes[n], b);
      KidPlaced(t, n, b);
      Link(t, n, b, s);
      InNodes(t, s);
      key := KeyBelow(t, s);
      PathPrefix(t, s);
      PrefixTrans(t.places[n].full, t.places[s].path, t.places[s].full);
      PrefixTrans(t.places[n].full, t.places[s].full, Bytes(key));
    }
  }

  lemma SomeKid(t: Tree, n: Addr) returns (b: Byte)
    requires TreeOk(t) && IsNode(t, n) && n != t.root
    ensures Kid(t.nodes[n], b) != NULL
  {
    hide TreeOk;
    NodeAt(t, n);
    b :| b in Live(t.nodes[n].layout);
  }

  /** Lookups of all keys are right exactly if no node turns its keys away. */
  lemma HonestExactly(t: Tree)
    requires TreeOk(t)
    ensures Honest(t) <==> forall key | key in Contents(t) :: !Turned(t, key)
  {
    hide TreeOk;
    hide Contents;
    hide Bytes;
    hide TurnsAway;
    if forall key | key in Contents(t) :: !Turned(t, key) {
      forall n | IsNode(t, n) ensures !TurnsAway(t.nodes[n].prefix, t.places[n]) {
        if n == t.root {
          Root(t);
          RootHonest(t.nodes[n].prefix, t.places[n]);
        } else {
          var key := KeyBelow(t, n);
          assert !TurnsAt(t, key, n);
        }
      }
    }
  }

  lemma RootHonest(p: NodePrefix, place: Place)
    requires place.full == []
    ensures !TurnsAway(p, place)
  {
  }

  /** What put compares at a node whose prefix has the right length is a part of all keys below exactly if the prefix is right. */
  lemma RepairableExactly(t: Tree)
    requires TreeOk(t)
    ensures Repairable(t) <==> forall key, n | key in Contents(t) && IsNode(t, n) && RightLength(t, n) && Prefix(t.places[n].full, Bytes(key)) ::
      PrefixShaped(t.nodes[n].prefix) && |t.places[n].path| <= |t.places[n].full| && Prefix(Seen(t.nodes[n].prefix, t.places[n]), Bytes(key))
  {
    hide TreeOk;
    hide Contents;
    hide Bytes;
    hide LayoutOk;
    hide Kid;
    hide TurnsAway;
    hide Right;
    forall n | IsNode(t, n) && RightLength(t, n)
      ensures PrefixShaped(t.nodes[n].prefix) && |t.places[n].path| <= |t.places[n].full|
      ensures PrefixRight(t, n) <==> Seen(t.nodes[n].prefix, t.places[n]) == t.places[n].full
      ensures PrefixRight(t, n) || exists key :: key in Contents(t) && Prefix(t.places[n].full, Bytes(key))
    {
      NodeAt(t, n);
      RightLengthExactly(t.nodes[n].prefix, t.places[n]);
      SeenExactly(t.nodes[n].prefix, t.places[n]);
      if n == t.root {
        Root(t);
        RootHonest(t.nodes[n].prefix, t.places[n]);
      } else {
        var key := KeyBelow(t, n);
      }
    }
    if Repairable(t) {
    } else {
      var n :| IsNode(t, n) && RightLength(t, n) && !PrefixRight(t, n);
      var key :| key in Contents(t) && Prefix(t.places[n].full, Bytes(key));
      assert !Prefix(Seen(t.nodes[n].prefix, t.places[n]), Bytes(key));
    }
  }

  // ----- what remove does -----

  /** remove finds the key in a node with two children that is not an N4: getSecondChild stops the program there. */
  ghost predicate StopsAt(t: Tree, key: U64, l: Addr, n: Addr, c: Byte) {
    && LeafAt(t, l, key) && IsParent(t, n, c, l) && n != t.root && t.nodes[n].layout.count == 2
    && Capacity(t.nodes[n].layout) != 4
  }

  ghost predicate Stops(t: Tree, key: U64) {
    exists l, n, c :: StopsAt(t, key, l, n, c)
  }

  /** Where no crash cut off a removal, a node with two children is an N4. */
  lemma TwoMeansN4(t: Tree, n: Addr)
    requires TreeOk(t) && Quiet(t) && IsNode(t, n) && n != t.root && t.nodes[n].layout.count == 2
    ensures Capacity(t.nodes[n].layout) == 4
  {
    hide TreeOk;
    NodeAt(t, n);
    assert Settled(t.nodes[n].layout);
  }

  lemma QuietNeverStops(t: Tree, key: U64)
    requires TreeOk(t) && Quiet(t)
    ensures !Stops(t, key)
  {
    hide TreeOk;
    hide Kid;
    forall l, n, c | LeafAt(t, l, key) && IsParent(t, n, c, l) && n != t.root ensures !StopsAt(t, key, l, n, c) {
      assert Settled(t.nodes[n].layout);
    }
  }

  /** Removing the key makes node n give way to node s. */
  ghost predicate GivesWay(t: Tree, key: U64, l: Addr, n: Addr, lb: Byte, s: Addr, sb: Byte) {
    && LeafAt(t, l, key) && IsParent(t, n, lb, l) && IsParent(t, n, sb, s) && sb != lb && n != t.root
    && t.nodes[n].layout.count == 2 && IsNode(t, s) && PrefixShaped(t.nodes[n].prefix) && PrefixShaped(t.nodes[s].prefix)
  }

  /** The prefix that s then gets, where it then sits. */
  function JoinedPrefix(t: Tree, n: Addr, s: Addr, sb: Byte): NodePrefix
    requires IsNode(t, n) && IsNode(t, s) && PrefixShaped(t.nodes[n].prefix) && PrefixShaped(t.nodes[s].prefix)
  {
    AddPrefixBefore(t.nodes[s].prefix, t.nodes[n].prefix, sb)
  }

  function JoinedPlace(t: Tree, n: Addr, s: Addr): Place
    requires n in t.places && s in t.places
  {
    Place(t.places[n].path, t.places[s].full)
  }

  /** If removing the key joins two prefixes, the joined one does not turn keys away. */
  ghost predicate JoinsHonestly(t: Tree, key: U64) {
    forall l, n, lb, s, sb | GivesWay(t, key, l, n, lb, s, sb) :: !TurnsAway(JoinedPrefix(t, n, s, sb), JoinedPlace(t, n, s))
  }

  /** If it does, the joined one has a wrong length. */
  ghost predicate JoinsRepairably(t: Tree, key: U64) {
    forall l, n, lb, s, sb | GivesWay(t, key, l, n, lb, s, sb) ::
      var p, place := JoinedPrefix(t, n, s, sb), JoinedPlace(t, n, s);
      p.prefixCount + |place.path| == |place.full| ==> Right(p, place)
  }

  /** If it does, the joined one describes its node. */
  ghost predicate JoinsDescribed(t: Tree, key: U64) {
    forall l, n, lb, s, sb | GivesWay(t, key, l, n, lb, s, sb) :: Describes(JoinedPrefix(t, n, s, sb), t.places[s].full)
  }

  /** There is one such pair of nodes at most. */
  lemma OneGivesWay(t: Tree, l: Addr, n: Addr, lb: Byte, key: U64, s: Addr, sb: Byte, l': Addr, n': Addr, lb': Byte, s': Addr, sb': Byte)
    requires TreeOk(t) && LeafAt(t, l, key) && IsParent(t, n, lb, l) && n != t.root && IsParent(t, n, sb, s) && sb != lb
    requires GivesWay(t, key, l', n', lb', s', sb')
    ensures l == l' && n == n' && lb == lb' && s == s' && sb == sb'
  {
    hide TreeOk;
    OneLeaf(t, l, l', key);
    OneParent(t, n, lb, n', lb', l);
    NodeAt(t, n);
    hide LayoutOk;
    var live := Live(t.nodes[n].layout);
    assert lb in live && sb in live && sb' in live;
    TwoOf(t.nodes[n].layout, lb, sb);
  }

  /** A removal in place is no such case. */
  lemma NoneGivesWay(t: Tree, l: Addr, n: Addr, lb: Byte, key: U64)
    requires TreeOk(t) && LeafAt(t, l, key) && IsParent(t, n, lb, l) && (n == t.root || t.nodes[n].layout.count != 2)
    ensures JoinsHonestly(t, key) && JoinsRepairably(t, key)
  {
    hide TreeOk;
    hide Kid;
    hide TurnsAway;
    hide Right;
    forall l', n', lb', s', sb' | LeafAt(t, l', key) && IsParent(t, n', lb', l') ensures !GivesWay(t, key, l', n', lb', s', sb') {
      OneLeaf(t, l, l', key);
      OneParent(t, n, lb, n', lb', l);
    }
  }

  ghost predicate RemoveImage(t: Tree, image: Tree, key: U64) {
    WithOrWithout(t, image, key) && (Described(t) ==> Described(image)) && CostsOne(t, image)
  }

  lemma RemoveImageOf(t: Tree, t': Tree, key: U64)
    requires Removed(t, t', key) && KeptRight(t, t')
    ensures RemoveImage(t, t', key)
  {
    hide TreeOk;
    hide Contents;
    hide Described;
    KeptRightKept(t, t');
    KeptKeeps(t, t');
  }

  lemma ShrunkSettled(t: Tree, n: Addr, copy: Layout)
    requires IsNode(t, n) && n != t.root && LayoutOk(t.nodes[n].layout) && LayoutOk(copy)
    requires copy.count + 1 == t.nodes[n].layout.count && Sealed(copy)
    requires Capacity(copy) == if t.nodes[n].layout.Packed? then 4 else if t.nodes[n].layout.Indexed? then 16 else 48
    requires !(t.nodes[n].layout.Packed? && t.nodes[n].layout.cap == 4)
    ensures Quiet(t) ==> Settled(copy)
  {
    KindHere(copy);
    hide LayoutOk;
    if Quiet(t) { assert Settled(t.nodes[n].layout); }
  }

  /** Whether remove stops can be told at the key's leaf. */
  lemma StopsHere(t: Tree, key: U64, l: Addr, n: Addr, c: Byte)
    requires TreeOk(t) && LeafAt(t, l, key) && IsParent(t, n, c, l)
    ensures Stops(t, key) <==> n != t.root && t.nodes[n].layout.count == 2 && Capacity(t.nodes[n].layout) != 4
  {
    hide TreeOk;
    hide Kid;
    if n != t.root && t.nodes[n].layout.count == 2 && Capacity(t.nodes[n].layout) != 4 { assert StopsAt(t, key, l, n, c); }
    if Stops(t, key) {
      var l', n', c' :| StopsAt(t, key, l', n', c');
      OneLeaf(t, l, l', key);
      OneParent(t, n, c, n', c', l);
    }
  }

  /** A leaf took its parent's place. */
  lemma LeafUp(t: Tree, t': Tree, n: Addr, c: Byte, l: Addr, key: U64, s: Addr, sb: Byte)
    requires TreeOk(t) && LeafAt(t, l, key) && IsParent(t, n, c, l) && n != t.root && IsParent(t, n, sb, s) && sb != c
    requires s in t.nodes && t.nodes[s].Leaf? && s in t'.nodes && t'.nodes[s].Leaf? && SameElsewhere(t, t', {s}) && Removed(t, t', key)
    ensures JoinsHonestly(t, key) && JoinsRepairably(t, key) && RemoveImage(t, t', key)
    ensures Honest(t) ==> Honest(t')
    ensures Repairable(t) ==> Repairable(t')
    ensures Described(t) ==> Described(t')
    ensures (Clean(t) ==> Clean(t')) && (Quiet(t) ==> Quiet(t'))
  {
    hide TreeOk;
    hide Kid;
    hide TurnsAway;
    hide Right;
    hide Removed;
    forall l', n', lb', s', sb' | LeafAt(t, l', key) && IsParent(t, n', lb', l') ensures !GivesWay(t, key, l', n', lb', s', sb') {
      if GivesWay(t, key, l', n', lb', s', sb') { OneGivesWay(t, l, n, c, key, s, sb, l', n', lb', s', sb'); }
    }
    StepKeptRight(t, t', {s});
    StepQuiet(t, t', {s});
    KeptRightKeeps(t, t');
    KeptKeeps(t, t');
  }

  /** A node took its parent's place, with its own prefix still. */
  lemma NodeUp(t: Tree, t': Tree, n: Addr, sb: Byte, s: Addr, key: U64)
    requires IsNode(t, s) && IsNode(t', s) && t'.nodes[s] == t.nodes[s] && n in t.places && t'.places[s] == JoinedPlace(t, n, s)
    requires TreeOk(t) && SameElsewhere(t, t', {s}) && Removed(t, t', key)
    ensures RemoveImage(t, t', key)
  {
    hide TreeOk;
    hide Removed;
    MergeState(t, t', s);
  }

  /** And with the joined prefix. */
  lemma PrefixUp(t: Tree, t1: Tree, t': Tree, n: Addr, c: Byte, l: Addr, key: U64, s: Addr, sb: Byte)
    requires TreeOk(t) && LeafAt(t, l, key) && IsParent(t, n, c, l) && n != t.root && IsParent(t, n, sb, s) && sb != c
    requires IsNode(t, n) && IsNode(t, s) && IsNode(t1, s) && t.nodes[n].layout.count == 2 && t1.nodes[s] == t.nodes[s]
    requires PrefixShaped(t.nodes[n].prefix) && PrefixShaped(t.nodes[s].prefix) && SameElsewhere(t, t1, {s})
    requires t1.places[s] == JoinedPlace(t, n, s)
    requires t' == WithCell(t1, s, Node(t.nodes[s].level, JoinedPrefix(t, n, s, sb), t.nodes[s].layout))
    ensures Honest(t) ==> (Honest(t') <==> JoinsHonestly(t, key))
    ensures Repairable(t) ==> (Repairable(t') <==> JoinsRepairably(t, key))
    ensures Described(t) && JoinsDescribed(t, key) ==> Described(t')
    ensures (Clean(t) ==> Clean(t')) && (Quiet(t) ==> Quiet(t'))
  {
    hide TreeOk;
    hide Kid;
    hide TurnsAway;
    hide Right;
    hide Describes;
    hide AddPrefixBefore;
    hide Settled;
    assert SameElsewhere(t, t', {s});
    Link(t, n, sb, s);
    MergeState(t, t', s);
    assert GivesWay(t, key, l, n, c, s, sb);
    forall l', n', lb', s', sb' | GivesWay(t, key, l', n', lb', s', sb') ensures n' == n && s' == s && sb' == sb {
      OneGivesWay(t, l, n, c, key, s, sb, l', n', lb', s', sb');
    }
    if Clean(t) {
      assert PrefixRight(t, n) && PrefixRight(t, s);
      JoinedRight(t, n, s, sb);
    }
  }

  /** After the node gave way, whether its child turns keys away decides for the tree. */
  lemma MergeState(t: Tree, t': Tree, s: Addr)
    requires TreeOk(t) && IsNode(t, s) && IsNode(t', s) && SameElsewhere(t, t', {s})
    ensures Honest(t) ==> (Honest(t') <==> !TurnsAway(t'.nodes[s].prefix, t'.places[s]))
    ensures Repairable(t) ==> (Repairable(t') <==> (t'.nodes[s].prefix.prefixCount + |t'.places[s].path| == |t'.places[s].full| ==> PrefixRight(t', s)))
    ensures Clean(t) && PrefixRight(t', s) ==> Clean(t')
    ensures Described(t) && Describes(t'.nodes[s].prefix, t'.places[s].full) ==> Described(t')
    ensures Quiet(t) && (Settled(t.nodes[s].layout) ==> Settled(t'.nodes[s].layout)) && s != t.root ==> Quiet(t')
  {
    hide TreeOk;
    hide TurnsAway;
    hide Right;
    hide Describes;
    hide Settled;
    if Honest(t) && !TurnsAway(t'.nodes[s].prefix, t'.places[s]) {
      forall a | IsNode(t', a) ensures !TurnsAway(t'.nodes[a].prefix, t'.places[a]) {
        if a != s { assert IsNode(t, a); }
      }
    }
    if Repairable(t) && (t'.nodes[s].prefix.prefixCount + |t'.places[s].path| == |t'.places[s].full| ==> PrefixRight(t', s)) {
      forall a | IsNode(t', a) && t'.nodes[a].prefix.prefixCount + |t'.places[a].path| == |t'.places[a].full| ensures PrefixRight(t', a) {
        if a != s { assert IsNode(t, a) && PrefixRight(t, a); }
      }
    }
    if Clean(t) && PrefixRight(t', s) {
      forall a | IsNode(t', a) ensures PrefixRight(t', a) {
        if a != s { assert PrefixRight(t, a); }
      }
    }
    if Quiet(t) && (Settled(t.nodes[s].layout) ==> Settled(t'.nodes[s].layout)) && s != t.root {
      forall a | IsNode(t', a) && a != t'.root ensures Settled(t'.nodes[a].layout) {
        if a != s { assert IsNode(t, a) && Settled(t.nodes[a].layout); }
      }
    }
  }

  // ----- what a crash inside a removal leaves -----

  /**
   A removal that shrinks its node first clears the slot in the linked node. If a crash keeps that store and no more, a later
   remove stops exactly when the node was an N16 with three children, and the key is in one of the two leaves left in it.
   */
  lemma ClearedStops(t: Tree, n: Addr, c: Byte, cell': Cell, l: Addr, key: U64, other: U64)
    requires TreeOk(t) && Quiet(t) && CanRemove(t, n, c, cell', l, key) && n != t.root
    requires Capacity(cell'.layout) == Capacity(t.nodes[n].layout) && LayoutOk(t.nodes[n].layout)
    requires t.nodes[n].layout.count == Fewest(t.nodes[n].layout) == cell'.layout.count + 1
    ensures TreeOk(WithoutLeaf(t, n, cell', l))
    ensures Stops(WithoutLeaf(t, n, cell', l), other) <==>
      Capacity(t.nodes[n].layout) == 16 && exists d, l' :: d != c && IsParent(t, n, d, l') && LeafAt(t, l', other)
  {
    var t' := WithoutLeaf(t, n, cell', l);
    hide Bytes;
    hide TreeOk;
    hide Contents;
    hide Fits;
    hide Kid;
    hide Settled;
    LeafRemoved(t, n, c, cell', l, key);
    KindHere(t.nodes[n].layout);
    hide LayoutOk;
    if Stops(t', other) {
      var l', m, d :| StopsAt(t', other, l', m, d);
      if m != n { TwoMeansN4(t, m); }
      ClearedParent(t, n, c, cell', l, key, d, l');
    }
    if Capacity(t.nodes[n].layout) == 16 && exists d, l' :: d != c && IsParent(t, n, d, l') && LeafAt(t, l', other) {
      var d, l' :| d != c && IsParent(t, n, d, l') && LeafAt(t, l', other);
      StillStops(t, n, c, cell', l, key, other, d, l');
    }
  }

  lemma StillStops(t: Tree, n: Addr, c: Byte, cell': Cell, l: Addr, key: U64, other: U64, d: Byte, l': Addr)
    requires TreeOk(t) && CanRemove(t, n, c, cell', l, key) && n != t.root && Capacity(cell'.layout) == 16 && cell'.layout.count == 2
    requires d != c && IsParent(t, n, d, l') && LeafAt(t, l', other)
    ensures Stops(WithoutLeaf(t, n, cell', l), other)
  {
    hide TreeOk;
    hide Kid;
    hide Fits;
    Link(t, n, d, l');
    if l' == l { OneParent(t, n, c, n, d, l); }
    assert StopsAt(WithoutLeaf(t, n, cell', l), other, l', n, d);
  }

  lemma ClearedParent(t: Tree, n: Addr, c: Byte, cell': Cell, l: Addr, key: U64, d: Byte, l': Addr)
    requires CanRemove(t, n, c, cell', l, key) && IsParent(WithoutLeaf(t, n, cell', l), n, d, l')
    ensures d != c && IsParent(t, n, d, l')
  {
    hide Kid;
  }

  function FewestOf(capacity: nat): nat {
    if capacity == 4 then 2 else if capacity == 16 then 3 else if capacity == 48 then 12 else 37
  }

  lemma KindHere(l: Layout)
    requires LayoutOk(l)
    ensures Capacity(l) in {4, 16, 48, 256} && Fewest(l) == FewestOf(Capacity(l)) && (Settled(l) <==> l.count >= FewestOf(Capacity(l)) && Sealed(l))
    ensures Threshold(l) == if Capacity(l) == 4 then 0 else Fewest(l)
  {
  }

  // ----- joins -----

  /** A join of two right prefixes is right. */
  lemma JoinedRight(t: Tree, n: Addr, s: Addr, sb: Byte)
    requires TreeOk(t) && IsNode(t, n) && IsNode(t, s) && IsParent(t, n, sb, s) && PrefixRight(t, n) && PrefixRight(t, s)
    ensures PrefixShaped(t.nodes[n].prefix) && PrefixShaped(t.nodes[s].prefix)
    ensures Right(JoinedPrefix(t, n, s, sb), JoinedPlace(t, n, s))
  {
    hide TreeOk;
    hide Kid;
    hide Bytes;
    hide LayoutOk;
    hide Fits;
    JoinPlaces(t, n, s, sb);
    var full, upper := t.places[s].full, |t.places[n].full|;
    Joined(full, upper, |t.places[n].path|);
  }

  lemma JoinPlaces(t: Tree, n: Addr, s: Addr, sb: Byte)
    requires TreeOk(t) && IsNode(t, n) && IsNode(t, s) && IsParent(t, n, sb, s)
    ensures PrefixShaped(t.nodes[n].prefix) && PrefixShaped(t.nodes[s].prefix)
    ensures var full, upper := t.places[s].full, |t.places[n].full|;
      && upper < |full| < KEY_LEN && full[..upper] == t.places[n].full && full[upper] == sb
      && |t.places[n].path| <= upper && full[..|t.places[n].path|] == t.places[n].path && |t.places[s].path| == upper + 1
  {
    hide TreeOk;
    hide Kid;
    hide Bytes;
    hide LayoutOk;
    hide Fits;
    NodeAt(t, n);
    NodeAt(t, s);
    Link(t, n, sb, s);
    AcrossLink(t, n, sb, s);
    PrefixLast(t.places[n].full, sb, t.places[s].full);
  }

  /**
   Where every prefix describes its node, whether a removal may turn keys away can be told from lengths: of the path, of the
   two nodes' bytes and of the two prefixes.
   */
  lemma JoinsByLength(t: Tree, key: U64, l: Addr, n: Addr, lb: Byte, s: Addr, sb: Byte)
    requires TreeOk(t) && Described(t) && GivesWay(t, key, l, n, lb, s, sb)
    ensures var full, upper, a := t.places[s].full, |t.places[n].full|, |t.places[n].path|;
      var from, c := upper - t.nodes[n].prefix.prefixCount, |full| - t.nodes[s].prefix.prefixCount;
      && 0 <= from <= upper < |full| && 0 <= c <= |full| && a <= upper
      && JoinedPrefix(t, n, s, sb) == JoinOf(full, upper, from, c) && JoinedPlace(t, n, s) == Place(full[..a], full)
      && (TurnsAway(JoinedPrefix(t, n, s, sb), JoinedPlace(t, n, s)) ==> a < c && c != upper + 1 && 0 <= JoinOffset(upper, a, from, c) < MAX_STORED)
  {
    hide TreeOk;
    hide Kid;
    hide Bytes;
    hide LayoutOk;
    hide TurnsAway;
    JoinPlaces(t, n, s, sb);
    var full, upper, a := t.places[s].full, |t.places[n].full|, |t.places[n].path|;
    assert Describes(t.nodes[n].prefix, t.places[n].full) && Describes(t.nodes[s].prefix, full);
    JoinedExactly(|full|, upper, a, upper - t.nodes[n].prefix.prefixCount, |full| - t.nodes[s].prefix.prefixCount);
  }
}
