/**
 The ROART tree in memory. A node's level never changes; what its prefix says is not part of the tree's shape, since a
 crash may leave any. Every store of an operation is a lemma about the map that the memory stands for.
 */
module RoartModel {
  import opened Bits
  import opened Options
  import opened Addresses
  import opened Prefixes
  import opened RoartKeys
  import opened RoartLayouts

  const MAX_STORED := 4

  /** A compressed prefix: its length, and four bytes of it at most. */
  datatype NodePrefix = NodePrefix(prefixCount: nat, bytes: seq<Byte>)

  datatype Cell =
    | Leaf(key: U64, value: U64)
    | Node(level: nat, prefix: NodePrefix, layout: Layout)

  /** Where a cell sits: the bytes above it, and the bytes all keys below it share. */
  datatype Place = Place(path: seq<Byte>, full: seq<Byte>)

  /** Memory, with places as an annotation that no operation reads; cells without a place are garbage. */
  datatype Tree = Tree(root: Addr, nodes: map<Addr, Cell>, places: map<Addr, Place>)

  function Min(a: int, b: int): int {
    if a < b then a else b
  }

  /** The prefix that covers full from byte s on. */
  function PrefixFrom(full: seq<Byte>, s: nat): NodePrefix
    requires s <= |full|
  {
    NodePrefix(|full| - s, full[s..][..Min(MAX_STORED, |full| - s)])
  }

  /** A prefix stores as many of its bytes as fit; whether they are right, the tree's shape does not depend on. */
  predicate PrefixShaped(p: NodePrefix) {
    |p.bytes| == Min(MAX_STORED, p.prefixCount)
  }

  ghost function Kid(cell: Cell, b: Byte): Addr {
    if cell.Node? && LayoutOk(cell.layout) then Child(cell.layout, b) else NULL
  }

  ghost predicate ChildOk(t: Tree, full: seq<Byte>, b: Byte, child: Addr) {
    child != NULL ==> child in t.places && t.places[child].path == full + [b]
  }

  /** What a cell must be by itself to sit at a place. */
  ghost predicate Fits(cell: Cell, p: Place, isRoot: bool) {
    Prefix(p.path, p.full) &&
    match cell
    case Leaf(key, _) => p.full == Bytes(key) && !isRoot
    case Node(level, prefix, layout) =>
      && level == |p.full| < KEY_LEN && PrefixShaped(prefix) && LayoutOk(layout)
      && (if isRoot then layout.Direct? && prefix.prefixCount == 0 else layout.count >= 2)
  }

  ghost predicate CellOk(t: Tree, a: Addr)
    requires a in t.places && a in t.nodes
  {
    Fits(t.nodes[a], t.places[a], a == t.root)
    && forall b: Byte :: ChildOk(t, t.places[a].full, b, Kid(t.nodes[a], b))
  }

  ghost predicate IsParent(t: Tree, p: Addr, b: Byte, a: Addr) {
    p in t.places && p in t.nodes && t.nodes[p].Node? && Kid(t.nodes[p], b) == a != NULL
  }

  ghost predicate HasParent(t: Tree, a: Addr) {
    exists p, b: Byte :: IsParent(t, p, b, a)
  }

  ghost predicate RootOk(t: Tree) {
    NULL !in t.nodes && t.root in t.places && t.places[t.root] == Place([], [])
  }

  ghost predicate TreeOk(t: Tree) {
    && RootOk(t)
    && (forall a | a in t.places :: a in t.nodes && CellOk(t, a))
    && (forall a {:trigger HasParent(t, a)} | a in t.places && a != t.root :: HasParent(t, a))
  }

  // ----- how cells lie in the key space -----

  lemma InNodes(t: Tree, a: Addr)
    requires TreeOk(t) && a in t.places
    ensures a in t.nodes && CellOk(t, a) && a != NULL
    ensures RootOk(t)
  {
  }

  lemma Root(t: Tree)
    requires TreeOk(t)
    ensures RootOk(t) && t.root in t.nodes && t.nodes[t.root].Node? && t.nodes[t.root].layout.Direct?
  {
  }

  lemma Parent(t: Tree, a: Addr) returns (p: Addr, b: Byte)
    requires TreeOk(t) && a in t.places && a != t.root
    ensures IsParent(t, p, b, a)
  {
    assert HasParent(t, a);
    p, b :| IsParent(t, p, b, a);
  }

  /** n has a child on the way to what lies at a path. */
  ghost predicate Above(t: Tree, n: Addr, path: seq<Byte>)
    requires n in t.places && n in t.nodes
  {
    var full := t.places[n].full;
    t.nodes[n].Node? && Prefix(full, path) && |full| < |path| && Kid(t.nodes[n], path[|full|]) != NULL
  }

  lemma Link(t: Tree, p: Addr, b: Byte, a: Addr)
    requires TreeOk(t) && IsParent(t, p, b, a)
    ensures a in t.places && p in t.nodes && a != t.root && a != NULL && t.places[a].path == t.places[p].full + [b]
    ensures Prefix(t.places[p].path, t.places[p].full) && Prefix(t.places[p].full, t.places[a].path)
    ensures Prefix(t.places[p].path, t.places[a].path) && |t.places[p].full| + 1 == |t.places[a].path| <= KEY_LEN
    ensures Above(t, p, t.places[a].path)
  {
    hide HasParent;
    hide Kid;
    hide LayoutOk;
    hide Bytes;
    InNodes(t, p);
    assert ChildOk(t, t.places[p].full, b, a);
    PrefixTrans(t.places[p].path, t.places[p].full, t.places[a].path);
  }

  /** Of two cells one above the other, the upper one has a child on the way to the lower one. */
  lemma {:induction false} Descends(t: Tree, n: Addr, b: Addr)
    requires TreeOk(t) && n in t.places && b in t.places && Prefix(t.places[n].path, t.places[b].path)
    ensures n in t.nodes
    ensures n == b || Above(t, n, t.places[b].path)
    decreases |t.places[n].path| + |t.places[b].path|, 1
  {
    hide TreeOk;
    hide CellOk;
    hide Kid;
    InNodes(t, n);
    var path := t.places[b].path;
    if n == b {
    } else if b == t.root {
      var p, c := Parent(t, n);
      Link(t, p, c, n);
    } else {
      var a, c := Parent(t, b);
      Link(t, a, c, b);
      if |t.places[n].path| <= |t.places[a].path| {
        PrefixChain(t.places[n].path, t.places[a].path, path);
        Descends(t, n, a);
        if n != a {
          AboveMore(t, n, t.places[a].path, path);
        }
      } else {
        PrefixChain(t.places[a].path, t.places[n].path, path);
        Descends(t, a, n);
        SamePath(t, n, b, a, c);
      }
    }
  }

  lemma AboveMore(t: Tree, n: Addr, path: seq<Byte>, more: seq<Byte>)
    requires n in t.places && n in t.nodes && Above(t, n, path) && Prefix(path, more)
    ensures Above(t, n, more)
  {
    hide Kid;
    PrefixTrans(t.places[n].full, path, more);
  }

  lemma {:induction false} SamePath(t: Tree, n: Addr, b: Addr, a: Addr, c: Byte)
    requires TreeOk(t) && n in t.places && b in t.places && IsParent(t, a, c, b)
    requires t.places[n].path == t.places[b].path
    ensures n == b
    decreases |t.places[n].path| + |t.places[b].path|, 0
  {
    hide TreeOk;
    hide CellOk;
    hide Kid;
    Link(t, a, c, b);
    InNodes(t, n);
    var a', c' := Parent(t, n);
    Link(t, a', c', n);
    var path, full := t.places[n].path, t.places[a].full;
    assert path[..|path| - 1] == full == t.places[a'].full && path[|path| - 1] == c == c';
    if |t.places[a].path| <= |t.places[a'].path| {
      PrefixChain(t.places[a].path, t.places[a'].path, full);
      Descends(t, a, a');
    } else {
      PrefixChain(t.places[a'].path, t.places[a].path, full);
      Descends(t, a', a);
    }
  }

  /** Only one slot points to a cell. */
  lemma OneParent(t: Tree, a: Addr, b: Byte, a': Addr, b': Byte, n: Addr)
    requires TreeOk(t) && IsParent(t, a, b, n) && IsParent(t, a', b', n)
    ensures a == a' && b == b'
  {
    hide TreeOk;
    hide CellOk;
    hide Kid;
    Link(t, a, b, n);
    Link(t, a', b', n);
    var path, full := t.places[n].path, t.places[a].full;
    assert path[..|path| - 1] == full == t.places[a'].full && path[|path| - 1] == b == b';
    if |t.places[a].path| <= |t.places[a'].path| {
      PrefixChain(t.places[a].path, t.places[a'].path, full);
      Descends(t, a, a');
    } else {
      PrefixChain(t.places[a'].path, t.places[a].path, full);
      Descends(t, a', a);
    }
  }

  // ----- the map a tree stands for -----

  ghost predicate LeafAt(t: Tree, a: Addr, key: U64) {
    a in t.places && a in t.nodes && t.nodes[a].Leaf? && t.nodes[a].key == key
  }

  ghost predicate LeafIs(t: Tree, a: Addr, key: U64, value: U64) {
    a in t.places && a in t.nodes && t.nodes[a] == Leaf(key, value)
  }

  ghost predicate Has(t: Tree, key: U64) {
    exists a :: LeafAt(t, a, key)
  }

  ghost function Keys(t: Tree): set<U64>
    requires TreeOk(t)
  {
    set a | a in t.places && t.nodes[a].Leaf? :: t.nodes[a].key
  }

  ghost function Contents(t: Tree): (m: map<U64, U64>)
    requires TreeOk(t)
  {
    map key | key in Keys(t) :: LeafOf(t, key)
  }

  ghost function LeafOf(t: Tree, key: U64): (value: U64)
    requires TreeOk(t) && key in Keys(t)
    ensures exists a :: LeafIs(t, a, key, value)
  {
    var a :| a in t.places && LeafAt(t, a, key);
    assert LeafIs(t, a, key, t.nodes[a].value);
    t.nodes[a].value
  }

  /** A key sits in one leaf only. */
  lemma OneLeaf(t: Tree, a: Addr, b: Addr, key: U64)
    requires TreeOk(t) && LeafAt(t, a, key) && LeafAt(t, b, key)
    ensures a == b
  {
    InNodes(t, a);
    InNodes(t, b);
    if |t.places[a].path| <= |t.places[b].path| {
      PrefixChain(t.places[a].path, t.places[b].path, Bytes(key));
      Descends(t, a, b);
    } else {
      PrefixChain(t.places[b].path, t.places[a].path, Bytes(key));
      Descends(t, b, a);
    }
  }

  lemma AtLeaf(t: Tree, a: Addr, key: U64)
    requires TreeOk(t) && LeafAt(t, a, key)
    ensures key in Contents(t) && Contents(t)[key] == t.nodes[a].value
  {
    var b :| b in t.places && LeafAt(t, b, key) && t.nodes[b].value == LeafOf(t, key);
    OneLeaf(t, a, b, key);
  }

  /** What the leaves say is the map. */
  lemma ContentsAre(t: Tree, m: map<U64, U64>)
    requires TreeOk(t)
    requires forall a, key | LeafAt(t, a, key) :: key in m && m[key] == t.nodes[a].value
    requires forall key | key in m :: Has(t, key)
    ensures Contents(t) == m
  {
    hide TreeOk;
    forall key | key in Contents(t) ensures key in m && m[key] == Contents(t)[key] {
      assert key in Keys(t);
      assert LeafOf(t, key) == Contents(t)[key];
    }
    forall key | key in m ensures key in Contents(t) {
      var a :| LeafAt(t, a, key);
      assert t.nodes[a].key in Keys(t);
    }
  }

  /** From a cell whose path a present key shares, the key's next nibble leads on to its leaf. */
  lemma Toward(t: Tree, n: Addr, key: U64)
    requires TreeOk(t) && Has(t, key) && n in t.places && Prefix(t.places[n].path, Bytes(key))
    ensures n in t.nodes && (LeafAt(t, n, key) || Above(t, n, Bytes(key)))
  {
    var b :| LeafAt(t, b, key);
    InNodes(t, b);
    InNodes(t, n);
    if |t.places[n].path| <= |t.places[b].path| {
      PrefixChain(t.places[n].path, t.places[b].path, Bytes(key));
      Descends(t, n, b);
      if n != b {
        AboveMore(t, n, t.places[b].path, Bytes(key));
      }
    } else {
      PrefixChain(t.places[b].path, t.places[n].path, Bytes(key));
      Descends(t, b, n);
    }
  }

  ghost predicate SameContents(t: Tree, t': Tree) {
    TreeOk(t) && TreeOk(t') && Contents(t') == Contents(t)
  }

  /** t' is t with key set to value, and nothing else changed. */
  ghost predicate Updated(t: Tree, t': Tree, key: U64, value: U64) {
    TreeOk(t) && TreeOk(t') && Contents(t') == Contents(t)[key := value]
  }

  /** t' is t without key, and nothing else changed. */
  ghost predicate Removed(t: Tree, t': Tree, key: U64) {
    TreeOk(t) && TreeOk(t') && Contents(t') == Contents(t) - {key}
  }

  lemma FindLeaf(t: Tree, key: U64) returns (a: Addr)
    requires TreeOk(t) && key in Contents(t)
    ensures LeafIs(t, a, key, Contents(t)[key])
  {
    var value := LeafOf(t, key);
    hide TreeOk;
    a :| LeafIs(t, a, key, value);
  }

  lemma LeavesSame(t: Tree, t': Tree)
    requires TreeOk(t) && TreeOk(t')
    requires forall a, key, value :: LeafIs(t', a, key, value) <==> LeafIs(t, a, key, value)
    ensures SameContents(t, t')
  {
    hide TreeOk;
    forall a, key | LeafAt(t', a, key) ensures key in Contents(t) && Contents(t)[key] == t'.nodes[a].value {
      assert LeafIs(t', a, key, t'.nodes[a].value);
      AtLeaf(t, a, key);
    }
    forall key | key in Contents(t) ensures Has(t', key) {
      var a := FindLeaf(t, key);
      assert LeafAt(t', a, key);
    }
    ContentsAre(t', Contents(t));
  }

  /** One leaf more, or one leaf with a new value. */
  lemma LeafMore(t: Tree, t': Tree, b: Addr, key: U64, value: U64)
    requires TreeOk(t) && TreeOk(t')
    requires LeafIs(t', b, key, value) && (b in t.places ==> LeafAt(t, b, key))
    requires forall a, k, v | a != b :: LeafIs(t', a, k, v) <==> LeafIs(t, a, k, v)
    ensures Updated(t, t', key, value)
  {
    hide TreeOk;
    var m := Contents(t)[key := value];
    forall a, k | LeafAt(t', a, k) ensures k in m && m[k] == t'.nodes[a].value {
      assert LeafIs(t', a, k, t'.nodes[a].value);
      if a != b {
        AtLeaf(t, a, k);
        if k == key {
          OneLeaf(t', a, b, k);
        }
      }
    }
    forall k | k in m ensures Has(t', k) {
      if k == key {
        assert LeafAt(t', b, k);
      } else {
        var a := FindLeaf(t, k);
        assert LeafIs(t', a, k, Contents(t)[k]) && LeafAt(t', a, k);
      }
    }
    ContentsAre(t', m);
  }

  /** One leaf less. */
  lemma LeafLess(t: Tree, t': Tree, b: Addr, key: U64)
    requires TreeOk(t) && TreeOk(t') && LeafAt(t, b, key) && b !in t'.places
    requires forall a, k, v | a != b :: LeafIs(t', a, k, v) <==> LeafIs(t, a, k, v)
    ensures Removed(t, t', key)
  {
    hide TreeOk;
    var m := Contents(t) - {key};
    forall a, k | LeafAt(t', a, k) ensures k in m && m[k] == t'.nodes[a].value {
      assert LeafIs(t', a, k, t'.nodes[a].value);
      AtLeaf(t, a, k);
      if k == key {
        OneLeaf(t, a, b, k);
      }
    }
    forall k | k in m ensures Has(t', k) {
      var a := FindLeaf(t, k);
      assert LeafIs(t', a, k, Contents(t)[k]) && LeafAt(t', a, k);
    }
    ContentsAre(t', m);
  }

  // ----- stores -----

  function WithCell(t: Tree, a: Addr, cell: Cell): Tree {
    t.(nodes := t.nodes[a := cell])
  }

  /** cell' is cell with x as the child for b. */
  ghost predicate CellRepointed(cell: Cell, cell': Cell, b: Byte, x: Addr) {
    && cell.Node? && cell'.Node? && cell'.level == cell.level && cell'.prefix == cell.prefix
    && forall c: Byte :: Kid(cell', c) == if c == b then x else Kid(cell, c)
  }

  lemma KidPlaced(t: Tree, a: Addr, b: Byte)
    requires TreeOk(t) && a in t.places && a in t.nodes && Kid(t.nodes[a], b) != NULL
    ensures IsParent(t, a, b, Kid(t.nodes[a], b)) && ChildOk(t, t.places[a].full, b, Kid(t.nodes[a], b))
  {
    hide LayoutOk;
    InNodes(t, a);
  }

  /** A cell that nothing happened to, nor to the places of its children. */
  lemma OtherCell(t: Tree, t': Tree, a: Addr)
    requires TreeOk(t) && a in t.places && a in t.nodes && a in t'.places && a in t'.nodes
    requires t'.nodes[a] == t.nodes[a] && t'.places[a] == t.places[a] && t'.root == t.root
    requires forall b: Byte :: var y := Kid(t.nodes[a], b);
      y != NULL ==> y in t'.places && y in t.places && t'.places[y].path == t.places[y].path
    ensures CellOk(t', a)
  {
    hide TreeOk;
    hide Kid;
    hide Fits;
    InNodes(t, a);
    forall b: Byte ensures ChildOk(t', t.places[a].full, b, Kid(t.nodes[a], b)) {
      assert ChildOk(t, t.places[a].full, b, Kid(t.nodes[a], b));
    }
  }

  /** A cell with other contents but the same children, at the same place. */
  ghost predicate Twin(cell: Cell, cell': Cell) {
    (cell.Leaf? <==> cell'.Leaf?) && (cell.Leaf? ==> cell'.key == cell.key) && forall b: Byte :: Kid(cell', b) == Kid(cell, b)
  }

  lemma ReshapedOk(t: Tree, a: Addr, cell': Cell)
    requires TreeOk(t) && a in t.places && a in t.nodes && Twin(t.nodes[a], cell') && Fits(cell', t.places[a], a == t.root)
    ensures TreeOk(WithCell(t, a, cell'))
  {
    hide Kid;
    hide Fits;
    hide HasParent;
    var t' := WithCell(t, a, cell');
    InNodes(t, a);
    forall b | b in t'.places ensures b in t'.nodes && CellOk(t', b) {
      InNodes(t, b);
      forall c: Byte ensures ChildOk(t', t.places[b].full, c, Kid(t'.nodes[b], c)) {
        assert ChildOk(t, t.places[b].full, c, Kid(t.nodes[b], c));
      }
    }
    forall b | b in t'.places && b != t'.root ensures HasParent(t', b) {
      var p, c := Parent(t, b);
      StillParent(t, a, cell', p, c, b);
    }
  }

  lemma StillParent(t: Tree, a: Addr, cell': Cell, p: Addr, c: Byte, b: Addr)
    requires a in t.nodes && Twin(t.nodes[a], cell') && IsParent(t, p, c, b)
    ensures HasParent(WithCell(t, a, cell'), b)
  {
    hide Kid;
    assert IsParent(WithCell(t, a, cell'), p, c, b);
  }

  /** A node may get another prefix or other arrays, if they say the same. */
  lemma Reshaped(t: Tree, a: Addr, cell': Cell)
    requires TreeOk(t) && a in t.places && a in t.nodes && t.nodes[a].Node?
    requires Twin(t.nodes[a], cell') && Fits(cell', t.places[a], a == t.root)
    ensures SameContents(t, WithCell(t, a, cell'))
  {
    hide TreeOk;
    hide Kid;
    hide Contents;
    hide Fits;
    ReshapedOk(t, a, cell');
    LeavesSame(t, WithCell(t, a, cell'));
  }

  lemma ValueSet(t: Tree, a: Addr, key: U64, value: U64)
    requires TreeOk(t) && LeafAt(t, a, key)
    ensures Updated(t, WithCell(t, a, Leaf(key, value)), key, value)
  {
    hide TreeOk;
    hide Contents;
    hide Bytes;
    InNodes(t, a);
    ReshapedOk(t, a, Leaf(key, value));
    LeafMore(t, WithCell(t, a, Leaf(key, value)), a, key, value);
  }

  /** Fresh memory, not linked yet. */
  lemma Allocated(t: Tree, a: Addr, cell: Cell)
    requires TreeOk(t) && a != NULL && a !in t.nodes
    ensures SameContents(t, WithCell(t, a, cell))
  {
    hide Kid;
    hide Fits;
    hide HasParent;
    hide Contents;
    var t' := WithCell(t, a, cell);
    forall b | b in t'.places ensures b in t'.nodes && CellOk(t', b) {
      InNodes(t, b);
      forall c: Byte ensures ChildOk(t', t.places[b].full, c, Kid(t'.nodes[b], c)) {
        assert ChildOk(t, t.places[b].full, c, Kid(t.nodes[b], c));
      }
    }
    forall b | b in t'.places && b != t'.root ensures HasParent(t', b) {
      var p, c := Parent(t, b);
      ParentKept(t, t', p, c, b);
    }
    assert TreeOk(t');
    LeavesSame(t, t');
  }

  lemma ParentKept(t: Tree, t': Tree, p: Addr, c: Byte, b: Addr)
    requires IsParent(t, p, c, b) && p in t'.places && p in t'.nodes && t'.nodes[p].Node? && Kid(t'.nodes[p], c) == b
    ensures HasParent(t', b)
  {
    hide Kid;
    assert IsParent(t', p, c, b);
  }

  // ----- a new leaf in an empty slot -----

  ghost predicate CanAdd(t: Tree, p: Addr, cell': Cell, b: Addr, key: U64, value: U64) {
    && p in t.places && p in t.nodes && Fits(cell', t.places[p], p == t.root)
    && Prefix(t.places[p].full, Bytes(key)) && |t.places[p].full| < KEY_LEN
    && var c := Bytes(key)[|t.places[p].full|];
    && Kid(t.nodes[p], c) == NULL && CellRepointed(t.nodes[p], cell', c, b)
    && b != NULL && b !in t.places && b in t.nodes && t.nodes[b] == Leaf(key, value)
  }

  function WithLeaf(t: Tree, p: Addr, cell': Cell, b: Addr, key: U64): Tree
    requires p in t.places && |t.places[p].full| < KEY_LEN
  {
    var full := t.places[p].full;
    Tree(t.root, t.nodes[p := cell'], t.places[b := Place(full + [Bytes(key)[|full|]], Bytes(key))])
  }

  lemma AddedCell(t: Tree, p: Addr, cell': Cell, b: Addr, key: U64, value: U64, a: Addr)
    requires TreeOk(t) && CanAdd(t, p, cell', b, key, value) && (a in t.places || a == b)
    ensures var t' := WithLeaf(t, p, cell', b, key); a in t'.nodes && a in t'.places && CellOk(t', a)
  {
    hide TreeOk;
    hide LayoutOk;
    hide Bytes;
    var t', full := WithLeaf(t, p, cell', b, key), t.places[p].full;
    InNodes(t, p);
    if a == b {
      hide Kid;
      PrefixNext(full, Bytes(key));
      forall c: Byte ensures ChildOk(t', t'.places[b].full, c, Kid(t'.nodes[b], c)) { LeafKids(t'.nodes[b], c); }
    } else if a == p {
      hide Kid;
      hide Fits;
      forall c: Byte ensures ChildOk(t', full, c, Kid(cell', c)) {
        assert ChildOk(t, full, c, Kid(t.nodes[p], c));
      }
    } else {
      hide Kid;
      hide Fits;
      InNodes(t, a);
      forall c: Byte ensures var y := Kid(t.nodes[a], c);
        y != NULL ==> y in t'.places && y in t.places && t'.places[y].path == t.places[y].path
      {
        if Kid(t.nodes[a], c) != NULL { KidPlaced(t, a, c); }
      }
      OtherCell(t, t', a);
    }
  }

  lemma LeafKids(cell: Cell, c: Byte)
    requires cell.Leaf?
    ensures Kid(cell, c) == NULL
  {
  }

  lemma AddedHasParent(t: Tree, p: Addr, cell': Cell, b: Addr, key: U64, value: U64, a: Addr)
    requires TreeOk(t) && CanAdd(t, p, cell', b, key, value) && (a in t.places || a == b) && a != t.root
    ensures HasParent(WithLeaf(t, p, cell', b, key), a)
  {
    hide TreeOk;
    hide Fits;
    hide Kid;
    hide Bytes;
    var t' := WithLeaf(t, p, cell', b, key);
    if a == b {
      assert IsParent(t', p, Bytes(key)[|t.places[p].full|], b);
    } else {
      var q, c := Parent(t, a);
      ParentKept(t, t', q, c, a);
    }
  }

  lemma LeafAdded(t: Tree, p: Addr, cell': Cell, b: Addr, key: U64, value: U64)
    requires TreeOk(t) && CanAdd(t, p, cell', b, key, value)
    ensures Updated(t, WithLeaf(t, p, cell', b, key), key, value)
  {
    hide Fits;
    hide Kid;
    hide Bytes;
    hide CellOk;
    hide HasParent;
    hide Contents;
    Root(t);
    InNodes(t, p);
    var t' := WithLeaf(t, p, cell', b, key);
    forall a | a in t'.places ensures a in t'.nodes && CellOk(t', a) {
      AddedCell(t, p, cell', b, key, value, a);
    }
    forall a | a in t'.places && a != t'.root ensures HasParent(t', a) {
      AddedHasParent(t, p, cell', b, key, value, a);
    }
    assert TreeOk(t');
    LeafMore(t, t', b, key, value);
  }

  // ----- a leaf less -----

  ghost predicate CanRemove(t: Tree, p: Addr, c: Byte, cell': Cell, l: Addr, key: U64) {
    && IsParent(t, p, c, l) && LeafAt(t, l, key)
    && Fits(cell', t.places[p], p == t.root) && CellRepointed(t.nodes[p], cell', c, NULL)
  }

  function WithoutLeaf(t: Tree, p: Addr, cell': Cell, l: Addr): Tree {
    Tree(t.root, t.nodes[p := cell'], t.places - {l})
  }

  lemma RemovedCell(t: Tree, p: Addr, c: Byte, cell': Cell, l: Addr, key: U64, a: Addr)
    requires TreeOk(t) && CanRemove(t, p, c, cell', l, key) && a in t.places && a != l
    ensures var t' := WithoutLeaf(t, p, cell', l); a in t'.nodes && a in t'.places && CellOk(t', a)
  {
    hide TreeOk;
    hide Kid;
    hide Fits;
    var t' := WithoutLeaf(t, p, cell', l);
    InNodes(t, a);
    forall y: Byte | Kid(t.nodes[a], y) != NULL ensures IsParent(t, a, y, Kid(t.nodes[a], y)) && Kid(t.nodes[a], y) in t.places {
      KidPlaced(t, a, y);
    }
    if a == p {
      forall y: Byte ensures ChildOk(t', t.places[p].full, y, Kid(cell', y)) {
        assert ChildOk(t, t.places[p].full, y, Kid(t.nodes[p], y));
        if Kid(t.nodes[p], y) == l { OneParent(t, p, c, p, y, l); }
      }
    } else {
      forall y: Byte ensures var k := Kid(t.nodes[a], y);
        k != NULL ==> k in t'.places && k in t.places && t'.places[k].path == t.places[k].path
      {
        if Kid(t.nodes[a], y) == l { OneParent(t, p, c, a, y, l); }
      }
      OtherCell(t, t', a);
    }
  }

  lemma RemovedHasParent(t: Tree, p: Addr, c: Byte, cell': Cell, l: Addr, key: U64, a: Addr)
    requires TreeOk(t) && CanRemove(t, p, c, cell', l, key) && a in t.places && a != l && a != t.root
    ensures HasParent(WithoutLeaf(t, p, cell', l), a)
  {
    hide TreeOk;
    hide Fits;
    hide Kid;
    var q, y := Parent(t, a);
    ParentKept(t, WithoutLeaf(t, p, cell', l), q, y, a);
  }

  lemma LeafRemoved(t: Tree, p: Addr, c: Byte, cell': Cell, l: Addr, key: U64)
    requires TreeOk(t) && CanRemove(t, p, c, cell', l, key)
    ensures Removed(t, WithoutLeaf(t, p, cell', l), key)
  {
    hide Fits;
    hide Kid;
    hide CellOk;
    hide HasParent;
    hide Contents;
    Root(t);
    InNodes(t, p);
    Link(t, p, c, l);
    var t' := WithoutLeaf(t, p, cell', l);
    forall a | a in t'.places ensures a in t'.nodes && CellOk(t', a) {
      RemovedCell(t, p, c, cell', l, key, a);
    }
    forall a | a in t'.places && a != t'.root ensures HasParent(t', a) {
      RemovedHasParent(t, p, c, cell', l, key, a);
    }
    assert TreeOk(t');
    LeafLess(t, t', l, key);
  }

  // ----- a copy takes a cell's place -----

  ghost predicate CanMove(t: Tree, p: Addr, c: Byte, cell': Cell, n: Addr, n': Addr) {
    && IsParent(t, p, c, n) && n in t.places && n in t.nodes && n' != NULL && n' !in t.places && n' in t.nodes
    && Fits(cell', t.places[p], p == t.root) && CellRepointed(t.nodes[p], cell', c, n')
    && Fits(t.nodes[n'], t.places[n], false) && Twin(t.nodes[n], t.nodes[n'])
  }

  function WithCopy(t: Tree, p: Addr, cell': Cell, n: Addr, n': Addr): Tree
    requires n in t.places
  {
    Tree(t.root, t.nodes[p := cell'], (t.places - {n})[n' := t.places[n]])
  }

  lemma MovedCell(t: Tree, p: Addr, c: Byte, cell': Cell, n: Addr, n': Addr, a: Addr)
    requires TreeOk(t) && CanMove(t, p, c, cell', n, n') && (a == n' || (a in t.places && a != n))
    ensures var t' := WithCopy(t, p, cell', n, n'); a in t'.nodes && a in t'.places && CellOk(t', a)
  {
    hide TreeOk;
    hide Kid;
    hide Fits;
    var t' := WithCopy(t, p, cell', n, n');
    InNodes(t, n);
    Link(t, p, c, n);
    var o := if a == n' then n else a;
    InNodes(t, o);
    forall y: Byte | Kid(t.nodes[o], y) != NULL ensures IsParent(t, o, y, Kid(t.nodes[o], y)) && Kid(t.nodes[o], y) in t.places {
      KidPlaced(t, o, y);
    }
    if a == p {
      forall y: Byte ensures ChildOk(t', t.places[p].full, y, Kid(cell', y)) {
        assert ChildOk(t, t.places[p].full, y, Kid(t.nodes[p], y));
        if Kid(t.nodes[p], y) == n { OneParent(t, p, c, p, y, n); }
      }
    } else {
      forall y: Byte ensures ChildOk(t', t.places[o].full, y, Kid(t'.nodes[a], y)) {
        assert ChildOk(t, t.places[o].full, y, Kid(t.nodes[o], y));
        if Kid(t.nodes[o], y) == n { OneParent(t, p, c, o, y, n); }
      }
    }
  }

  lemma MovedHasParent(t: Tree, p: Addr, c: Byte, cell': Cell, n: Addr, n': Addr, a: Addr)
    requires TreeOk(t) && CanMove(t, p, c, cell', n, n') && (a == n' || (a in t.places && a != n && a != t.root))
    ensures HasParent(WithCopy(t, p, cell', n, n'), a)
  {
    hide TreeOk;
    hide Fits;
    hide Kid;
    var t' := WithCopy(t, p, cell', n, n');
    Link(t, p, c, n);
    if a == n' {
      assert IsParent(t', p, c, n');
    } else {
      var q, y := Parent(t, a);
      if q == n {
        assert IsParent(t', n', y, a);
      } else {
        ParentKept(t, t', q, y, a);
      }
    }
  }

  lemma MovedOk(t: Tree, p: Addr, c: Byte, cell': Cell, n: Addr, n': Addr)
    requires TreeOk(t) && CanMove(t, p, c, cell', n, n')
    ensures TreeOk(WithCopy(t, p, cell', n, n'))
  {
    hide Fits;
    hide Kid;
    hide CellOk;
    hide HasParent;
    Root(t);
    Link(t, p, c, n);
    var t' := WithCopy(t, p, cell', n, n');
    forall a | a in t'.places ensures a in t'.nodes && CellOk(t', a) {
      MovedCell(t, p, c, cell', n, n', a);
    }
    forall a | a in t'.places && a != t'.root ensures HasParent(t', a) {
      MovedHasParent(t, p, c, cell', n, n', a);
    }
  }

  /** Growing, shrinking and compacting: a copy of a node takes its place. */
  lemma NodeMoved(t: Tree, p: Addr, c: Byte, cell': Cell, n: Addr, n': Addr)
    requires TreeOk(t) && CanMove(t, p, c, cell', n, n') && t.nodes[n].Node?
    ensures SameContents(t, WithCopy(t, p, cell', n, n'))
  {
    hide TreeOk;
    hide Fits;
    hide Kid;
    hide Contents;
    MovedOk(t, p, c, cell', n, n');
    LeavesSame(t, WithCopy(t, p, cell', n, n'));
  }

  /** update: a new leaf takes the old one's place. */
  lemma LeafMoved(t: Tree, p: Addr, c: Byte, cell': Cell, n: Addr, n': Addr)
    requires TreeOk(t) && CanMove(t, p, c, cell', n, n') && t.nodes[n].Leaf?
    ensures Updated(t, WithCopy(t, p, cell', n, n'), t.nodes[n].key, t.nodes[n'].value)
  {
    hide TreeOk;
    hide Fits;
    hide Kid;
    hide Contents;
    MovedOk(t, p, c, cell', n, n');
    LeafSwapped(t, WithCopy(t, p, cell', n, n'), n, n', t.nodes[n].key, t.nodes[n'].value);
  }

  lemma LeafSwapped(t: Tree, t': Tree, n: Addr, n': Addr, key: U64, value: U64)
    requires TreeOk(t) && TreeOk(t') && LeafAt(t, n, key) && n !in t'.places && LeafIs(t', n', key, value) && n' !in t.places
    requires forall a, k, v | a != n && a != n' :: LeafIs(t', a, k, v) <==> LeafIs(t, a, k, v)
    ensures Updated(t, t', key, value)
  {
    hide TreeOk;
    var m := Contents(t)[key := value];
    forall a, k | LeafAt(t', a, k) ensures k in m && m[k] == t'.nodes[a].value {
      assert LeafIs(t', a, k, t'.nodes[a].value);
      if a != n' {
        AtLeaf(t, a, k);
        if k == key { OneLeaf(t, a, n, k); }
      }
    }
    forall k | k in m ensures Has(t', k) {
      if k == key {
        assert LeafAt(t', n', k);
      } else {
        var a := FindLeaf(t, k);
        assert LeafIs(t', a, k, Contents(t)[k]) && LeafAt(t', a, k);
      }
    }
    ContentsAre(t', m);
  }

  // ----- a new node above a cell -----

  /** Cell n shares a key's bytes up to f only; the unlinked node x has n and the unlinked leaf b below it. */
  ghost predicate CanFork(t: Tree, p: Addr, c: Byte, cell': Cell, n: Addr, x: Addr, b: Addr, key: U64, value: U64, f: nat) {
    && IsParent(t, p, c, n) && n in t.places && n in t.nodes
    && Fits(cell', t.places[p], p == t.root) && CellRepointed(t.nodes[p], cell', c, x)
    && var q := t.places[n];
    && |q.path| <= f < |q.full| <= KEY_LEN && Bytes(key)[..f] == q.full[..f] && Bytes(key)[f] != q.full[f]
    && x != b && NULL !in {x, b} && x !in t.places && b !in t.places && x in t.nodes && b in t.nodes && t.nodes[b] == Leaf(key, value)
    && t.nodes[x].Node? && Fits(t.nodes[x], Place(q.path, q.full[..f]), false)
    && forall y: Byte :: Kid(t.nodes[x], y) == if y == q.full[f] then n else if y == Bytes(key)[f] then b else NULL
  }

  function ForkPlaces(places: map<Addr, Place>, n: Addr, x: Addr, b: Addr, key: U64, f: nat): map<Addr, Place>
    requires n in places && f < |places[n].full| <= KEY_LEN
  {
    var q := places[n];
    places[n := Place(q.full[..f + 1], q.full)][x := Place(q.path, q.full[..f])][b := Place(Bytes(key)[..f + 1], Bytes(key))]
  }

  function Forked(t: Tree, p: Addr, cell': Cell, n: Addr, x: Addr, b: Addr, key: U64, f: nat): Tree
    requires n in t.places && f < |t.places[n].full| <= KEY_LEN
  {
    Tree(t.root, t.nodes[p := cell'], ForkPlaces(t.places, n, x, b, key, f))
  }

  /** What the fork leaves where it was. */
  lemma ForkedAt(t: Tree, p: Addr, c: Byte, cell': Cell, n: Addr, x: Addr, b: Addr, key: U64, value: U64, f: nat)
    requires TreeOk(t) && CanFork(t, p, c, cell', n, x, b, key, value, f)
    ensures var t' := Forked(t, p, cell', n, x, b, key, f);
      && n !in {x, b, p} && p !in {x, b} && n != NULL && n != t.root && t.root !in {x, b} && NULL !in t'.nodes
      && t'.places.Keys == t.places.Keys + {x, b} && t'.nodes[p] == cell'
      && n in t'.nodes && x in t'.nodes && b in t'.nodes
      && t'.nodes[n] == t.nodes[n] && t'.nodes[x] == t.nodes[x] && t'.nodes[b] == t.nodes[b]
    ensures var t', q := Forked(t, p, cell', n, x, b, key, f), t.places[n];
      && t'.places[n] == Place(q.full[..f + 1], q.full) && t'.places[x] == Place(q.path, q.full[..f])
      && t'.places[b] == Place(Bytes(key)[..f + 1], Bytes(key))
    ensures var t' := Forked(t, p, cell', n, x, b, key, f);
      && (forall a | a in t.places && a != n :: a in t'.places && t'.places[a] == t.places[a])
      && (forall a | a in t.nodes && a != p :: a in t'.nodes && t'.nodes[a] == t.nodes[a])
  {
    hide CellOk;
    hide HasParent;
    hide Kid;
    hide Fits;
    hide Bytes;
    Link(t, p, c, n);
    Root(t);
  }

  lemma ForkedNew(t: Tree, p: Addr, c: Byte, cell': Cell, n: Addr, x: Addr, b: Addr, key: U64, value: U64, f: nat)
    requires TreeOk(t) && CanFork(t, p, c, cell', n, x, b, key, value, f)
    ensures var t' := Forked(t, p, cell', n, x, b, key, f); x in t'.nodes && x in t'.places && CellOk(t', x)
  {
    hide TreeOk;
    hide Kid;
    hide Fits;
    hide Bytes;
    var t', q := Forked(t, p, cell', n, x, b, key, f), t.places[n];
    ForkedAt(t, p, c, cell', n, x, b, key, value, f);
    ForkedRoot(t, p, cell', n, x, b, key, f);
    hide Forked;
    PrefixStep(q.full, f);
    PrefixStep(Bytes(key), f);
    forall y: Byte ensures ChildOk(t', q.full[..f], y, Kid(t'.nodes[x], y)) {
    }
  }

  lemma PrefixStep(q: seq<Byte>, f: nat)
    requires f < |q|
    ensures q[..f + 1] == q[..f] + [q[f]]
  {
  }

  lemma ForkedLeaf(t: Tree, p: Addr, c: Byte, cell': Cell, n: Addr, x: Addr, b: Addr, key: U64, value: U64, f: nat)
    requires TreeOk(t) && CanFork(t, p, c, cell', n, x, b, key, value, f)
    ensures var t' := Forked(t, p, cell', n, x, b, key, f); b in t'.nodes && b in t'.places && CellOk(t', b)
  {
    hide TreeOk;
    hide LayoutOk;
    hide Bytes;
    var t' := Forked(t, p, cell', n, x, b, key, f);
    ForkedAt(t, p, c, cell', n, x, b, key, value, f);
    ForkedRoot(t, p, cell', n, x, b, key, f);
    hide Forked;
    hide Kid;
    forall y: Byte ensures ChildOk(t', t'.places[b].full, y, Kid(t'.nodes[b], y)) { LeafKids(t'.nodes[b], y); }
  }

  lemma ForkedCell(t: Tree, p: Addr, c: Byte, cell': Cell, n: Addr, x: Addr, b: Addr, key: U64, value: U64, f: nat, a: Addr)
    requires TreeOk(t) && CanFork(t, p, c, cell', n, x, b, key, value, f) && (a in t.places || a == x || a == b)
    ensures var t' := Forked(t, p, cell', n, x, b, key, f); a in t'.nodes && a in t'.places && CellOk(t', a)
  {
    hide TreeOk;
    hide CellOk;
    if a == x {
      ForkedNew(t, p, c, cell', n, x, b, key, value, f);
    } else if a == b {
      ForkedLeaf(t, p, c, cell', n, x, b, key, value, f);
    } else {
      ForkedOld(t, p, c, cell', n, x, b, key, value, f, a);
    }
  }

  lemma ForkedOld(t: Tree, p: Addr, c: Byte, cell': Cell, n: Addr, x: Addr, b: Addr, key: U64, value: U64, f: nat, a: Addr)
    requires TreeOk(t) && CanFork(t, p, c, cell', n, x, b, key, value, f) && a in t.places
    ensures var t' := Forked(t, p, cell', n, x, b, key, f); a in t'.nodes && a in t'.places && CellOk(t', a)
  {
    hide TreeOk;
    hide Kid;
    hide LayoutOk;
    hide Bytes;
    var t', q := Forked(t, p, cell', n, x, b, key, f), t.places[n];
    ForkedAt(t, p, c, cell', n, x, b, key, value, f);
    Link(t, p, c, n);
    InNodes(t, a);
    hide Forked;
    forall y: Byte | Kid(t.nodes[a], y) != NULL ensures IsParent(t, a, y, Kid(t.nodes[a], y)) && Kid(t.nodes[a], y) in t.places {
      KidPlaced(t, a, y);
    }
    forall y: Byte ensures ChildOk(t', t.places[a].full, y, Kid(t'.nodes[a], y)) {
      assert ChildOk(t, t.places[a].full, y, Kid(t.nodes[a], y));
      if Kid(t.nodes[a], y) == n { OneParent(t, p, c, a, y, n); }
    }
  }

  lemma ForkedHasParent(t: Tree, p: Addr, c: Byte, cell': Cell, n: Addr, x: Addr, b: Addr, key: U64, value: U64, f: nat, a: Addr)
    requires TreeOk(t) && CanFork(t, p, c, cell', n, x, b, key, value, f) && (a in t.places || a == x || a == b) && a != t.root
    ensures HasParent(Forked(t, p, cell', n, x, b, key, f), a)
  {
    hide TreeOk;
    hide Kid;
    hide Fits;
    hide Bytes;
    var t', q := Forked(t, p, cell', n, x, b, key, f), t.places[n];
    ForkedAt(t, p, c, cell', n, x, b, key, value, f);
    hide Forked;
    if a == n {
      assert IsParent(t', x, q.full[f], n);
    } else if a == b {
      assert IsParent(t', x, Bytes(key)[f], b);
    } else if a == x {
      assert IsParent(t', p, c, x);
    } else {
      var r, y := Parent(t, a);
      ParentKept(t, t', r, y, a);
    }
  }

  /** A new node above a leaf, or above a node whose prefix the key leaves, adds the key; prefixes stay as they are. */
  lemma ForkAdded(t: Tree, p: Addr, c: Byte, cell': Cell, n: Addr, x: Addr, b: Addr, key: U64, value: U64, f: nat)
    requires TreeOk(t) && CanFork(t, p, c, cell', n, x, b, key, value, f)
    ensures Updated(t, Forked(t, p, cell', n, x, b, key, f), key, value)
  {
    hide Fits;
    hide Kid;
    hide Bytes;
    hide CellOk;
    hide HasParent;
    hide Contents;
    hide Forked;
    Root(t);
    var t' := Forked(t, p, cell', n, x, b, key, f);
    ForkedAt(t, p, c, cell', n, x, b, key, value, f);
    ForkedRoot(t, p, cell', n, x, b, key, f);
    forall a | a in t'.places ensures a in t'.nodes && CellOk(t', a) {
      ForkedCell(t, p, c, cell', n, x, b, key, value, f, a);
    }
    forall a | a in t'.places && a != t'.root ensures HasParent(t', a) {
      ForkedHasParent(t, p, c, cell', n, x, b, key, value, f, a);
    }
    assert TreeOk(t');
    assert forall a, k, v | a != b :: LeafIs(t', a, k, v) <==> LeafIs(t, a, k, v);
    LeafMore(t, t', b, key, value);
  }

  lemma ForkedRoot(t: Tree, p: Addr, cell': Cell, n: Addr, x: Addr, b: Addr, key: U64, f: nat)
    requires n in t.places && f < |t.places[n].full| <= KEY_LEN
    ensures Forked(t, p, cell', n, x, b, key, f).root == t.root
  {
  }

  // ----- a node with one child left gives way to it -----

  /** Node n has two children, the leaf l and s; the pointer to n is to lead to s. */
  ghost predicate CanMerge(t: Tree, p: Addr, c: Byte, cell': Cell, n: Addr, l: Addr, lb: Byte, s: Addr, sb: Byte, key: U64) {
    && IsParent(t, p, c, n) && n in t.places && n in t.nodes && t.nodes[n].Node?
    && IsParent(t, n, lb, l) && LeafAt(t, l, key) && IsParent(t, n, sb, s) && lb != sb
    && (forall y: Byte | y != lb && y != sb :: Kid(t.nodes[n], y) == NULL)
    && Fits(cell', t.places[p], p == t.root) && CellRepointed(t.nodes[p], cell', c, s)
  }

  function Merged(t: Tree, p: Addr, cell': Cell, n: Addr, l: Addr, s: Addr): Tree
    requires n in t.places && s in t.places
  {
    Tree(t.root, t.nodes[p := cell'], (t.places - {n, l})[s := Place(t.places[n].path, t.places[s].full)])
  }

  lemma MergedAt(t: Tree, p: Addr, c: Byte, cell': Cell, n: Addr, l: Addr, lb: Byte, s: Addr, sb: Byte, key: U64)
    requires TreeOk(t) && CanMerge(t, p, c, cell', n, l, lb, s, sb, key)
    ensures s in t.places && s in t.nodes && l != s && p !in {n, l, s} && n !in {l, s} && t.root !in {n, l, s} && NULL !in {n, l, s, p}
    ensures var t' := Merged(t, p, cell', n, l, s);
      && t'.root == t.root && NULL !in t'.nodes && t'.nodes[p] == cell' && t'.places.Keys == t.places.Keys - {n, l}
      && t'.places[s] == Place(t.places[n].path, t.places[s].full)
      && (forall a | a in t.places && a !in {n, l, s} :: a in t'.places && t'.places[a] == t.places[a])
      && (forall a | a in t.nodes && a != p :: a in t'.nodes && t'.nodes[a] == t.nodes[a])
  {
    hide CellOk;
    hide HasParent;
    hide Kid;
    hide Fits;
    hide Bytes;
    Link(t, p, c, n);
    Link(t, n, lb, l);
    Link(t, n, sb, s);
    InNodes(t, s);
    Root(t);
  }

  lemma MergedCell(t: Tree, p: Addr, c: Byte, cell': Cell, n: Addr, l: Addr, lb: Byte, s: Addr, sb: Byte, key: U64, a: Addr)
    requires TreeOk(t) && CanMerge(t, p, c, cell', n, l, lb, s, sb, key) && a in t.places && a != n && a != l && s in t.places
    ensures var t' := Merged(t, p, cell', n, l, s); a in t'.nodes && a in t'.places && CellOk(t', a)
  {
    hide TreeOk;
    hide Kid;
    hide LayoutOk;
    hide Bytes;
    var t' := Merged(t, p, cell', n, l, s);
    MergedAt(t, p, c, cell', n, l, lb, s, sb, key);
    Link(t, p, c, n);
    Link(t, n, sb, s);
    InNodes(t, a);
    InNodes(t, s);
    hide Merged;
    PrefixTrans(t.places[n].path, t.places[s].path, t.places[s].full);
    forall y: Byte | Kid(t.nodes[a], y) != NULL ensures IsParent(t, a, y, Kid(t.nodes[a], y)) && Kid(t.nodes[a], y) in t.places {
      KidPlaced(t, a, y);
    }
    MergedKids(t, p, c, cell', n, l, lb, s, sb, key, a);
    hide CanMerge;
  }

  lemma MergedKids(t: Tree, p: Addr, c: Byte, cell': Cell, n: Addr, l: Addr, lb: Byte, s: Addr, sb: Byte, key: U64, a: Addr)
    requires TreeOk(t) && CanMerge(t, p, c, cell', n, l, lb, s, sb, key) && a in t.places && a != n && a != l && s in t.places && a in t.nodes
    requires forall y: Byte | Kid(t.nodes[a], y) != NULL :: IsParent(t, a, y, Kid(t.nodes[a], y)) && Kid(t.nodes[a], y) in t.places
    ensures var t' := Merged(t, p, cell', n, l, s);
      a in t'.nodes && forall y: Byte :: ChildOk(t', t.places[a].full, y, Kid(t'.nodes[a], y))
  {
    hide TreeOk;
    hide Kid;
    hide Fits;
    hide Bytes;
    var t' := Merged(t, p, cell', n, l, s);
    MergedAt(t, p, c, cell', n, l, lb, s, sb, key);
    InNodes(t, a);
    Link(t, p, c, n);
    hide Merged;
    forall y: Byte ensures ChildOk(t', t.places[a].full, y, Kid(t'.nodes[a], y)) {
      var k := Kid(t.nodes[a], y);
      assert ChildOk(t, t.places[a].full, y, k);
      if k == n { OneParent(t, p, c, a, y, n); }
      if k == l { OneParent(t, n, lb, a, y, l); }
      if k == s { OneParent(t, n, sb, a, y, s); }
    }
  }

  lemma MergedHasParent(t: Tree, p: Addr, c: Byte, cell': Cell, n: Addr, l: Addr, lb: Byte, s: Addr, sb: Byte, key: U64, a: Addr)
    requires TreeOk(t) && CanMerge(t, p, c, cell', n, l, lb, s, sb, key) && a in t.places && a != n && a != l && a != t.root && s in t.places
    ensures HasParent(Merged(t, p, cell', n, l, s), a)
  {
    hide TreeOk;
    hide Kid;
    hide Fits;
    hide Bytes;
    var t' := Merged(t, p, cell', n, l, s);
    MergedAt(t, p, c, cell', n, l, lb, s, sb, key);
    hide Merged;
    var q, y := Parent(t, a);
    if a == s {
      assert IsParent(t', p, c, s);
    } else {
      assert q != n;
      LeafKids(t.nodes[l], y);
      ParentKept(t, t', q, y, a);
    }
  }

  /** Removing a key from a node with two children leaves the other child in the node's place; prefixes stay as they are. */
  lemma MergeRemoved(t: Tree, p: Addr, c: Byte, cell': Cell, n: Addr, l: Addr, lb: Byte, s: Addr, sb: Byte, key: U64)
    requires TreeOk(t) && CanMerge(t, p, c, cell', n, l, lb, s, sb, key)
    ensures s in t.places && Removed(t, Merged(t, p, cell', n, l, s), key)
  {
    hide Fits;
    hide Kid;
    hide Bytes;
    hide CellOk;
    hide HasParent;
    hide Contents;
    hide Merged;
    Root(t);
    MergedAt(t, p, c, cell', n, l, lb, s, sb, key);
    var t' := Merged(t, p, cell', n, l, s);
    forall a | a in t'.places ensures a in t'.nodes && CellOk(t', a) {
      MergedCell(t, p, c, cell', n, l, lb, s, sb, key, a);
    }
    forall a | a in t'.places && a != t'.root ensures HasParent(t', a) {
      MergedHasParent(t, p, c, cell', n, l, lb, s, sb, key, a);
    }
    assert TreeOk(t');
    LeafLess(t, t', l, key);
  }

  // ----- what the operations look up -----

  /** What a well-formed tree says about a node. */
  lemma NodeAt(t: Tree, n: Addr)
    requires TreeOk(t) && n in t.places && n in t.nodes && t.nodes[n].Node?
    ensures var cell, p := t.nodes[n], t.places[n];
      && Prefix(p.path, p.full) && cell.level == |p.full| < KEY_LEN && PrefixShaped(cell.prefix)
      && LayoutOk(cell.layout) && Fits(cell, p, n == t.root)
      && (if n == t.root then cell.layout.Direct? && cell.prefix.prefixCount == 0 else cell.layout.count >= 2)
      && forall b: Byte :: Kid(cell, b) == Child(cell.layout, b)
  {
    hide TreeOk;
    InNodes(t, n);
  }

  lemma LeafOfPlace(t: Tree, n: Addr)
    requires TreeOk(t) && n in t.places && n in t.nodes && t.nodes[n].Leaf?
    ensures t.places[n].full == Bytes(t.nodes[n].key) && Prefix(t.places[n].path, t.places[n].full) && Fits(t.nodes[n], t.places[n], false)
    ensures n != t.root && n != NULL && LeafAt(t, n, t.nodes[n].key)
  {
    hide Kid;
    hide HasParent;
    InNodes(t, n);
  }

  /** A key whose way leads through a node shares the node's bytes, if it is there at all. */
  lemma Through(t: Tree, n: Addr, key: U64)
    requires TreeOk(t) && n in t.places && n in t.nodes && t.nodes[n].Node?
    requires Has(t, key) ==> Prefix(t.places[n].path, Bytes(key))
    ensures Has(t, key) ==> Prefix(t.places[n].full, Bytes(key))
    ensures |t.places[n].full| < KEY_LEN
    ensures Has(t, key) ==> Kid(t.nodes[n], Bytes(key)[|t.places[n].full|]) != NULL
    ensures Has(t, key) ==> Prefix(t.places[n].full + [Bytes(key)[|t.places[n].full|]], Bytes(key))
  {
    hide TreeOk;
    hide Kid;
    hide Bytes;
    NodeAt(t, n);
    if Has(t, key) {
      Toward(t, n, key);
      PrefixNext(t.places[n].full, Bytes(key));
    }
  }

  lemma OtherKey(t: Tree, n: Addr, key: U64)
    requires TreeOk(t) && n in t.places && n in t.nodes && t.nodes[n].Leaf? && t.nodes[n].key != key
    requires Has(t, key) ==> Prefix(t.places[n].path, Bytes(key))
    ensures !Has(t, key)
  {
    hide TreeOk;
    hide Kid;
    hide Bytes;
    if Has(t, key) {
      Toward(t, n, key);
    }
  }

  /** A leaf eight bytes down is the key that leads to it. */
  lemma WholeKey(t: Tree, n: Addr, key: U64)
    requires TreeOk(t) && n in t.places && n in t.nodes && t.nodes[n].Leaf? && |t.places[n].path| == KEY_LEN
    requires Prefix(t.places[n].path, Bytes(key))
    ensures t.nodes[n].key == key
  {
    hide TreeOk;
    LeafOfPlace(t, n);
    hide Bytes;
    assert t.places[n].path == t.places[n].full == Bytes(key) by {
      assert Bytes(key)[..KEY_LEN] == Bytes(key);
      assert t.places[n].full[..KEY_LEN] == t.places[n].full;
    }
    BytesDiffer(t.nodes[n].key, key);
  }

  ghost function Lookup(m: map<U64, U64>, key: U64): Option<U64> {
    if key in m then Some(m[key]) else None
  }

  lemma NotHas(t: Tree, key: U64)
    requires TreeOk(t) && !Has(t, key)
    ensures Lookup(Contents(t), key) == None && key !in Contents(t)
  {
    hide TreeOk;
    if key in Contents(t) {
      HasKey(t, key);
    }
  }

  lemma HasKey(t: Tree, key: U64)
    requires TreeOk(t) && key in Contents(t)
    ensures Has(t, key)
  {
    var a := FindLeaf(t, key);
    assert LeafAt(t, a, key);
  }

  // ----- what a crash may leave -----

  /** What a crash may leave of a removal. */
  ghost predicate WithOrWithout(t: Tree, image: Tree, key: U64) {
    SameContents(t, image) || Removed(t, image, key)
  }

  ghost predicate BeforeOrAfter(t: Tree, image: Tree, key: U64, value: U64) {
    SameContents(t, image) || Updated(t, image, key, value)
  }

  lemma AllAfter(t: Tree, t1: Tree, key: U64, value: U64)
    requires SameContents(t, t1)
    ensures forall im :: SameContents(t1, im) ==> SameContents(t, im)
    ensures forall im :: BeforeOrAfter(t1, im, key, value) ==> BeforeOrAfter(t, im, key, value)
    ensures forall im :: Updated(t1, im, key, value) ==> Updated(t, im, key, value)
    ensures forall im :: Removed(t1, im, key) ==> Removed(t, im, key)
  {
    hide TreeOk;
    hide Contents;
  }

  lemma AllAfterToo(t: Tree, t1: Tree, key: U64, value: U64)
    ensures Updated(t, t1, key, value) ==> forall im :: SameContents(t1, im) ==> Updated(t, im, key, value)
    ensures Removed(t, t1, key) ==> forall im :: SameContents(t1, im) ==> Removed(t, im, key)
  {
    hide TreeOk;
    hide Contents;
  }

  lemma NotPlaced(t: Tree, a: Addr)
    requires TreeOk(t) && a !in t.nodes
    ensures a !in t.places
  {
    if a in t.places {
      InNodes(t, a);
    }
  }

  lemma LeafTwin(cell: Cell, cell': Cell)
    requires cell.Leaf? && cell'.Leaf? && cell'.key == cell.key
    ensures Twin(cell, cell')
  {
  }

  /** A node with repointed arrays of the same kind. */
  lemma LayoutKept(cell: Cell, l: Layout, b: Byte, x: Addr, p: Place, isRoot: bool)
    requires cell.Node? && Fits(cell, p, isRoot) && Repointed(cell.layout, l, b, x)
    requires Capacity(l) == Capacity(cell.layout) && (isRoot || l.count >= 2)
    ensures var cell' := Node(cell.level, cell.prefix, l); CellRepointed(cell, cell', b, x) && Fits(cell', p, isRoot)
  {
    hide Bytes;
    hide PrefixShaped;
    KindOfCapacity(cell.layout, l);
  }

  lemma KindOfCapacity(l: Layout, l': Layout)
    requires LayoutOk(l) && LayoutOk(l') && Capacity(l) == Capacity(l')
    ensures l.Direct? <==> l'.Direct?
    ensures Fewest(l) == Fewest(l')
  {
  }

  /** A node between the two stores of an insertion. */
  lemma HalfTwin(cell: Cell, b: Byte, p: Place, isRoot: bool)
    requires cell.Node? && Fits(cell, p, isRoot) && LayoutOk(cell.layout) && !Full(cell.layout)
    requires LayoutOk(HalfInserted(cell.layout, b)) && HalfInserted(cell.layout, b).count == cell.layout.count
    requires forall c: Byte :: Child(HalfInserted(cell.layout, b), c) == Child(cell.layout, c)
    ensures var cell' := Node(cell.level, cell.prefix, HalfInserted(cell.layout, b)); Twin(cell, cell') && Fits(cell', p, isRoot)
  {
    hide Bytes;
    hide PrefixShaped;
    hide LayoutOk;
  }

  lemma PrefixWhole(p: seq<Byte>)
    ensures Prefix(p, p)
  {
  }

  lemma NonEmpty(t: Tree, n: Addr)
    requires TreeOk(t) && n in t.places && n in t.nodes && t.nodes[n].Node? && n != t.root
    ensures t.nodes[n].layout.count >= 2
  {
    NodeAt(t, n);
  }

  lemma SameItself(t: Tree)
    requires TreeOk(t)
    ensures SameContents(t, t)
  {
  }

  lemma PrefixSet(t: Tree, n: Addr, p: NodePrefix)
    requires TreeOk(t) && n in t.places && n in t.nodes && t.nodes[n].Node? && n != t.root && PrefixShaped(p)
    ensures SameContents(t, WithCell(t, n, Node(t.nodes[n].level, p, t.nodes[n].layout)))
  {
    hide TreeOk;
    hide Contents;
    hide Bytes;
    hide LayoutOk;
    NodeAt(t, n);
    Reshaped(t, n, Node(t.nodes[n].level, p, t.nodes[n].layout));
  }

  /** The root has no prefix that could be stale. */
  lemma RootIsRight(t: Tree, n: Addr)
    requires TreeOk(t) && n in t.places && n in t.nodes && t.nodes[n].Node?
    ensures n == t.root ==> |t.places[n].full| == 0 && t.nodes[n].prefix.prefixCount == 0 && t.nodes[n].level == 0
  {
    hide LayoutOk;
    hide Bytes;
    NodeAt(t, n);
    Root(t);
  }

  /** A part of a node's bytes, read off a key below it. */
  lemma PrefixSlice(full: seq<Byte>, q: seq<Byte>, s: nat, c: nat)
    requires Prefix(full, q) && s + c <= |full|
    ensures s + c <= |q| && q[s..s + c] == full[s..][..c]
  {
    assert full[s..][..c] == full[s..s + c];
    assert q[..|full|][s..s + c] == q[s..s + c];
  }

  /** What a short prefix stores behind a byte. */
  lemma RestOfPrefix(full: seq<Byte>, s: nat, f: nat)
    requires s <= f < |full| && |full| - s <= MAX_STORED
    ensures PrefixFrom(full, s).bytes[f - s + 1..] == full[f + 1..][..Min(MAX_STORED, |full| - (f + 1))]
  {
    assert full[s..][..|full| - s] == full[s..];
    assert full[s..][f - s + 1..] == full[f + 1..];
    assert full[f + 1..][..|full| - (f + 1)] == full[f + 1..];
  }

  /** A key leaves a node's prefix right at byte f: the node's byte there, and what the node stores of the bytes behind. */
  ghost predicate PartsAt(p: Place, fkey: seq<Byte>, f: nat, nodeByte: Byte, behind: seq<Byte>) {
    && |p.path| <= f < |p.full| <= |fkey| && fkey[..f] == p.full[..f] && nodeByte == p.full[f] != fkey[f]
    && behind == p.full[f + 1..][..Min(MAX_STORED, |p.full| - (f + 1))]
  }

  lemma PathPrefix(t: Tree, n: Addr)
    requires TreeOk(t) && n in t.places && n in t.nodes
    ensures Prefix(t.places[n].path, t.places[n].full) && |t.places[n].full| <= KEY_LEN && Fits(t.nodes[n], t.places[n], n == t.root)
  {
    hide Kid;
    hide HasParent;
    InNodes(t, n);
  }

  lemma PrefixCut(p: seq<Byte>, full: seq<Byte>, f: nat)
    requires Prefix(p, full) && |p| <= f <= |full|
    ensures Prefix(p, full[..f])
  {
  }

  /** Cell n can go below the unlinked node x, beside the unlinked leaf b. */
  ghost predicate Forkable(t: Tree, n: Addr, x: Addr, b: Addr, key: U64, value: U64, f: nat) {
    && n in t.places && n in t.nodes
    && var q := t.places[n];
    && |q.path| <= f < |q.full| <= KEY_LEN && Bytes(key)[..f] == q.full[..f] && Bytes(key)[f] != q.full[f]
    && x != b && NULL !in {x, b} && x !in t.places && b !in t.places && x in t.nodes && b in t.nodes && t.nodes[b] == Leaf(key, value)
    && t.nodes[x].Node? && Fits(t.nodes[x], Place(q.path, q.full[..f]), false)
    && forall y: Byte :: Kid(t.nodes[x], y) == if y == q.full[f] then n else if y == Bytes(key)[f] then b else NULL
  }

  lemma PrefixUpper(p: Place, f: nat)
    requires Prefix(p.path, p.full) && |p.path| <= f < |p.full|
    ensures var a, h := |p.path|, PrefixFrom(p.full, |p.path|);
      NodePrefix(f - a, h.bytes[..Min(MAX_STORED, f - a)]) == PrefixFrom(p.full[..f], a)
  {
    var a, c, m := |p.path|, Min(MAX_STORED, f - |p.path|), Min(MAX_STORED, |p.full| - |p.path|);
    assert p.full[..f][a..] == p.full[a..f];
    assert p.full[a..f][..c] == p.full[a..a + c];
    assert p.full[a..][..m] == p.full[a..a + m];
    assert p.full[a..a + m][..c] == p.full[a..a + c];
  }

  lemma PrefixLower(p: Place, f: nat)
    requires Prefix(p.path, p.full) && |p.path| <= f < |p.full|
    ensures var h := PrefixFrom(p.full, |p.path|);
      NodePrefix(h.prefixCount - ((f - |p.path|) + 1), p.full[f + 1..][..Min(MAX_STORED, |p.full| - (f + 1))]) == PrefixFrom(p.full, f + 1)
  {
  }

  // ----- leaves that part -----

  /** Two keys under one leaf's path part at some byte. */
  lemma LeafParts(t: Tree, n: Addr, key: U64, f: nat)
    requires TreeOk(t) && n in t.places && n in t.nodes && t.nodes[n].Leaf? && t.nodes[n].key != key
    requires Prefix(t.places[n].path, Bytes(key)) && |t.places[n].path| <= f <= KEY_LEN
    requires forall i | |t.places[n].path| <= i < f :: Bytes(t.nodes[n].key)[i] == Bytes(key)[i]
    requires f < KEY_LEN ==> Bytes(t.nodes[n].key)[f] != Bytes(key)[f]
    ensures f < KEY_LEN == |t.places[n].full| && Bytes(key)[..f] == t.places[n].full[..f] && Bytes(key)[f] != t.places[n].full[f]
  {
    hide TreeOk;
    LeafOfPlace(t, n);
    hide Bytes;
    var p, l, q := t.places[n], Bytes(t.nodes[n].key), Bytes(key);
    PrefixAt(p.path, l);
    PrefixAt(p.path, q);
    if f == KEY_LEN {
      assert l == q;
      BytesDiffer(t.nodes[n].key, key);
    }
    assert q[..f] == l[..f];
  }

  /** The prefix for a node above a leaf, read off the new key. */
  lemma PrefixCovers(full: seq<Byte>, q: seq<Byte>, s: nat, f: nat)
    requires s <= f <= |full| && f <= |q| && q[..f] == full[..f]
    ensures NodePrefix(f - s, q[s..s + Min(MAX_STORED, f - s)]) == PrefixFrom(full[..f], s)
  {
    var m := Min(MAX_STORED, f - s);
    assert full[..f][s..][..m] == full[s..s + m];
    assert q[s..s + m] == q[..f][s..s + m];
    assert full[s..s + m] == full[..f][s..s + m];
  }

  // ----- a bigger, or a compacted, node -----

  /** t after node n gave way to its copy n', which also has the new leaf b. */
  function Grown(t: Tree, p: Addr, cell': Cell, n: Addr, n': Addr, big: Cell, b: Addr, key: U64): Tree
    requires n in t.places && |t.places[n].full| < KEY_LEN
  {
    var q := t.places[n];
    Tree(t.root, t.nodes[n' := big][p := cell'],
         (t.places - {n})[n' := q][b := Place(q.full + [Bytes(key)[|q.full|]], Bytes(key))])
  }

  lemma GrownAdded(t: Tree, p: Addr, c: Byte, cell': Cell, n: Addr, n': Addr, copy: Cell, big: Cell, b: Addr, key: U64, value: U64)
    requires TreeOk(t) && IsParent(t, p, c, n) && n in t.places && n in t.nodes && t.nodes[n].Node? && n' != NULL && n' !in t.nodes
    requires b != NULL && b !in t.places && b in t.nodes && t.nodes[b] == Leaf(key, value)
    requires Prefix(t.places[n].full, Bytes(key)) && |t.places[n].full| < KEY_LEN && Kid(t.nodes[n], Bytes(key)[|t.places[n].full|]) == NULL
    requires Fits(cell', t.places[p], p == t.root) && CellRepointed(t.nodes[p], cell', c, n')
    requires Fits(copy, t.places[n], false) && Twin(t.nodes[n], copy)
    requires Fits(big, t.places[n], false) && CellRepointed(copy, big, Bytes(key)[|t.places[n].full|], b)
    ensures Updated(t, Grown(t, p, cell', n, n', big, b, key), key, value)
  {
    hide TreeOk;
    hide Contents;
    hide Bytes;
    hide Kid;
    hide Fits;
    var t1 := WithCell(t, n', copy);
    Allocated(t, n', copy);
    NotPlaced(t, n');
    Link(t, p, c, n);
    InNodes(t, p);
    assert IsParent(t1, p, c, n);
    NodeMoved(t1, p, c, cell', n, n');
    var t2 := WithCopy(t1, p, cell', n, n');
    Root(t);
    LeafAdded(t2, n', big, b, key, value);
    var t3 := WithLeaf(t2, n', big, b, key);
    assert t3.nodes == t.nodes[n' := big][p := cell'];
    assert t3.places == Grown(t, p, cell', n, n', big, b, key).places;
    AllAfter(t, t1, key, value);
    AllAfter(t1, t2, key, value);
  }

  lemma CopyFits(cell: Cell, l: Layout, p: Place)
    requires cell.Node? && Fits(cell, p, false) && LayoutOk(l) && l.count >= 2 && forall b: Byte :: Child(l, b) == Child(cell.layout, b)
    ensures var cell' := Node(cell.level, cell.prefix, l); Fits(cell', p, false) && Twin(cell, cell')
  {
    hide Bytes;
    hide PrefixShaped;
    hide Child;
  }

  lemma KidIsChild(cell: Cell, cell': Cell, b: Byte)
    requires cell.Node? && cell'.Node? && LayoutOk(cell.layout) && LayoutOk(cell'.layout)
    ensures Kid(cell, b) == Child(cell.layout, b) && Kid(cell', b) == Child(cell'.layout, b)
  {
  }

  /** A node has no more children than slots were handed out. */
  lemma SlotBounds(l: Layout)
    requires LayoutOk(l)
    ensures Capacity(l) in {4, 16, 48, 256} && (l.Direct? <==> Capacity(l) == 256)
    ensures !l.Direct? ==> l.count <= l.compactCount <= Capacity(l)
  {
    BoundedLive(l);
  }

  /** A leaf that shares all bytes with a key holds the key. */
  lemma SameLeaf(t: Tree, n: Addr, key: U64)
    requires TreeOk(t) && n in t.places && n in t.nodes && t.nodes[n].Leaf? && Prefix(t.places[n].path, Bytes(key))
    requires forall i | |t.places[n].path| <= i < KEY_LEN :: Bytes(t.nodes[n].key)[i] == Bytes(key)[i]
    ensures LeafAt(t, n, key)
  {
    hide TreeOk;
    LeafOfPlace(t, n);
    hide Bytes;
    var p, l, q := t.places[n].path, Bytes(t.nodes[n].key), Bytes(key);
    PrefixAt(p, l);
    PrefixAt(p, q);
    assert l == q;
    BytesDiffer(t.nodes[n].key, key);
  }

  lemma OtherLeaf(t: Tree, n: Addr, key: U64, f: nat)
    requires TreeOk(t) && n in t.places && n in t.nodes && t.nodes[n].Leaf? && Prefix(t.places[n].path, Bytes(key))
    requires |t.places[n].path| <= f < KEY_LEN && Bytes(t.nodes[n].key)[f] != Bytes(key)[f]
    requires forall i | |t.places[n].path| <= i < f :: Bytes(t.nodes[n].key)[i] == Bytes(key)[i]
    ensures key !in Contents(t) && f < KEY_LEN == |t.places[n].full|
    ensures Bytes(key)[..f] == t.places[n].full[..f] && Bytes(key)[f] != t.places[n].full[f]
  {
    hide TreeOk;
    hide Contents;
    hide Bytes;
    LeafParts(t, n, key, f);
    OtherKey(t, n, key);
    NotHas(t, key);
  }

  // ----- a child in its parent's place -----

  lemma OnlyTwo(t: Tree, n: Addr, c: Byte, d: Byte)
    requires TreeOk(t) && n in t.places && n in t.nodes && t.nodes[n].Node? && LayoutOk(t.nodes[n].layout)
    requires Live(t.nodes[n].layout) == {c, d}
    ensures forall y: Byte | y != c && y != d :: Kid(t.nodes[n], y) == NULL
    ensures Kid(t.nodes[n], d) == Child(t.nodes[n].layout, d) != NULL && IsParent(t, n, d, Kid(t.nodes[n], d))
  {
    hide TreeOk;
    assert d in Live(t.nodes[n].layout);
    forall y: Byte | y != c && y != d ensures Kid(t.nodes[n], y) == NULL {
      assert y !in Live(t.nodes[n].layout);
    }
  }

  lemma AcrossLink(t: Tree, n: Addr, b: Byte, s: Addr)
    requires TreeOk(t) && IsParent(t, n, b, s)
    ensures s in t.places && Prefix(t.places[n].path, t.places[s].full)
  {
    hide TreeOk;
    hide Kid;
    hide Fits;
    Link(t, n, b, s);
    InNodes(t, s);
    PathPrefix(t, s);
    PrefixTrans(t.places[n].path, t.places[s].path, t.places[s].full);
  }

  /** The stored bytes of a prefix that is right. */
  lemma RightPrefix(p: Place, h: NodePrefix)
    requires |p.path| <= |p.full| && h == PrefixFrom(p.full, |p.path|)
    ensures h.prefixCount == |p.full| - |p.path| && |h.bytes| == Min(MAX_STORED, h.prefixCount)
  {
  }

  lemma RightByte(p: Place, h: NodePrefix, i: nat)
    requires |p.path| <= |p.full| && h == PrefixFrom(p.full, |p.path|) && i < |h.bytes|
    ensures |p.path| + i < |p.full| && h.bytes[i] == p.full[|p.path| + i]
  {
  }

  lemma PathSame(path: seq<Byte>, full: seq<Byte>, q: seq<Byte>)
    requires Prefix(path, full) && Prefix(path, q)
    ensures |path| <= |full| && |path| <= |q| && forall j | 0 <= j < |path| :: full[j] == q[j]
  {
    PrefixAt(path, full);
    PrefixAt(path, q);
  }

  lemma BelowByte(full: seq<Byte>, q: seq<Byte>, j: nat)
    requires Prefix(full, q) && j < |full|
    ensures j < |q| && q[j] == full[j]
  {
    PrefixAt(full, q);
  }

  lemma SameUpTo(p: seq<Byte>, q: seq<Byte>, f: nat)
    requires f <= |p| && f <= |q| && forall j | 0 <= j < f :: p[j] == q[j]
    ensures q[..f] == p[..f]
  {
  }
}
