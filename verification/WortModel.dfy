/**
 The trie in memory: cells at addresses, linked by pointers. A cell's header may be stale, because a crash
 can separate the two stores of a prefix split; its depth field then disagrees with where the cell sits.
 Every store of an insertion is a lemma about the map that the memory stands for.
 */
module WortModel {
  import opened Bits
  import opened Options
  import opened Addresses
  import opened Prefixes
  import opened Nibbles

  const WORT_MAX_PREFIX_LEN := 6
  const WORT_NUM_NODE_ENTRIES := 16

  /** The first eight bytes of a node: its prefix keeps six nibbles at most, whatever its length. */
  datatype Header = Header(depth: nat, len: nat, nibbles: seq<Nibble>)

  datatype Cell =
    | Leaf(key: U64, value: U64)
    | Inner(header: Header, children: seq<Addr>)

  /** Where a cell sits: the nibbles above it, and the nibbles all keys below it share. */
  datatype Place = Place(path: seq<Nibble>, full: seq<Nibble>)

  /** Memory, with places as an annotation that no operation reads; cells without a place are garbage. */
  datatype Tree = Tree(root: Addr, nodes: map<Addr, Cell>, places: map<Addr, Place>)

  function Min(a: int, b: int): int {
    if a < b then a else b
  }

  /** The header that describes a place. */
  function TrueHeader(p: Place): Header
    requires |p.path| <= |p.full|
  {
    var len := |p.full| - |p.path|;
    Header(|p.path|, len, p.full[|p.path|..][..Min(WORT_MAX_PREFIX_LEN, len)])
  }

  /** A header is either right, or gives itself away by its depth. */
  ghost predicate HeaderOk(h: Header, p: Place)
    requires |p.path| <= |p.full|
  {
    h.depth == |p.path| ==> h == TrueHeader(p)
  }

  ghost predicate TwoChildren(children: seq<Addr>)
    requires |children| == WORT_NUM_NODE_ENTRIES
  {
    exists c: Nibble, c': Nibble :: c != c' && children[c] != NULL && children[c'] != NULL
  }

  ghost predicate ChildOk(t: Tree, full: seq<Nibble>, c: Nibble, child: Addr) {
    child != NULL ==> child in t.places && t.places[child].path == full + [c]
  }

  ghost predicate CellOk(t: Tree, a: Addr)
    requires a in t.places && a in t.nodes
  {
    var p := t.places[a];
    Prefix(p.path, p.full) &&
    match t.nodes[a]
    case Leaf(key, _) => p.full == Nibs(key)
    case Inner(h, children) =>
      && |children| == WORT_NUM_NODE_ENTRIES && |p.full| <= WORT_MAX_DEPTH && HeaderOk(h, p)
      && TwoChildren(children)
      && forall c: Nibble :: ChildOk(t, p.full, c, children[c])
  }

  ghost predicate IsParent(t: Tree, p: Addr, c: Nibble, a: Addr) {
    p in t.places && p in t.nodes && t.nodes[p].Inner? && |t.nodes[p].children| == WORT_NUM_NODE_ENTRIES && t.nodes[p].children[c] == a
  }

  ghost predicate HasParent(t: Tree, a: Addr) {
    exists p, c: Nibble :: IsParent(t, p, c, a)
  }

  ghost predicate TreeOk(t: Tree) {
    && NULL !in t.nodes
    && (if t.root == NULL then t.places == map[] else t.root in t.places && t.places[t.root].path == [])
    && (forall a | a in t.places :: a in t.nodes && CellOk(t, a))
    && (forall a {:trigger HasParent(t, a)} | a in t.places && a != t.root :: HasParent(t, a))
  }

  // ----- how cells lie in the key space -----

  /** n has a child on the way to what lies at a path. */
  ghost predicate Above(t: Tree, n: Addr, path: seq<Nibble>)
    requires n in t.places && n in t.nodes
  {
    var full := t.places[n].full;
    t.nodes[n].Inner? && |t.nodes[n].children| == WORT_NUM_NODE_ENTRIES
    && Prefix(full, path) && |full| < |path| && t.nodes[n].children[path[|full|]] != NULL
  }

  lemma Link(t: Tree, p: Addr, c: Nibble, a: Addr)
    requires TreeOk(t) && a in t.places && IsParent(t, p, c, a)
    ensures p in t.nodes && t.places[a].path == t.places[p].full + [c]
    ensures Prefix(t.places[p].path, t.places[p].full) && Prefix(t.places[p].full, t.places[a].path)
    ensures Prefix(t.places[p].path, t.places[a].path) && |t.places[p].full| + 1 == |t.places[a].path|
    ensures Above(t, p, t.places[a].path)
  {
    assert CellOk(t, p) && a in t.nodes && ChildOk(t, t.places[p].full, c, a);
    PrefixTrans(t.places[p].path, t.places[p].full, t.places[a].path);
  }

  lemma Parent(t: Tree, a: Addr) returns (p: Addr, c: Nibble)
    requires TreeOk(t) && a in t.places && a != t.root
    ensures IsParent(t, p, c, a)
  {
    assert HasParent(t, a);
    p, c :| IsParent(t, p, c, a);
  }

  lemma RootPath(t: Tree)
    requires TreeOk(t) && t.places != map[]
    ensures t.root in t.places && t.places[t.root].path == []
  {
  }

  lemma InNodes(t: Tree, a: Addr)
    requires TreeOk(t) && a in t.places
    ensures a in t.nodes && CellOk(t, a) && a != NULL
  {
  }

  /** Of two cells one above the other, the upper one has a child on the way to the lower one. */
  lemma {:induction false} Descends(t: Tree, n: Addr, b: Addr)
    requires TreeOk(t) && n in t.places && b in t.places && Prefix(t.places[n].path, t.places[b].path)
    ensures n in t.nodes
    ensures n == b || Above(t, n, t.places[b].path)
    decreases |t.places[n].path| + |t.places[b].path|, 1
  {
    InNodes(t, n);
    RootPath(t);
    hide TreeOk;
    hide CellOk;
    var path := t.places[b].path;
    if n == b {
    } else if b == t.root {
      var p, c := Parent(t, n);
      Link(t, p, c, n);
    } else {
      var a, c := Parent(t, b);
      Link(t, a, c, b);
      if |t.places[n].path| <= |t.places[a].path| {
        PrefixChain(t.places[n].path, t.places[a].path, path);
        Descends(t, n, a);
        if n != a {
          AboveMore(t, n, t.places[a].path, path);
        }
      } else {
        PrefixChain(t.places[a].path, t.places[n].path, path);
        Descends(t, a, n);
        SamePath(t, n, b, a, c);
      }
    }
  }

  lemma AboveMore(t: Tree, n: Addr, path: seq<Nibble>, more: seq<Nibble>)
    requires n in t.places && n in t.nodes && Above(t, n, path) && Prefix(path, more)
    ensures Above(t, n, more)
  {
    PrefixTrans(t.places[n].full, path, more);
  }

  lemma {:induction false} SamePath(t: Tree, n: Addr, b: Addr, a: Addr, c: Nibble)
    requires TreeOk(t) && n in t.places && b in t.places && IsParent(t, a, c, b)
    requires t.places[n].path == t.places[b].path
    ensures n == b
    decreases |t.places[n].path| + |t.places[b].path|, 0
  {
    Link(t, a, c, b);
    RootPath(t);
    InNodes(t, n);
    hide TreeOk;
    hide CellOk;
    var a', c' := Parent(t, n);
    Link(t, a', c', n);
    var path, full := t.places[n].path, t.places[a].full;
    assert path[..|path| - 1] == full == t.places[a'].full && path[|path| - 1] == c == c';
    if |t.places[a].path| <= |t.places[a'].path| {
      PrefixChain(t.places[a].path, t.places[a'].path, full);
      Descends(t, a, a');
    } else {
      PrefixChain(t.places[a'].path, t.places[a].path, full);
      Descends(t, a', a);
    }
  }

  // ----- the map a tree stands for -----

  ghost predicate LeafAt(t: Tree, a: Addr, key: U64) {
    a in t.places && a in t.nodes && t.nodes[a].Leaf? && t.nodes[a].key == key
  }

  ghost predicate LeafIs(t: Tree, a: Addr, key: U64, value: U64) {
    a in t.places && a in t.nodes && t.nodes[a] == Leaf(key, value)
  }

  ghost predicate Has(t: Tree, key: U64) {
    exists a :: LeafAt(t, a, key)
  }

  ghost function Keys(t: Tree): set<U64>
    requires TreeOk(t)
  {
    set a | a in t.places && t.nodes[a].Leaf? :: t.nodes[a].key
  }

  ghost function Contents(t: Tree): (m: map<U64, U64>)
    requires TreeOk(t)
  {
    map key | key in Keys(t) :: LeafOf(t, key)
  }

  ghost function LeafOf(t: Tree, key: U64): (value: U64)
    requires TreeOk(t) && key in Keys(t)
    ensures exists a :: LeafIs(t, a, key, value)
  {
    var a :| a in t.places && LeafAt(t, a, key);
    assert LeafIs(t, a, key, t.nodes[a].value);
    t.nodes[a].value
  }

  /** A key sits in one leaf only. */
  lemma OneLeaf(t: Tree, a: Addr, b: Addr, key: U64)
    requires TreeOk(t) && LeafAt(t, a, key) && LeafAt(t, b, key)
    ensures a == b
  {
    InNodes(t, a);
    InNodes(t, b);
    if |t.places[a].path| <= |t.places[b].path| {
      PrefixChain(t.places[a].path, t.places[b].path, Nibs(key));
      Descends(t, a, b);
    } else {
      PrefixChain(t.places[b].path, t.places[a].path, Nibs(key));
      Descends(t, b, a);
    }
  }

  lemma AtLeaf(t: Tree, a: Addr, key: U64)
    requires TreeOk(t) && LeafAt(t, a, key)
    ensures key in Contents(t) && Contents(t)[key] == t.nodes[a].value
  {
    var b :| b in t.places && LeafAt(t, b, key) && t.nodes[b].value == LeafOf(t, key);
    OneLeaf(t, a, b, key);
  }

  /** What the leaves say is the map. */
  lemma ContentsAre(t: Tree, m: map<U64, U64>)
    requires TreeOk(t)
    requires forall a, key | LeafAt(t, a, key) :: key in m && m[key] == t.nodes[a].value
    requires forall key | key in m :: Has(t, key)
    ensures Contents(t) == m
  {
    hide TreeOk;
    forall key | key in Contents(t) ensures key in m && m[key] == Contents(t)[key] {
      assert key in Keys(t);
      assert LeafOf(t, key) == Contents(t)[key];
    }
    forall key | key in m ensures key in Contents(t) {
      var a :| LeafAt(t, a, key);
      assert t.nodes[a].key in Keys(t);
    }
  }

  /** From a cell whose path a present key shares, the key's next nibble leads on to its leaf. */
  lemma Toward(t: Tree, n: Addr, key: U64)
    requires TreeOk(t) && Has(t, key) && n in t.places && Prefix(t.places[n].path, Nibs(key))
    ensures n in t.nodes && (LeafAt(t, n, key) || Above(t, n, Nibs(key)))
  {
    var b :| LeafAt(t, b, key);
    InNodes(t, b);
    InNodes(t, n);
    if |t.places[n].path| <= |t.places[b].path| {
      PrefixChain(t.places[n].path, t.places[b].path, Nibs(key));
      Descends(t, n, b);
      if n != b {
        AboveMore(t, n, t.places[b].path, Nibs(key));
      }
    } else {
      PrefixChain(t.places[b].path, t.places[n].path, Nibs(key));
      Descends(t, b, n);
    }
  }

  // ----- stores -----

  /** A slot that holds a pointer: the tree's root, or a child of a node. */
  datatype Ref = RootRef | ChildRef(parent: Addr, c: Nibble)

  ghost predicate RefTo(t: Tree, ref: Ref, n: Addr) {
    match ref
    case RootRef => t.root == n
    case ChildRef(p, c) => IsParent(t, p, c, n)
  }

  lemma RefSlot(t: Tree, ref: Ref, n: Addr)
    requires RefTo(t, ref, n)
    ensures ref.ChildRef? ==> ref.parent in t.nodes && t.nodes[ref.parent].Inner? && |t.nodes[ref.parent].children| == WORT_NUM_NODE_ENTRIES
  {
  }

  /** *ref = a */
  function Linked(t: Tree, ref: Ref, a: Addr): Tree {
    match ref
    case RootRef => t.(root := a)
    case ChildRef(p, c) =>
      if p in t.nodes && t.nodes[p].Inner? && c < |t.nodes[p].children|
      then t.(nodes := t.nodes[p := t.nodes[p].(children := t.nodes[p].children[c := a])])
      else t
  }

  function WithHeader(t: Tree, a: Addr, h: Header): Tree {
    if a in t.nodes && t.nodes[a].Inner? then t.(nodes := t.nodes[a := t.nodes[a].(header := h)]) else t
  }

  ghost predicate SameContents(t: Tree, t': Tree) {
    TreeOk(t) && TreeOk(t') && Contents(t') == Contents(t)
  }

  /** t' is t with key set to value, and nothing else changed. */
  ghost predicate Updated(t: Tree, t': Tree, key: U64, value: U64) {
    TreeOk(t) && TreeOk(t') && Contents(t') == Contents(t)[key := value]
  }

  lemma FindLeaf(t: Tree, key: U64) returns (a: Addr)
    requires TreeOk(t) && key in Contents(t)
    ensures LeafIs(t, a, key, Contents(t)[key])
  {
    var value := LeafOf(t, key);
    hide TreeOk;
    a :| LeafIs(t, a, key, value);
  }

  lemma LeavesSame(t: Tree, t': Tree)
    requires TreeOk(t) && TreeOk(t')
    requires forall a, key, value :: LeafIs(t', a, key, value) <==> LeafIs(t, a, key, value)
    ensures SameContents(t, t')
  {
    hide TreeOk;
    forall a, key | LeafAt(t', a, key) ensures key in Contents(t) && Contents(t)[key] == t'.nodes[a].value {
      assert LeafIs(t', a, key, t'.nodes[a].value);
      AtLeaf(t, a, key);
    }
    forall key | key in Contents(t) ensures Has(t', key) {
      var a := FindLeaf(t, key);
      assert LeafAt(t', a, key);
    }
    ContentsAre(t', Contents(t));
  }

  /** One leaf more, or one leaf with a new value. */
  lemma LeafMore(t: Tree, t': Tree, b: Addr, key: U64, value: U64)
    requires TreeOk(t) && TreeOk(t')
    requires LeafIs(t', b, key, value) && (b in t.places ==> LeafAt(t, b, key))
    requires forall a, k, v | a != b :: LeafIs(t', a, k, v) <==> LeafIs(t, a, k, v)
    ensures Updated(t, t', key, value)
  {
    hide TreeOk;
    var m := Contents(t)[key := value];
    forall a, k | LeafAt(t', a, k) ensures k in m && m[k] == t'.nodes[a].value {
      assert LeafIs(t', a, k, t'.nodes[a].value);
      if a != b {
        AtLeaf(t, a, k);
        if k == key {
          OneLeaf(t', a, b, k);
        }
      }
    }
    forall k | k in m ensures Has(t', k) {
      if k == key {
        assert LeafAt(t', b, k);
      } else {
        var a := FindLeaf(t, k);
        assert LeafIs(t', a, k, Contents(t)[k]) && LeafAt(t', a, k);
      }
    }
    ContentsAre(t', m);
  }

  /** A cell keeps its place; a leaf its key, a node its children. */
  ghost predicate Kept(t: Tree, t': Tree, b: Addr)
    requires b in t.places && b in t.nodes
  {
    && t'.places == t.places && b in t'.nodes
    && match t.nodes[b]
       case Leaf(key, _) => t'.nodes[b].Leaf? && t'.nodes[b].key == key
       case Inner(_, children) => t'.nodes[b].Inner? && t'.nodes[b].children == children
                                  && (CellOk(t, b) ==> HeaderOk(t'.nodes[b].header, t.places[b]))
  }

  lemma CellSame(t: Tree, t': Tree, b: Addr)
    requires TreeOk(t) && b in t.places && b in t.nodes && Kept(t, t', b)
    ensures CellOk(t', b)
  {
    assert CellOk(t, b);
    if t.nodes[b].Inner? {
      forall c: Nibble ensures ChildOk(t', t.places[b].full, c, t.nodes[b].children[c]) {
        assert ChildOk(t, t.places[b].full, c, t.nodes[b].children[c]);
      }
    }
  }

  lemma ShapeSame(t: Tree, t': Tree)
    requires TreeOk(t) && t'.root == t.root && t'.places == t.places && NULL !in t'.nodes
    requires forall b | b in t.places :: b in t.nodes && Kept(t, t', b)
    ensures TreeOk(t')
  {
    forall b | b in t'.places ensures b in t'.nodes && CellOk(t', b) {
      CellSame(t, t', b);
    }
    forall b | b in t'.places && b != t'.root ensures HasParent(t', b) {
      var p, c := Parent(t, b);
      assert IsParent(t', p, c, b);
    }
  }

  /** Fresh memory, not linked yet. */
  lemma Allocated(t: Tree, a: Addr, cell: Cell)
    requires TreeOk(t) && a != NULL && a !in t.nodes
    ensures SameContents(t, t.(nodes := t.nodes[a := cell]))
  {
    var t' := t.(nodes := t.nodes[a := cell]);
    forall b | b in t.places ensures b in t.nodes && Kept(t, t', b) {
      InNodes(t, b);
    }
    ShapeSame(t, t');
    hide TreeOk;
    LeavesSame(t, t');
  }

  /** A header may be overwritten by the right one, or by one that gives itself away. */
  lemma HeaderSet(t: Tree, n: Addr, h: Header)
    requires TreeOk(t) && n in t.places && t.nodes[n].Inner?
    requires CellOk(t, n) && HeaderOk(h, t.places[n])
    ensures SameContents(t, WithHeader(t, n, h))
  {
    var t' := WithHeader(t, n, h);
    hide CellOk;
    hide HeaderOk;
    forall b | b in t.places ensures b in t.nodes && Kept(t, t', b) {
      InNodes(t, b);
    }
    ShapeSame(t, t');
    hide TreeOk;
    LeavesSame(t, t');
  }

  lemma ValueSet(t: Tree, a: Addr, key: U64, value: U64)
    requires TreeOk(t) && LeafAt(t, a, key)
    ensures Updated(t, t.(nodes := t.nodes[a := Leaf(key, value)]), key, value)
  {
    var t' := t.(nodes := t.nodes[a := Leaf(key, value)]);
    forall b | b in t.places ensures b in t.nodes && Kept(t, t', b) {
      InNodes(t, b);
    }
    ShapeSame(t, t');
    hide TreeOk;
    LeafMore(t, t', a, key, value);
  }

  lemma RootAdded(t: Tree, b: Addr, key: U64, value: U64)
    requires TreeOk(t) && t.root == NULL && b in t.nodes && t.nodes[b] == Leaf(key, value)
    ensures Updated(t, Linked(t, RootRef, b).(places := map[b := Place([], Nibs(key))]), key, value)
  {
    LeafMore(t, Linked(t, RootRef, b).(places := map[b := Place([], Nibs(key))]), b, key, value);
  }

  /** A child pointer leads to a placed cell. */
  lemma ChildPlaced(t: Tree, a: Addr, c: Nibble)
    requires TreeOk(t) && a in t.places && a in t.nodes && t.nodes[a].Inner?
    ensures |t.nodes[a].children| == WORT_NUM_NODE_ENTRIES && ChildOk(t, t.places[a].full, c, t.nodes[a].children[c])
    ensures t.nodes[a].children[c] != NULL ==> t.nodes[a].children[c] in t.places && IsParent(t, a, c, t.nodes[a].children[c])
  {
    assert CellOk(t, a);
  }

  /** Cell a of t, with its children where they were, is well-formed in t'. */
  lemma CellMoved(t: Tree, t': Tree, a: Addr)
    requires TreeOk(t) && a in t.places && a in t.nodes && a in t'.places && a in t'.nodes
    requires t'.nodes[a] == t.nodes[a] && t'.places[a] == t.places[a]
    requires t.nodes[a].Inner? ==> |t.nodes[a].children| == WORT_NUM_NODE_ENTRIES && forall c: Nibble ::
      var x := t.nodes[a].children[c]; x != NULL ==> x in t'.places && x in t.places && t'.places[x].path == t.places[x].path
    ensures CellOk(t', a)
  {
    assert CellOk(t, a);
    if t.nodes[a].Inner? {
      forall c: Nibble ensures ChildOk(t', t.places[a].full, c, t.nodes[a].children[c]) {
        assert ChildOk(t, t.places[a].full, c, t.nodes[a].children[c]);
      }
    }
  }

  function WithLeaf(t: Tree, p: Addr, b: Addr, key: U64): Tree
    requires p in t.places && |t.places[p].full| < WORT_MAX_HEIGHT
  {
    var full := t.places[p].full;
    var c := Nibs(key)[|full|];
    Linked(t, ChildRef(p, c), b).(places := t.places[b := Place(full + [c], Nibs(key))])
  }

  /** Node p has no child on the way to a key, and b is an unlinked leaf for it. */
  ghost predicate CanAdd(t: Tree, p: Addr, b: Addr, key: U64, value: U64) {
    && p in t.places && p in t.nodes && t.nodes[p].Inner? && CellOk(t, p)
    && Prefix(t.places[p].full, Nibs(key)) && t.nodes[p].children[Nibs(key)[|t.places[p].full|]] == NULL
    && b !in t.places && b in t.nodes && t.nodes[b] == Leaf(key, value)
  }

  lemma AddedParent(t: Tree, p: Addr, b: Addr, key: U64, value: U64)
    requires CanAdd(t, p, b, key, value)
    ensures var t' := WithLeaf(t, p, b, key); p in t'.nodes && p in t'.places && CellOk(t', p)
  {
    var t', full := WithLeaf(t, p, b, key), t.places[p].full;
    var children, children' := t.nodes[p].children, t'.nodes[p].children;
    forall x: Nibble ensures ChildOk(t', full, x, children'[x]) {
      assert ChildOk(t, full, x, children[x]);
    }
    var x: Nibble, x': Nibble :| x != x' && children[x] != NULL && children[x'] != NULL;
    assert children'[x] != NULL && children'[x'] != NULL;
  }

  lemma AddedCell(t: Tree, p: Addr, b: Addr, key: U64, value: U64, a: Addr)
    requires TreeOk(t) && CanAdd(t, p, b, key, value) && (a in t.places || a == b)
    ensures var t' := WithLeaf(t, p, b, key); a in t'.nodes && a in t'.places && CellOk(t', a)
  {
    hide TreeOk;
    hide HasParent;
    hide Nibs;
    var t' := WithLeaf(t, p, b, key);
    if a == p {
      AddedParent(t, p, b, key, value);
    } else if a == b {
      PrefixNext(t.places[p].full, Nibs(key));
    } else {
      InNodes(t, a);
      hide CellOk;
      if t.nodes[a].Inner? {
        forall x: Nibble ensures ChildOk(t, t.places[a].full, x, t.nodes[a].children[x]) { ChildPlaced(t, a, x); }
        ChildPlaced(t, a, 0);
      }
      CellMoved(t, t', a);
    }
  }

  lemma AddedHasParent(t: Tree, p: Addr, b: Addr, key: U64, value: U64, a: Addr)
    requires TreeOk(t) && CanAdd(t, p, b, key, value) && a != t.root && (a in t.places || a == b)
    ensures HasParent(WithLeaf(t, p, b, key), a)
  {
    var c := Nibs(key)[|t.places[p].full|];
    var t' := WithLeaf(t, p, b, key);
    if a == b {
      assert IsParent(t', p, c, b);
    } else {
      InNodes(t, a);
      var q, x := Parent(t, a);
      assert q == p && x == c ==> a == NULL;
      assert IsParent(t', q, x, a);
    }
  }

  lemma AddedOk(t: Tree, p: Addr, b: Addr, key: U64, value: U64)
    requires TreeOk(t) && CanAdd(t, p, b, key, value)
    ensures TreeOk(WithLeaf(t, p, b, key))
  {
    var t' := WithLeaf(t, p, b, key);
    assert NULL !in t'.nodes && t'.root == t.root && t'.places.Keys == t.places.Keys + {b};
    assert t.root in t.places && t.places[t.root].path == [] && t'.places[t.root] == t.places[t.root];
    hide CanAdd;
    hide CellOk;
    hide HasParent;
    forall a | a in t'.places ensures a in t'.nodes && CellOk(t', a) {
      AddedCell(t, p, b, key, value, a);
    }
    forall a | a in t'.places && a != t'.root ensures HasParent(t', a) {
      AddedHasParent(t, p, b, key, value, a);
    }
  }

  /** An empty child slot takes a new leaf. */
  lemma LeafAdded(t: Tree, p: Addr, b: Addr, key: U64, value: U64)
    requires TreeOk(t) && CanAdd(t, p, b, key, value)
    ensures Updated(t, WithLeaf(t, p, b, key), key, value)
  {
    hide TreeOk;
    hide Nibs;
    var t' := WithLeaf(t, p, b, key);
    AddedOk(t, p, b, key, value);
    assert forall a, k, v | a != b :: LeafIs(t', a, k, v) <==> LeafIs(t, a, k, v);
    assert LeafIs(t', b, key, value) && b !in t.places;
    hide CanAdd;
    hide WithLeaf;
    hide LeafIs;
    LeafMore(t, t', b, key, value);
  }

  /** Only one slot points to a cell. */
  lemma OneRef(t: Tree, ref: Ref, n: Addr, a: Addr, c: Nibble)
    requires TreeOk(t) && n in t.places && RefTo(t, ref, n) && IsParent(t, a, c, n)
    ensures ref == ChildRef(a, c) && n != t.root
  {
    Link(t, a, c, n);
    RootPath(t);
    var path, full := t.places[n].path, t.places[a].full;
    match ref
    case RootRef =>
    case ChildRef(p, c') =>
      Link(t, p, c', n);
      assert path[..|path| - 1] == full == t.places[p].full && path[|path| - 1] == c == c';
      hide TreeOk;
      if |t.places[a].path| <= |t.places[p].path| {
        PrefixChain(t.places[a].path, t.places[p].path, full);
        Descends(t, a, p);
      } else {
        PrefixChain(t.places[p].path, t.places[a].path, full);
        Descends(t, p, a);
      }
  }

  /** The sixteen children of a new node with two of them. */
  function Fork(c: Nibble, a: Addr, c': Nibble, b: Addr): (children: seq<Addr>)
    requires c != c'
    ensures |children| == WORT_NUM_NODE_ENTRIES && children[c] == a && children[c'] == b
    ensures forall x: Nibble | x != c && x != c' :: children[x] == NULL
  {
    seq(WORT_NUM_NODE_ENTRIES, x => NULL)[c := a][c' := b]
  }

  /** Where cell n, the node x put above it at nibble f, and the leaf b beside it sit. */
  function ForkPlaces(places: map<Addr, Place>, n: Addr, x: Addr, b: Addr, key: U64, f: nat): map<Addr, Place>
    requires n in places && f < |places[n].full| <= WORT_MAX_HEIGHT
  {
    var p := places[n];
    places[n := Place(p.full[..f + 1], p.full)][x := Place(p.path, p.full[..f])][b := Place(Nibs(key)[..f + 1], Nibs(key))]
  }

  /**
   Cell n, which ref points to, shares a key's nibbles up to f only. The unlinked node x is ready to take its
   place, with n and the unlinked leaf b below it.
   */
  ghost predicate CanFork(t: Tree, ref: Ref, n: Addr, x: Addr, b: Addr, key: U64, value: U64, f: nat) {
    && n in t.places && n in t.nodes && CellOk(t, n) && RefTo(t, ref, n)
    && var p := t.places[n];
    && |p.path| <= f < |p.full| <= WORT_MAX_HEIGHT && Nibs(key)[..f] == p.full[..f] && Nibs(key)[f] != p.full[f]
    && (t.nodes[n].Inner? ==> t.nodes[n].header.depth == |p.path|)
    && x != b && x !in t.places && b !in t.places && x in t.nodes && b in t.nodes && t.nodes[b] == Leaf(key, value)
    && t.nodes[x] == Inner(TrueHeader(Place(p.path, p.full[..f])), Fork(p.full[f], n, Nibs(key)[f], b))
  }

  function Forked(t: Tree, ref: Ref, n: Addr, x: Addr, b: Addr, key: U64, f: nat): Tree
    requires n in t.places && f < |t.places[n].full| <= WORT_MAX_HEIGHT
  {
    Linked(t, ref, x).(places := ForkPlaces(t.places, n, x, b, key, f))
  }

  /** The cell whose slot ref is does not move, and is neither n nor below it. */
  lemma RefParent(t: Tree, ref: Ref, n: Addr)
    requires TreeOk(t) && n in t.places && RefTo(t, ref, n)
    ensures ref.ChildRef? ==> ref.parent != n && n != t.root && t.places[n].path == t.places[ref.parent].full + [ref.c]
    ensures ref.RootRef? ==> t.places[n].path == []
  {
    if ref.ChildRef? {
      Link(t, ref.parent, ref.c, n);
      OneRef(t, ref, n, ref.parent, ref.c);
    }
  }

  lemma ForkedPlaces(places: map<Addr, Place>, n: Addr, x: Addr, b: Addr, key: U64, f: nat)
    requires n in places && f < |places[n].full| <= WORT_MAX_HEIGHT && x != b && x !in places && b !in places
    ensures var r, p := ForkPlaces(places, n, x, b, key, f), places[n];
      && r.Keys == places.Keys + {x, b} && r[n] == Place(p.full[..f + 1], p.full) && r[x] == Place(p.path, p.full[..f])
      && r[b] == Place(Nibs(key)[..f + 1], Nibs(key))
      && forall a | a in places && a != n :: a in r && r[a] == places[a]
  {
    hide Nibs;
  }

  lemma LinkedAt(t: Tree, ref: Ref, x: Addr)
    requires ref.ChildRef? ==> ref.parent in t.nodes
    ensures var t' := Linked(t, ref, x);
      && t'.root == (if ref.RootRef? then x else t.root) && t'.places == t.places && t'.nodes.Keys == t.nodes.Keys
      && (forall a | a in t.nodes && !(ref.ChildRef? && a == ref.parent) :: a in t'.nodes && t'.nodes[a] == t.nodes[a])
  {
  }

  /** What the fork leaves where it was. */
  lemma ForkedAt(t: Tree, ref: Ref, n: Addr, x: Addr, b: Addr, key: U64, value: U64, f: nat)
    requires TreeOk(t) && CanFork(t, ref, n, x, b, key, value, f)
    ensures var t' := Forked(t, ref, n, x, b, key, f);
      && n !in {x, b} && NULL !in {n, x, b}
      && t'.nodes.Keys == t.nodes.Keys && t'.places.Keys == t.places.Keys + {x, b}
      && t'.nodes[n] == t.nodes[n] && t'.nodes[x] == t.nodes[x] && t'.nodes[b] == t.nodes[b]
    ensures var t', p := Forked(t, ref, n, x, b, key, f), t.places[n];
      && t'.places[n] == Place(p.full[..f + 1], p.full) && t'.places[x] == Place(p.path, p.full[..f])
      && t'.places[b] == Place(Nibs(key)[..f + 1], Nibs(key))
    ensures var t' := Forked(t, ref, n, x, b, key, f);
      && t'.root == (if ref.RootRef? then x else t.root)
      && (forall a | a in t.places && a != n :: a in t'.places && t'.places[a] == t.places[a])
      && (forall a | a in t.nodes && !(ref.ChildRef? && a == ref.parent) :: a in t'.nodes && t'.nodes[a] == t.nodes[a])
  {
    hide CellOk;
    hide Nibs;
    hide HasParent;
    RefParent(t, ref, n);
    LinkedAt(t, ref, x);
    ForkedPlaces(t.places, n, x, b, key, f);
    hide TreeOk;
    hide Linked;
    hide ForkPlaces;
  }

  lemma ForkedNew(t: Tree, ref: Ref, n: Addr, x: Addr, b: Addr, key: U64, value: U64, f: nat)
    requires TreeOk(t) && CanFork(t, ref, n, x, b, key, value, f)
    ensures var t' := Forked(t, ref, n, x, b, key, f); x in t'.nodes && x in t'.places && CellOk(t', x)
  {
    var t', p, full := Forked(t, ref, n, x, b, key, f), t.places[n], t.places[n].full;
    var c, c', children := full[f], Nibs(key)[f], t.nodes[x].children;
    assert Prefix(p.path, full);
    hide CellOk;
    hide Nibs;
    InNodes(t, n);
    ForkedAt(t, ref, n, x, b, key, value, f);
    assert children == Fork(c, n, c', b) && |full[..f]| <= WORT_MAX_DEPTH;
    assert t'.nodes[x] == Inner(TrueHeader(t'.places[x]), children);
    hide TreeOk;
    hide Forked;
    ForkCell(t', p.path, full, Nibs(key), f, n, b, x);
  }

  /** A node that forks at nibble f, above a and b. */
  lemma ForkCell(t: Tree, path: seq<Nibble>, p: seq<Nibble>, q: seq<Nibble>, f: nat, a: Addr, b: Addr, x: Addr)
    requires Prefix(path, p) && |path| <= f < |p| && f < |q| && f <= WORT_MAX_DEPTH && p[..f] == q[..f] && p[f] != q[f]
    requires NULL !in {a, b} && a in t.places && b in t.places && t.places[a].path == p[..f + 1] && t.places[b].path == q[..f + 1]
    requires x in t.places && x in t.nodes && t.places[x] == Place(path, p[..f])
    requires t.nodes[x] == Inner(TrueHeader(t.places[x]), Fork(p[f], a, q[f], b))
    ensures CellOk(t, x)
  {
    var children := t.nodes[x].children;
    assert p[..f][..|path|] == path;
    assert p[..f + 1] == p[..f] + [p[f]] && q[..f + 1] == q[..f] + [q[f]];
    assert children[p[f]] == a && children[q[f]] == b;
    forall y: Nibble ensures ChildOk(t, p[..f], y, children[y]) {
      if y != p[f] && y != q[f] { assert children[y] == NULL; }
    }
    assert TwoChildren(children);
    hide Fork;
  }

  lemma ForkedBelow(t: Tree, ref: Ref, n: Addr, x: Addr, b: Addr, key: U64, value: U64, f: nat)
    requires TreeOk(t) && CanFork(t, ref, n, x, b, key, value, f)
    ensures var t' := Forked(t, ref, n, x, b, key, f); n in t'.nodes && n in t'.places && CellOk(t', n)
  {
    hide TreeOk;
    hide Nibs;
    hide HasParent;
    hide Fork;
    hide TwoChildren;
    RefParent(t, ref, n);
    ForkedAt(t, ref, n, x, b, key, value, f);
    var t', p := Forked(t, ref, n, x, b, key, f), t.places[n];
    hide Forked;
    hide RefTo;
    if t.nodes[n].Inner? {
      forall c: Nibble ensures ChildOk(t', p.full, c, t.nodes[n].children[c]) {
        assert ChildOk(t, p.full, c, t.nodes[n].children[c]);
      }
    }
  }

  lemma LeafFits(t: Tree, b: Addr, key: U64, f: nat)
    requires b in t.nodes && b in t.places && t.nodes[b].Leaf? && t.nodes[b].key == key
    requires f <= WORT_MAX_HEIGHT && t.places[b] == Place(Nibs(key)[..f], Nibs(key))
    ensures CellOk(t, b)
  {
    hide Nibs;
  }

  lemma ForkedLeaf(t: Tree, ref: Ref, n: Addr, x: Addr, b: Addr, key: U64, value: U64, f: nat)
    requires TreeOk(t) && CanFork(t, ref, n, x, b, key, value, f)
    ensures var t' := Forked(t, ref, n, x, b, key, f); b in t'.nodes && b in t'.places && CellOk(t', b)
  {
    hide TreeOk;
    hide HasParent;
    hide Nibs;
    hide Fork;
    ForkedAt(t, ref, n, x, b, key, value, f);
    hide Forked;
    hide CanFork;
    LeafFits(Forked(t, ref, n, x, b, key, f), b, key, f + 1);
  }

  lemma ForkedParent(t: Tree, ref: Ref, n: Addr, x: Addr, b: Addr, key: U64, value: U64, f: nat)
    requires TreeOk(t) && CanFork(t, ref, n, x, b, key, value, f) && ref.ChildRef?
    ensures var t', q := Forked(t, ref, n, x, b, key, f), ref.parent;
      q in t'.nodes && q in t'.places && t'.places[q] == t.places[q] && CellOk(t', q)
      && q in t.nodes && t.nodes[q].Inner? && t'.nodes[q].Inner?
      && |t.nodes[q].children| == WORT_NUM_NODE_ENTRIES && t'.nodes[q].children == t.nodes[q].children[ref.c := x]
  {
    hide Nibs;
    hide HasParent;
    var t', q := Forked(t, ref, n, x, b, key, f), ref.parent;
    ForkedAt(t, ref, n, x, b, key, value, f);
    RefParent(t, ref, n);
    InNodes(t, q);
    var full, children, children' := t.places[q].full, t.nodes[q].children, t'.nodes[q].children;
    assert t'.nodes[q] == t.nodes[q].(children := children[ref.c := x]);
    assert t'.places[x].path == t.places[n].path;
    hide CanFork;
    hide TreeOk;
    hide Forked;
    forall c: Nibble ensures ChildOk(t', full, c, children'[c]) {
      assert ChildOk(t, full, c, children[c]);
      if c != ref.c && children[c] == n {
        OneRef(t, ref, n, q, c);
      }
    }
    assert TwoChildren(children') by {
      var c: Nibble, c': Nibble :| c != c' && children[c] != NULL && children[c'] != NULL;
      assert children'[c] != NULL && children'[c'] != NULL;
    }
    hide ChildOk;
    hide TwoChildren;
  }

  lemma ForkedCell(t: Tree, ref: Ref, n: Addr, x: Addr, b: Addr, key: U64, value: U64, f: nat, a: Addr)
    requires TreeOk(t) && CanFork(t, ref, n, x, b, key, value, f) && (a in t.places || a == x || a == b)
    ensures var t' := Forked(t, ref, n, x, b, key, f); a in t'.nodes && a in t'.places && CellOk(t', a)
  {
    hide TreeOk;
    hide CellOk;
    if a == x {
      ForkedNew(t, ref, n, x, b, key, value, f);
    } else if a == b {
      ForkedLeaf(t, ref, n, x, b, key, value, f);
    } else if a == n {
      ForkedBelow(t, ref, n, x, b, key, value, f);
    } else if ref.ChildRef? && a == ref.parent {
      ForkedParent(t, ref, n, x, b, key, value, f);
    } else {
      InNodes(t, a);
      var t' := Forked(t, ref, n, x, b, key, f);
      ForkedAt(t, ref, n, x, b, key, value, f);
      assert RefTo(t, ref, n);
      hide CanFork;
      hide Forked;
      hide RefTo;
      if t.nodes[a].Inner? {
        ChildPlaced(t, a, 0);
        forall c: Nibble ensures var y := t.nodes[a].children[c]; y != NULL ==> y in t'.places && y in t.places && t'.places[y].path == t.places[y].path {
          ChildPlaced(t, a, c);
          if t.nodes[a].children[c] == n {
            OneRef(t, ref, n, a, c);
          }
        }
      }
      CellMoved(t, t', a);
    }
  }

  lemma ForkedHasParent(t: Tree, ref: Ref, n: Addr, x: Addr, b: Addr, key: U64, value: U64, f: nat, a: Addr)
    requires TreeOk(t) && CanFork(t, ref, n, x, b, key, value, f) && (a in t.places || a == x || a == b)
    ensures var t' := Forked(t, ref, n, x, b, key, f); a == t'.root || HasParent(t', a)
  {
    var t' := Forked(t, ref, n, x, b, key, f);
    hide TreeOk;
    hide CellOk;
    RefParent(t, ref, n);
    ForkedAt(t, ref, n, x, b, key, value, f);
    if ref.ChildRef? {
      ForkedParent(t, ref, n, x, b, key, value, f);
    }
    var c, c', children := t.places[n].full[f], Nibs(key)[f], t.nodes[x].children;
    assert children == Fork(c, n, c', b) && t'.nodes[x].Inner? && t'.nodes[x].children == children;
    assert RefTo(t, ref, n);
    hide CanFork;
    hide Forked;
    hide RefTo;
    hide Fork;
    if a == n {
      assert IsParent(t', x, c, n);
    } else if a == b {
      assert IsParent(t', x, c', b);
    } else if a == x {
      if ref.ChildRef? { assert IsParent(t', ref.parent, ref.c, x); }
    } else if a != t.root {
      var q, y := Parent(t, a);
      ForkedKeeps(t, ref, n, x, b, key, value, f, q, y, a);
    }
  }

  lemma ForkedKeeps(t: Tree, ref: Ref, n: Addr, x: Addr, b: Addr, key: U64, value: U64, f: nat, q: Addr, y: Nibble, a: Addr)
    requires TreeOk(t) && CanFork(t, ref, n, x, b, key, value, f) && a != n && IsParent(t, q, y, a)
    ensures IsParent(Forked(t, ref, n, x, b, key, f), q, y, a)
  {
    hide TreeOk;
    hide CellOk;
    ForkedAt(t, ref, n, x, b, key, value, f);
    if ref.ChildRef? && q == ref.parent {
      ForkedParent(t, ref, n, x, b, key, value, f);
    }
  }

  lemma ForkedRoot(t: Tree, ref: Ref, n: Addr, x: Addr, b: Addr, key: U64, value: U64, f: nat)
    requires TreeOk(t) && CanFork(t, ref, n, x, b, key, value, f)
    ensures var t' := Forked(t, ref, n, x, b, key, f);
      t'.root != NULL && t'.root in t'.places && t'.places[t'.root].path == [] && NULL !in t'.nodes
  {
    ForkedAt(t, ref, n, x, b, key, value, f);
    RefParent(t, ref, n);
    RootPath(t);
    InNodes(t, t.root);
    assert NULL !in t.nodes;
    hide TreeOk;
    hide CellOk;
    hide Forked;
    hide RefTo;
  }

  lemma ForkedOk(t: Tree, ref: Ref, n: Addr, x: Addr, b: Addr, key: U64, value: U64, f: nat)
    requires TreeOk(t) && CanFork(t, ref, n, x, b, key, value, f)
    ensures TreeOk(Forked(t, ref, n, x, b, key, f))
  {
    hide Nibs;
    hide HasParent;
    hide CellOk;
    hide Forked;
    var t' := Forked(t, ref, n, x, b, key, f);
    ForkedRoot(t, ref, n, x, b, key, value, f);
    ForkedAt(t, ref, n, x, b, key, value, f);
    forall a | a in t'.places ensures a in t'.nodes && CellOk(t', a) {
      ForkedCell(t, ref, n, x, b, key, value, f, a);
    }
    forall a | a in t'.places && a != t'.root ensures HasParent(t', a) {
      ForkedHasParent(t, ref, n, x, b, key, value, f, a);
    }
  }

  /** Linking a new node above a leaf, or above a node whose prefix splits, adds the key. */
  lemma ForkAdded(t: Tree, ref: Ref, n: Addr, x: Addr, b: Addr, key: U64, value: U64, f: nat)
    requires TreeOk(t) && CanFork(t, ref, n, x, b, key, value, f)
    ensures Updated(t, Forked(t, ref, n, x, b, key, f), key, value)
  {
    hide Nibs;
    hide HasParent;
    hide CellOk;
    hide TreeOk;
    var t' := Forked(t, ref, n, x, b, key, f);
    ForkedOk(t, ref, n, x, b, key, value, f);
    ForkedAt(t, ref, n, x, b, key, value, f);
    if ref.ChildRef? {
      ForkedParent(t, ref, n, x, b, key, value, f);
    }
    hide Forked;
    assert LeafIs(t', b, key, value) && b !in t.places && t.nodes[x].Inner?;
    hide CanFork;
    assert forall a, k, v | a != b :: LeafIs(t', a, k, v) <==> LeafIs(t, a, k, v);
    hide LeafIs;
    LeafMore(t, t', b, key, value);
  }

  // ----- leaves under a cell -----

  /** A leaf whose key shares all nibbles of a cell. */
  ghost predicate Under(t: Tree, n: Addr, leaf: Addr) {
    n in t.places && leaf in t.places && leaf in t.nodes && t.nodes[leaf].Leaf? && Prefix(t.places[n].full, Nibs(t.nodes[leaf].key))
  }

  lemma UnderSelf(t: Tree, n: Addr)
    requires TreeOk(t) && n in t.places && n in t.nodes && t.nodes[n].Leaf?
    ensures Under(t, n, n)
    ensures forall key | key in Contents(t) && Prefix(t.places[n].path, Nibs(key)) :: key == t.nodes[n].key
  {
    InNodes(t, n);
    hide TreeOk;
    forall key | key in Contents(t) && Prefix(t.places[n].path, Nibs(key)) ensures key == t.nodes[n].key {
      HasKey(t, key);
      Toward(t, n, key);
    }
  }

  lemma HasKey(t: Tree, key: U64)
    requires TreeOk(t) && key in Contents(t)
    ensures Has(t, key)
  {
    var a := FindLeaf(t, key);
    assert LeafAt(t, a, key);
  }

  lemma SomeChild(t: Tree, n: Addr)
    requires TreeOk(t) && n in t.places && n in t.nodes && t.nodes[n].Inner?
    ensures |t.nodes[n].children| == WORT_NUM_NODE_ENTRIES && TwoChildren(t.nodes[n].children)
    ensures Prefix(t.places[n].path, t.places[n].full) && |t.places[n].full| <= WORT_MAX_DEPTH
  {
    InNodes(t, n);
  }

  lemma Deeper(t: Tree, n: Addr, c: Nibble)
    requires TreeOk(t) && n in t.places && n in t.nodes && t.nodes[n].Inner?
    requires |t.nodes[n].children| == WORT_NUM_NODE_ENTRIES && t.nodes[n].children[c] != NULL
    ensures t.nodes[n].children[c] in t.places && t.nodes[n].children[c] in t.nodes
    ensures t.places[t.nodes[n].children[c]].path == t.places[n].full + [c]
    ensures |t.places[n].path| < |t.places[n].full| + 1 <= WORT_MAX_HEIGHT
    ensures Prefix(t.places[t.nodes[n].children[c]].path, t.places[t.nodes[n].children[c]].full)
  {
    InNodes(t, n);
    ChildPlaced(t, n, c);
    InNodes(t, t.nodes[n].children[c]);
  }

  lemma UnderChild(t: Tree, n: Addr, c: Nibble, leaf: Addr)
    requires TreeOk(t) && n in t.places && n in t.nodes && t.nodes[n].Inner?
    requires |t.nodes[n].children| == WORT_NUM_NODE_ENTRIES && t.nodes[n].children[c] != NULL
    requires Under(t, t.nodes[n].children[c], leaf)
    ensures Under(t, n, leaf) && |t.places[n].full| < WORT_MAX_HEIGHT && Nibs(t.nodes[leaf].key)[|t.places[n].full|] == c
    ensures Nibs(t.nodes[leaf].key)[..|t.places[n].full|] == t.places[n].full
  {
    Deeper(t, n, c);
    hide TreeOk;
    hide Nibs;
    var child, q := t.nodes[n].children[c], Nibs(t.nodes[leaf].key);
    PrefixTrans(t.places[child].path, t.places[child].full, q);
    PrefixLast(t.places[n].full, c, q);
  }

  /** The first child leads to the least keys. */
  lemma LeastOf(t: Tree, n: Addr, c: Nibble, leaf: Addr, key: U64)
    requires TreeOk(t) && n in t.places && n in t.nodes && t.nodes[n].Inner?
    requires |t.nodes[n].children| == WORT_NUM_NODE_ENTRIES && t.nodes[n].children[c] != NULL
    requires forall x: Nibble | x < c :: t.nodes[n].children[x] == NULL
    requires Under(t, t.nodes[n].children[c], leaf)
    requires key in Contents(t) && Prefix(t.places[n].path, Nibs(key))
    requires Prefix(t.places[t.nodes[n].children[c]].path, Nibs(key)) ==> t.nodes[leaf].key <= key
    ensures t.nodes[leaf].key <= key
  {
    HasKey(t, key);
    Toward(t, n, key);
    UnderChild(t, n, c, leaf);
    Deeper(t, n, c);
    hide TreeOk;
    hide Nibs;
    var f := |t.places[n].full|;
    var x := Nibs(key)[f];
    if x == c {
      PrefixNext(t.places[n].full, Nibs(key));
    } else {
      NibsOrder(t.nodes[leaf].key, key, f);
    }
  }

  // ----- headers -----

  /** Two keys that part right after full share exactly full. */
  lemma PartAfter(p: seq<Nibble>, q: seq<Nibble>, full: seq<Nibble>, depth: nat)
    requires |p| == |q| && depth <= |full| < |p| && Prefix(full, p) && Prefix(full, q) && p[|full|] != q[|full|]
    ensures Shared(p, q, depth) == |full| - depth
  {
    forall i | depth <= i < |full| ensures p[i] == q[i] {
      assert full[i] == p[i];
    }
  }

  /** The prefix of a node, spelled out by any key below it. */
  lemma SpelledOut(p: Place, q: seq<Nibble>)
    requires Prefix(p.path, p.full) && Prefix(p.full, q)
    ensures var h := TrueHeader(p); h.nibbles == q[h.depth..h.depth + Min(WORT_MAX_PREFIX_LEN, h.len)]
  {
  }

  /** A present key matches the stored nibbles of every node on its way. */
  lemma Mismatch(t: Tree, n: Addr, key: U64, idx: nat)
    requires TreeOk(t) && n in t.places && n in t.nodes && t.nodes[n].Inner? && Prefix(t.places[n].path, t.places[n].full)
    requires Has(t, key) ==> Prefix(t.places[n].path, Nibs(key))
    requires var h := TrueHeader(t.places[n]);
      idx < |h.nibbles| && h.depth + idx < WORT_MAX_HEIGHT && h.nibbles[idx] != Nibs(key)[h.depth + idx]
    ensures !Has(t, key)
  {
    hide TreeOk;
    hide Nibs;
    if Has(t, key) {
      Toward(t, n, key);
      SpelledOut(t.places[n], Nibs(key));
    }
  }

  lemma NoChild(t: Tree, n: Addr, key: U64)
    requires TreeOk(t) && n in t.places && n in t.nodes && t.nodes[n].Inner? && |t.nodes[n].children| == WORT_NUM_NODE_ENTRIES
    requires Has(t, key) ==> Prefix(t.places[n].path, Nibs(key))
    requires |t.places[n].full| < WORT_MAX_HEIGHT && t.nodes[n].children[Nibs(key)[|t.places[n].full|]] == NULL
    ensures !Has(t, key)
  {
    hide TreeOk;
    hide Nibs;
    if Has(t, key) {
      Toward(t, n, key);
    }
  }

  lemma OnTheWay(t: Tree, n: Addr, key: U64)
    requires TreeOk(t) && n in t.places && n in t.nodes && t.nodes[n].Inner? && |t.nodes[n].children| == WORT_NUM_NODE_ENTRIES
    requires Has(t, key) ==> Prefix(t.places[n].path, Nibs(key))
    requires |t.places[n].full| < WORT_MAX_HEIGHT
    ensures Has(t, key) ==> Prefix(t.places[n].full + [Nibs(key)[|t.places[n].full|]], Nibs(key))
  {
    hide TreeOk;
    hide Nibs;
    if Has(t, key) {
      Toward(t, n, key);
      PrefixNext(t.places[n].full, Nibs(key));
    }
  }

  lemma OtherLeaf(t: Tree, n: Addr, key: U64)
    requires TreeOk(t) && n in t.places && n in t.nodes && t.nodes[n].Leaf? && t.nodes[n].key != key
    requires Has(t, key) ==> Prefix(t.places[n].path, Nibs(key))
    ensures !Has(t, key)
  {
    hide TreeOk;
    hide Nibs;
    if Has(t, key) {
      Toward(t, n, key);
    }
  }

  ghost function Lookup(m: map<U64, U64>, key: U64): Option<U64> {
    if key in m then Some(m[key]) else None
  }

  lemma NotHas(t: Tree, key: U64)
    requires TreeOk(t) && !Has(t, key)
    ensures Lookup(Contents(t), key) == None
  {
    if key in Contents(t) {
      HasKey(t, key);
    }
  }

  /** Where a walk starts. */
  lemma AtRoot(t: Tree)
    requires TreeOk(t)
    ensures t.root == NULL ==> t.places == map[] && forall key :: !Has(t, key)
    ensures t.root != NULL ==> t.root in t.places && t.root in t.nodes && t.places[t.root].path == []
  {
  }

  lemma HeaderRight(t: Tree, n: Addr)
    requires TreeOk(t) && n in t.places && n in t.nodes && t.nodes[n].Inner?
    ensures Prefix(t.places[n].path, t.places[n].full)
    ensures t.nodes[n].header.depth == |t.places[n].path| ==> t.nodes[n].header == TrueHeader(t.places[n])
  {
    InNodes(t, n);
  }

  // ----- crashes -----

  /** What a crash may leave of an update: the map before it, or the map after it. */
  ghost predicate BeforeOrAfter(t: Tree, image: Tree, key: U64, value: U64) {
    SameContents(t, image) || Updated(t, image, key, value)
  }

  lemma UpdatedAfter(t: Tree, t1: Tree, t2: Tree, key: U64, value: U64)
    requires SameContents(t, t1) && BeforeOrAfter(t1, t2, key, value)
    ensures BeforeOrAfter(t, t2, key, value)
    ensures Updated(t1, t2, key, value) ==> Updated(t, t2, key, value)
  {
    hide TreeOk;
    hide Contents;
  }

  lemma AllAfter(t: Tree, t1: Tree, key: U64, value: U64)
    requires SameContents(t, t1)
    ensures forall im :: BeforeOrAfter(t1, im, key, value) ==> BeforeOrAfter(t, im, key, value)
    ensures forall im :: Updated(t1, im, key, value) ==> Updated(t, im, key, value)
  {
    hide TreeOk;
    hide Contents;
  }

  lemma Grows(m: map<U64, U64>, key: U64, value: U64)
    ensures |m[key := value]| == |m| + if key in m then 0 else 1
  {
    assert m[key := value].Keys == m.Keys + {key};
  }

  /** A header store that breaks off a split gives itself away: the node still sits where it did. */
  lemma Misplaced(t: Tree, n: Addr, h: Header)
    requires TreeOk(t) && n in t.places && n in t.nodes && t.nodes[n].Inner? && h.depth != |t.places[n].path|
    ensures SameContents(t, WithHeader(t, n, h))
  {
    InNodes(t, n);
    HeaderSet(t, n, h);
  }

  /**
   A prefix split stores the pointer to the new node and the old node's header, with no order between them.
   Whichever of the two stores a crash keeps, the tree holds the map from before or after the update.
   */
  lemma SplitCrash(t: Tree, ref: Ref, n: Addr, x: Addr, b: Addr, key: U64, value: U64, f: nat, h: Header)
    requires TreeOk(t) && CanFork(t, ref, n, x, b, key, value, f) && t.nodes[n].Inner?
    requires h == TrueHeader(Place(t.places[n].full[..f + 1], t.places[n].full))
    ensures SameContents(t, WithHeader(t, n, h))
    ensures var linked := Forked(t, ref, n, x, b, key, f);
      && Updated(t, linked, key, value)
      && Updated(t, WithHeader(linked, n, h), key, value)
  {
    ForkedAt(t, ref, n, x, b, key, value, f);
    ForkAdded(t, ref, n, x, b, key, value, f);
    Misplaced(t, n, h);
    var linked := Forked(t, ref, n, x, b, key, f);
    InNodes(linked, n);
    hide TreeOk;
    hide Contents;
    hide Forked;
    HeaderSet(linked, n, h);
  }

  // ----- preparing a split -----

  /** A key leaves the way to cell n right at nibble f. */
  ghost predicate PartsAt(t: Tree, ref: Ref, n: Addr, key: U64, f: nat) {
    && n in t.places && n in t.nodes && RefTo(t, ref, n)
    && |t.places[n].path| <= f < |t.places[n].full| <= WORT_MAX_HEIGHT
    && Nibs(key)[..f] == t.places[n].full[..f] && Nibs(key)[f] != t.places[n].full[f]
    && (t.nodes[n].Inner? ==> t.nodes[n].header.depth == |t.places[n].path|)
  }

  /** A new leaf and a new node above n and the leaf, not linked yet. */
  function WithFork(t: Tree, n: Addr, x: Addr, b: Addr, key: U64, value: U64, f: nat): Tree
    requires n in t.places && |t.places[n].path| <= f < |t.places[n].full| <= WORT_MAX_HEIGHT
    requires Nibs(key)[f] != t.places[n].full[f]
  {
    var p := t.places[n];
    t.(nodes := t.nodes[b := Leaf(key, value)][x := Inner(TrueHeader(Place(p.path, p.full[..f])), Fork(p.full[f], n, Nibs(key)[f], b))])
  }

  lemma NotPlaced(t: Tree, a: Addr)
    requires TreeOk(t) && a !in t.nodes
    ensures a !in t.places
  {
    if a in t.places {
      InNodes(t, a);
    }
  }

  lemma RefStill(t: Tree, ref: Ref, n: Addr, x: Addr, b: Addr, key: U64, value: U64, f: nat)
    requires RefTo(t, ref, n) && x !in t.nodes && b !in t.nodes
    requires n in t.places && |t.places[n].path| <= f < |t.places[n].full| <= WORT_MAX_HEIGHT && Nibs(key)[f] != t.places[n].full[f]
    ensures RefTo(WithFork(t, n, x, b, key, value, f), ref, n)
  {
    hide Nibs;
    hide Fork;
    hide TrueHeader;
  }

  lemma Prepared(t: Tree, ref: Ref, n: Addr, x: Addr, b: Addr, key: U64, value: U64, f: nat)
    requires TreeOk(t) && PartsAt(t, ref, n, key, f) && NULL !in {x, b} && x != b && x !in t.nodes && b !in t.nodes
    ensures var t' := WithFork(t, n, x, b, key, value, f);
      SameContents(t, t') && CanFork(t', ref, n, x, b, key, value, f)
  {
    hide TreeOk;
    hide Nibs;
    hide Contents;
    hide Fork;
    hide RefTo;
    InNodes(t, n);
    var p := t.places[n];
    var t1 := t.(nodes := t.nodes[b := Leaf(key, value)]);
    NotPlaced(t, x);
    NotPlaced(t, b);
    RefStill(t, ref, n, x, b, key, value, f);
    Allocated(t, b, Leaf(key, value));
    var cell := Inner(TrueHeader(Place(p.path, p.full[..f])), Fork(p.full[f], n, Nibs(key)[f], b));
    Allocated(t1, x, cell);
    InNodes(t1.(nodes := t1.nodes[x := cell]), n);
  }

  lemma LeafParts(t: Tree, ref: Ref, n: Addr, key: U64, f: nat)
    requires TreeOk(t) && n in t.places && n in t.nodes && RefTo(t, ref, n) && t.nodes[n].Leaf? && t.nodes[n].key != key
    requires Prefix(t.places[n].path, Nibs(key)) && f == |t.places[n].path| + Shared(Nibs(t.nodes[n].key), Nibs(key), |t.places[n].path|)
    ensures PartsAt(t, ref, n, key, f)
  {
    hide TreeOk;
    hide Nibs;
    hide RefTo;
    InNodes(t, n);
    var p, l, q := t.places[n], Nibs(t.nodes[n].key), Nibs(key);
    assert Prefix(p.path, l) && p.full == l;
    forall i | 0 <= i < |p.path| ensures l[i] == q[i] {
      assert p.path[i] == l[i];
    }
    if f == WORT_MAX_HEIGHT {
      assert l == q;
      NibsInjective(t.nodes[n].key, key);
    }
  }

  lemma UpperHeader(p: Place, f: nat)
    requires Prefix(p.path, p.full) && |p.path| <= f < |p.full|
    ensures var diff := f - |p.path|;
      TrueHeader(Place(p.path, p.full[..f])) == Header(|p.path|, diff, TrueHeader(p).nibbles[..Min(WORT_MAX_PREFIX_LEN, diff)])
  {
    var diff, c, m := f - |p.path|, Min(WORT_MAX_PREFIX_LEN, f - |p.path|), Min(WORT_MAX_PREFIX_LEN, |p.full| - |p.path|);
    assert p.full[..f][|p.path|..] == p.full[|p.path|..f];
    assert p.full[|p.path|..f][..c] == p.full[|p.path|..|p.path| + c];
    assert p.full[|p.path|..][..m] == p.full[|p.path|..|p.path| + m];
    assert p.full[|p.path|..|p.path| + m][..c] == p.full[|p.path|..|p.path| + c];
  }

  lemma LowerHeader(p: Place, f: nat)
    requires Prefix(p.path, p.full) && |p.path| <= f < |p.full| && |p.full| - |p.path| <= WORT_MAX_PREFIX_LEN
    ensures var diff, h := f - |p.path|, TrueHeader(p);
      TrueHeader(Place(p.full[..f + 1], p.full)) == Header(f + 1, h.len - (diff + 1), h.nibbles[diff + 1..]) && h.nibbles[diff] == p.full[f]
  {
    var a, n := |p.path|, |p.full|;
    assert p.full[f + 1..][..n - (f + 1)] == p.full[f + 1..];
    assert p.full[a..][..n - a] == p.full[a..];
    assert p.full[a..][f - a + 1..] == p.full[f + 1..];
  }

  lemma Elsewhere(t: Tree, n: Addr, key: U64, f: nat)
    requires TreeOk(t) && n in t.places && n in t.nodes && t.nodes[n].Inner? && Prefix(t.places[n].path, Nibs(key))
    requires f < |t.places[n].full| <= WORT_MAX_HEIGHT && Nibs(key)[f] != t.places[n].full[f]
    ensures !Has(t, key)
  {
    hide TreeOk;
    hide Nibs;
    if Has(t, key) {
      Toward(t, n, key);
    }
  }

  // ----- listing -----

  ghost predicate Ascending(kvs: seq<(U64, U64)>) {
    forall i, j | 0 <= i < j < |kvs| :: kvs[i].0 < kvs[j].0
  }

  /** kvs holds exactly the entries whose keys have a path as a prefix, in strictly ascending order. */
  ghost predicate Lists(t: Tree, path: seq<Nibble>, kvs: seq<(U64, U64)>)
    requires TreeOk(t)
  {
    && Ascending(kvs)
    && (forall i | 0 <= i < |kvs| :: kvs[i].0 in Contents(t) && Contents(t)[kvs[i].0] == kvs[i].1 && Prefix(path, Nibs(kvs[i].0)))
    && (forall key | key in Contents(t) && Prefix(path, Nibs(key)) :: (key, Contents(t)[key]) in kvs)
  }

  /** As Lists, for the keys whose nibble after full is below c. */
  ghost predicate ListsUpTo(t: Tree, full: seq<Nibble>, c: nat, kvs: seq<(U64, U64)>)
    requires TreeOk(t) && |full| < WORT_MAX_HEIGHT
  {
    && Ascending(kvs)
    && (forall i | 0 <= i < |kvs| ::
          kvs[i].0 in Contents(t) && Contents(t)[kvs[i].0] == kvs[i].1 && Prefix(full, Nibs(kvs[i].0)) && Nibs(kvs[i].0)[|full|] < c)
    && (forall key | key in Contents(t) && Prefix(full, Nibs(key)) && Nibs(key)[|full|] < c :: (key, Contents(t)[key]) in kvs)
  }

  lemma Appended(acc: seq<(U64, U64)>, got: seq<(U64, U64)>, before: seq<(U64, U64)>, after: seq<(U64, U64)>)
    requires before == acc + got && before <= after
    ensures after == acc + (got + after[|before|..])
  {
  }

  lemma ListsNone(t: Tree, full: seq<Nibble>)
    requires TreeOk(t) && |full| < WORT_MAX_HEIGHT
    ensures ListsUpTo(t, full, 0, [])
  {
  }

  lemma ListsLeaf(t: Tree, n: Addr)
    requires TreeOk(t) && n in t.places && n in t.nodes && t.nodes[n].Leaf?
    ensures Lists(t, t.places[n].path, [(t.nodes[n].key, t.nodes[n].value)])
  {
    hide TreeOk;
    hide Contents;
    hide Nibs;
    UnderSelf(t, n);
    InNodes(t, n);
    AtLeaf(t, n, t.nodes[n].key);
    PrefixTrans(t.places[n].path, t.places[n].full, Nibs(t.nodes[n].key));
  }

  /** The entries below the next child follow all entries below the earlier ones. */
  lemma ListsNext(t: Tree, n: Addr, c: Nibble, before: seq<(U64, U64)>, more: seq<(U64, U64)>)
    requires TreeOk(t) && n in t.places && n in t.nodes && t.nodes[n].Inner? && |t.nodes[n].children| == WORT_NUM_NODE_ENTRIES
    requires |t.places[n].full| < WORT_MAX_HEIGHT && ListsUpTo(t, t.places[n].full, c, before)
    requires t.nodes[n].children[c] == NULL ==> more == []
    requires t.nodes[n].children[c] != NULL ==> Lists(t, t.places[n].full + [c], more)
    requires Prefix(t.places[n].path, t.places[n].full)
    ensures ListsUpTo(t, t.places[n].full, c + 1, before + more)
  {
    hide TreeOk;
    hide Contents;
    hide Nibs;
    var full, kvs := t.places[n].full, before + more;
    forall i | 0 <= i < |more| ensures Prefix(full, Nibs(more[i].0)) && Nibs(more[i].0)[|full|] == c {
      PrefixLast(full, c, Nibs(more[i].0));
    }
    forall i, j | 0 <= i < j < |kvs| ensures kvs[i].0 < kvs[j].0 {
      if i < |before| <= j {
        NibsOrder(before[i].0, more[j - |before|].0, |full|);
      }
    }
    forall key | key in Contents(t) && Prefix(full, Nibs(key)) && Nibs(key)[|full|] < c + 1 ensures (key, Contents(t)[key]) in kvs {
      if Nibs(key)[|full|] == c {
        PrefixNext(full, Nibs(key));
        HasKey(t, key);
        PrefixTrans(t.places[n].path, full, Nibs(key));
        Toward(t, n, key);
      }
    }
  }

  lemma ListsAll(t: Tree, n: Addr, kvs: seq<(U64, U64)>)
    requires TreeOk(t) && n in t.places && n in t.nodes && t.nodes[n].Inner?
    requires |t.places[n].full| < WORT_MAX_HEIGHT && ListsUpTo(t, t.places[n].full, WORT_NUM_NODE_ENTRIES, kvs)
    requires Prefix(t.places[n].path, t.places[n].full)
    ensures Lists(t, t.places[n].path, kvs)
  {
    hide TreeOk;
    hide Contents;
    hide Nibs;
    var p := t.places[n];
    forall i | 0 <= i < |kvs| ensures Prefix(p.path, Nibs(kvs[i].0)) {
      PrefixTrans(p.path, p.full, Nibs(kvs[i].0));
    }
    forall key | key in Contents(t) && Prefix(p.path, Nibs(key)) ensures (key, Contents(t)[key]) in kvs {
      HasKey(t, key);
      Toward(t, n, key);
    }
  }

  function KeysOf(kvs: seq<(U64, U64)>): set<U64> {
    set i | 0 <= i < |kvs| :: kvs[i].0
  }

  lemma {:induction false} KeysCount(kvs: seq<(U64, U64)>)
    requires Ascending(kvs)
    ensures |KeysOf(kvs)| == |kvs|
  {
    if kvs != [] {
      var n := |kvs| - 1;
      KeysCount(kvs[..n]);
      assert KeysOf(kvs) == KeysOf(kvs[..n]) + {kvs[n].0};
    }
  }

  /** The list from the root is the map: every entry once. */
  lemma ListsWhole(t: Tree, kvs: seq<(U64, U64)>)
    requires TreeOk(t) && Lists(t, [], kvs)
    ensures |kvs| == |Contents(t)|
    ensures forall key, value :: (key, value) in kvs <==> key in Contents(t) && Contents(t)[key] == value
  {
    hide TreeOk;
    hide Contents;
    KeysCount(kvs);
    forall key | key in Contents(t) ensures key in KeysOf(kvs) {
      assert (key, Contents(t)[key]) in kvs;
    }
    assert KeysOf(kvs) == Contents(t).Keys;
  }

  // ----- runs with crashes -----

  /** The map after those of the updates that were kept. */
  function Applied(ops: seq<(U64, U64)>, kept: seq<bool>): map<U64, U64>
    requires |ops| == |kept|
  {
    if ops == [] then map[]
    else
      var n := |ops| - 1;
      var m := Applied(ops[..n], kept[..n]);
      if kept[n] then m[ops[n].0 := ops[n].1] else m
  }

  /**
   Any run of updates from an empty tree, some of them cut off by a crash: the map holds every completed update,
   and of each crashed one either all or nothing.
   */
  lemma {:induction false} RunWithCrashes(trees: seq<Tree>, ops: seq<(U64, U64)>, crashed: seq<bool>) returns (kept: seq<bool>)
    requires |trees| == |ops| + 1 && |crashed| == |ops| && TreeOk(trees[0]) && Contents(trees[0]) == map[]
    requires forall i | 0 <= i < |ops| ::
      if crashed[i] then BeforeOrAfter(trees[i], trees[i + 1], ops[i].0, ops[i].1) else Updated(trees[i], trees[i + 1], ops[i].0, ops[i].1)
    ensures |kept| == |ops| && forall i | 0 <= i < |ops| && !crashed[i] :: kept[i]
    ensures TreeOk(trees[|ops|]) && Contents(trees[|ops|]) == Applied(ops, kept)
  {
    hide TreeOk;
    hide Contents;
    if ops == [] {
      return [];
    }
    var n := |ops| - 1;
    var before := RunWithCrashes(trees[..|ops|], ops[..n], crashed[..n]);
    kept := before + [Updated(trees[n], trees[n + 1], ops[n].0, ops[n].1)];
    assert kept[..n] == before;
  }
}
