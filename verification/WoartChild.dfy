/** Adding a child to the node that a pointer leads to, store by store, as woart.cpp does. */
module WoartChildren {
  import opened Bits
  import opened Counting
  import opened Addresses
  import opened Stores
  import opened WoartNodes

  /** Memory: the pointer, and the nodes. */
  datatype Image = Image(ref: Addr, nodes: map<Addr, Node>)

  /** Stores of one word, or less, and the writing of a new node, which nothing points to yet. */
  datatype Store =
    | NewNode(a: Addr, node: Node)
    | SetRef(target: Addr)
    | SetChild(n: Addr, place: nat, x: Addr)
    | SetKey(n: Addr, place: nat, c: Byte)
    | SetBitmap(n: Addr, bitmap: nat)
    | SetIndex(n: Addr, c: Byte, index: nat)
    | SetSlots(n: Addr, slots: seq<Slot>)

  function StoredIn(n: Node, s: Store): Node {
    match s
    case SetChild(_, p, x) => if p < |n.children| then n.(children := n.children[p := x]) else n
    case SetKey(_, p, c) => if n.Node16? && p < |n.keys| then n.(keys := n.keys[p := c]) else n
    case SetBitmap(_, b) => if n.Node16? then n.(bitmap := b) else n
    case SetIndex(_, c, v) => if n.Node48? && c < |n.index| then n.(index := n.index[c := v]) else n
    case SetSlots(_, slots) => if n.Node4? then n.(slots := slots) else n
    case _ => n
  }

  function Stored(im: Image, s: Store): Image {
    match s
    case NewNode(a, n) => im.(nodes := im.nodes[a := n])
    case SetRef(a) => im.(ref := a)
    case _ => if s.n in im.nodes then im.(nodes := im.nodes[s.n := StoredIn(im.nodes[s.n], s)]) else im
  }

  /** What may be kept of a store: the whole, but for a new node, of which any part may be. */
  ghost function Parts(s: Store): iset<Store> {
    if s.NewNode? then iset s': Store | s'.NewNode? && s'.a == s.a else iset{s}
  }

  function Read(base: Image, log: seq<Event<Store>>): Image {
    Replay(Stored, base, log)
  }

  ghost predicate Leads(im: Image) {
    NULL !in im.nodes && im.ref in im.nodes && Valid(im.nodes[im.ref])
  }

  /** Read through the pointer: the children from before, or those and the new one. */
  ghost predicate Published(n: Node, im: Image, c: Byte, x: Addr) {
    Leads(im) && (SameChildren(n, im.nodes[im.ref]) || Extended(n, im.nodes[im.ref], c, x))
  }

  ghost function Publishing(n: Node, c: Byte, x: Addr): iset<Image> {
    iset im: Image | Published(n, im, c, x)
  }

  /** Whatever a crash leaves from one point of the log to another leads to such a node. */
  ghost predicate CrashSafe(base: Image, from: seq<Event<Store>>, log: seq<Event<Store>>, n: Node, c: Byte, x: Addr) {
    LeavesOnly(Stored, Parts, base, from, log, Publishing(n, c, x))
  }

  lemma SafeMeans(base: Image, from: seq<Event<Store>>, log: seq<Event<Store>>, n: Node, c: Byte, x: Addr)
    requires CrashSafe(base, from, log, n, c, x)
    ensures from <= log && forall k, im | |from| <= k <= |log| && MayLeave(Stored, Parts, base, log[..k], im) :: Published(n, im, c, x)
  {
    hide MayLeave;
    hide Published;
    forall k, im | |from| <= k <= |log| && MayLeave(Stored, Parts, base, log[..k], im) ensures Published(n, im, c, x) {
      assert im in Publishing(n, c, x);
    }
  }

  lemma SafeTrans(base: Image, l0: seq<Event<Store>>, l1: seq<Event<Store>>, l2: seq<Event<Store>>, n: Node, c: Byte, x: Addr)
    requires CrashSafe(base, l0, l1, n, c, x) && CrashSafe(base, l1, l2, n, c, x)
    ensures CrashSafe(base, l0, l2, n, c, x)
  {
    hide LeavesOnly;
    OnlyTrans(Stored, Parts, base, l0, l1, l2, Publishing(n, c, x));
  }

  /** A store of one word, made durable. */
  lemma WordStored(base: Image, log: seq<Event<Store>>, s: Store, n: Node, c: Byte, x: Addr)
    requires Durable(log) && !s.NewNode? && Published(n, Read(base, log), c, x) && Published(n, Stored(Read(base, log), s), c, x)
    ensures Read(base, log + [Write(s), Fence]) == Stored(Read(base, log), s) && Durable(log + [Write(s), Fence])
    ensures CrashSafe(base, log, log + [Write(s), Fence], n, c, x)
  {
    hide Published;
    hide LeavesOnly;
    hide Replay;
    hide Stored;
    OneStore(Stored, Parts, base, log, s, Publishing(n, c, x));
  }

  /** Two, made durable together. */
  lemma WordsStored(base: Image, log: seq<Event<Store>>, s1: Store, s2: Store, n: Node, c: Byte, x: Addr)
    requires Durable(log) && !s1.NewNode? && !s2.NewNode? && Published(n, Read(base, log), c, x)
    requires Published(n, Stored(Read(base, log), s1), c, x) && Published(n, Stored(Read(base, log), s2), c, x)
    requires Published(n, Stored(Stored(Read(base, log), s1), s2), c, x)
    ensures var log' := log + [Write(s1), Write(s2), Fence];
      && Read(base, log') == Stored(Stored(Read(base, log), s1), s2) && Durable(log') && CrashSafe(base, log, log', n, c, x)
  {
    hide Published;
    hide LeavesOnly;
    hide Replay;
    hide Stored;
    TwoStores(Stored, Parts, base, log, s1, s2, Publishing(n, c, x));
  }

  /** A new node, made durable. */
  lemma NodeWritten(base: Image, log: seq<Event<Store>>, a: Addr, node: Node, c: Byte, x: Addr)
    requires Durable(log) && Leads(Read(base, log)) && a !in Read(base, log).nodes && a != NULL
    ensures var log' := log + [Write(NewNode(a, node)), Fence];
      && Read(base, log') == Stored(Read(base, log), NewNode(a, node)) && Durable(log')
      && CrashSafe(base, log, log', Read(base, log).nodes[Read(base, log).ref], c, x)
  {
    hide LeavesOnly;
    hide Replay;
    hide Valid;
    hide Extended;
    hide SameChildren;
    var im := Read(base, log);
    var n := im.nodes[im.ref];
    SameItself(n);
    forall im' | Keeps(Stored, Parts, im, NewNode(a, node), im') ensures Published(n, im', c, x) {
    }
    OneStore(Stored, Parts, base, log, NewNode(a, node), Publishing(n, c, x));
  }

  class NodeRef {
    const base: Image                  // memory at first
    var log: seq<Event<Store>>         // all stores and fences since; memory is what they make of it
    var nextAddress: Addr

    function Ref(): Addr
      reads this`log
    {
      Read(base, log).ref
    }

    function Nodes(): map<Addr, Node>
      reads this`log
    {
      Read(base, log).nodes
    }

    /** The node that the pointer leads to. */
    function Node(): Node
      reads this`log
      requires Ref() in Nodes()
    {
      Nodes()[Ref()]
    }

    /** The pointer leads to a well-formed node, and all stores are durable. */
    ghost predicate Ok()
      reads this
    {
      Leads(Read(base, log)) && Durable(log) && nextAddress > NULL && forall a | a in Nodes() :: a < nextAddress
    }

    /** A store, flushed between fences */
    method Store(s: Store)
      modifies this`log
      ensures log == old(log) + [Write(s), Event.Fence]
    {
      log := log + [Write(s), Event.Fence];
    }

    /** A larger node, written and flushed before the pointer leads to it. */
    method Replace(n: Node, ghost c: Byte, ghost x: Addr)
      requires Ok() && Valid(n) && Extended(Node(), n, c, x)
      modifies this
      ensures Ok() && Node() == n && CrashSafe(base, old(log), log, old(Node()), c, x)
    {
      hide Valid;
      hide Extended;
      hide SameChildren;
      hide CrashSafe;
      ghost var l0, n0 := log, Node();
      var a := nextAddress;
      NodeWritten(base, l0, a, n, c, x);
      Store(NewNode(a, n));
      nextAddress := nextAddress + 1;
      ghost var l1 := log;
      SameItself(n0);
      WordStored(base, l1, SetRef(a), n0, c, x);
      Store(SetRef(a));
      SafeTrans(base, l0, l1, log, n0, c, x);
    }

    /** add_child: whatever a crash leaves, at any time, the pointer leads to a node with the children from before, or those and the new one. */
    method AddChild(c: Byte, x: Addr)
      requires Ok() && HoldsNone(Node(), c) && x != NULL
      modifies this
      ensures Ok() && Extended(old(Node()), Node(), c, x) && old(log) <= log
      ensures forall k, im | |old(log)| <= k <= |log| && MayLeave(Stored, Parts, base, log[..k], im) :: Published(old(Node()), im, c, x)
    {
      hide Valid;
      hide Extended;
      hide CrashSafe;
      hide MayLeave;
      hide Published;
      hide HoldsNone;
      ghost var n, l0 := Node(), log;
      match Node() {
        case Node4(slots, children) => AddChild4(slots, children, c, x);
        case Node16(bitmap, keys, children) => AddChild16(bitmap, keys, children, c, x);
        case Node48(index, children) => AddChild48(index, children, c, x);
        case Node256(children) => AddChild256(children, c, x);
      }
      SafeMeans(base, l0, log, n, c, x);
    }

    method AddChild256(children: seq<Addr>, c: Byte, x: Addr)
      requires Ok() && Node() == Node256(children) && HoldsNone(Node(), c) && x != NULL
      modifies this
      ensures Ok() && Extended(old(Node()), Node(), c, x) && CrashSafe(base, old(log), log, old(Node()), c, x)
    {
      hide CrashSafe;
      ghost var n := Node();
      assert !Holds(n, c, children[c]);
      SameItself(n);
      assert Extended(n, Node256(children[c := x]), c, x);
      hide Valid;
      hide Extended;
      hide SameChildren;
      WordStored(base, log, SetChild(Ref(), c, x), n, c, x);
      Store(SetChild(Ref(), c, x));
    }

    method AddChild48(index: seq<nat>, children: seq<Addr>, c: Byte, x: Addr)
      requires Ok() && Node() == Node48(index, children) && HoldsNone(Node(), c) && x != NULL
      modifies this
      ensures Ok() && Extended(old(Node()), Node(), c, x) && CrashSafe(base, old(log), log, old(Node()), c, x)
    {
      hide CrashSafe;
      ghost var n, l0 := Node(), log;
      var num, bitmap := UsedPlaces(index, children);
      if num < 48 {
        var pos := FindNextZeroBit(bitmap, 48, 0);
        FreePlace(index, children, c, x, pos);
        TwoWords(SetChild(Ref(), pos, x), SetIndex(Ref(), c, pos + 1), Node48(index, children[pos := x]), Node48(index[c := pos + 1], children[pos := x]), c, x);
      } else {
        var n' := Grow48(index, children, c, x);
        Replace(n', c, x);
      }
    }

    /** Two words of the node, one after the other; in between the node has its children still. */
    method TwoWords(s1: Store, s2: Store, ghost n1: Node, ghost n2: Node, ghost c: Byte, ghost x: Addr)
      requires Ok() && !s1.NewNode? && !s1.SetRef? && !s2.NewNode? && !s2.SetRef? && s1.n == Ref() == s2.n
      requires n1 == StoredIn(Node(), s1) && n2 == StoredIn(n1, s2) && Valid(n1) && SameChildren(Node(), n1) && Valid(n2) && Extended(Node(), n2, c, x)
      modifies this`log
      ensures Ok() && Node() == n2 && CrashSafe(base, old(log), log, old(Node()), c, x)
    {
      hide Valid;
      hide Extended;
      hide SameChildren;
      hide CrashSafe;
      hide StoredIn;
      ghost var n, l0 := Node(), log;
      SameItself(n);
      WordStored(base, l0, s1, n, c, x);
      Store(s1);
      ghost var l1 := log;
      WordStored(base, l1, s2, n, c, x);
      Store(s2);
      SafeTrans(base, l0, l1, log, n, c, x);
    }

    method AddChild16(bitmap: nat, keys: seq<Byte>, children: seq<Addr>, c: Byte, x: Addr)
      requires Ok() && Node() == Node16(bitmap, keys, children) && HoldsNone(Node(), c) && x != NULL
      modifies this
      ensures Ok() && Extended(old(Node()), Node(), c, x) && CrashSafe(base, old(log), log, old(Node()), c, x)
    {
      hide Bit;
      hide Holds;
      hide HoldsNone;
      hide CrashSafe;
      if bitmap != Pow2(16) - 1 {
        AllOnes(bitmap, 16);
        var e := FindNextZeroBit(bitmap, 16, 0);
        AddSlot16(bitmap, keys, children, c, x, e);
      } else {
        var n' := Grow16(bitmap, keys, children, c, x);
        Replace(n', c, x);
      }
    }

    /** The key and the child of a slot whose bit is off, flushed together in any order. */
    method StoreSlot16(bitmap: nat, keys: seq<Byte>, children: seq<Addr>, c: Byte, x: Addr, e: nat)
      requires Ok() && Node() == Node16(bitmap, keys, children) && HoldsNone(Node(), c) && x != NULL
      requires e < 16 && !Bit(bitmap, e)
      modifies this`log
      ensures Ok() && Ref() == old(Ref()) && Node() == Node16(bitmap, keys[e := c], children[e := x])
      ensures CrashSafe(base, old(log), log, old(Node()), c, x)
    {
      hide Bit;
      hide Holds;
      hide HoldsNone;
      hide CrashSafe;
      hide Extended;
      hide Valid;
      hide SameChildren;
      hide Stored;
      hide Replay;
      hide Published;
      ghost var n, l0 := Node(), log;
      var a := Ref();
      SlotStored(Read(base, l0), bitmap, keys, children, c, x, e);
      WordsStored(base, l0, SetKey(a, e, c), SetChild(a, e, x), n, c, x);
      log := log + [Write(SetKey(a, e, c)), Write(SetChild(a, e, x)), Event.Fence];
    }

    /** A free slot of a node with 16: the key and the child, and then their bit. */
    method AddSlot16(bitmap: nat, keys: seq<Byte>, children: seq<Addr>, c: Byte, x: Addr, e: nat)
      requires Ok() && Node() == Node16(bitmap, keys, children) && HoldsNone(Node(), c) && x != NULL
      requires e < 16 && !Bit(bitmap, e)
      modifies this`log
      ensures Ok() && Extended(old(Node()), Node(), c, x) && CrashSafe(base, old(log), log, old(Node()), c, x)
    {
      hide Bit;
      hide Holds;
      hide HoldsNone;
      hide CrashSafe;
      hide Extended;
      ghost var n, l0 := Node(), log;
      FreeBit(bitmap, keys, children, c, x, e);
      AreValid(n, [Node16(bitmap, keys[e := c], children[e := x])], Node16(bitmap + Pow2(e), keys[e := c], children[e := x]), c, x);
      hide Valid;
      hide SameChildren;
      StoreSlot16(bitmap, keys, children, c, x, e);
      ghost var l1 := log;
      WordStored(base, l1, SetBitmap(Ref(), bitmap + Pow2(e)), n, c, x);
      Store(SetBitmap(Ref(), bitmap + Pow2(e)));
      SafeTrans(base, l0, l1, log, n, c, x);
    }

    method AddChild4(slots: seq<Slot>, children: seq<Addr>, c: Byte, x: Addr)
      requires Ok() && Node() == Node4(slots, children) && HoldsNone(Node(), c) && x != NULL
      modifies this
      ensures Ok() && Extended(old(Node()), Node(), c, x) && CrashSafe(base, old(log), log, old(Node()), c, x)
    {
      hide CrashSafe;
      if slots[3].iPtr == -1 {
        var tempSlot, p := Inserted(slots, children, c);
        FreeSlot(slots, children, c, x, p, tempSlot);
        TwoWords(SetChild(Ref(), p, x), SetSlots(Ref(), tempSlot), Node4(slots, children[p := x]), Node4(tempSlot, children[p := x]), c, x);
      } else {
        var n' := Grow4(slots, children, c, x);
        Replace(n', c, x);
      }
    }
  }

  lemma SlotStored(im: Image, bitmap: nat, keys: seq<Byte>, children: seq<Addr>, c: Byte, x: Addr, e: nat)
    requires Leads(im) && im.nodes[im.ref] == Node16(bitmap, keys, children) && HoldsNone(im.nodes[im.ref], c) && x != NULL
    requires e < 16 && !Bit(bitmap, e)
    ensures var n, k, v := im.nodes[im.ref], SetKey(im.ref, e, c), SetChild(im.ref, e, x);
      && Published(n, im, c, x) && Published(n, Stored(im, k), c, x) && Published(n, Stored(im, v), c, x)
      && Published(n, Stored(Stored(im, k), v), c, x) && |keys| == 16 == |children|
      && Leads(Stored(Stored(im, k), v)) && Stored(Stored(im, k), v) == im.(nodes := im.nodes[im.ref := Node16(bitmap, keys[e := c], children[e := x])])
  {
    hide Bit;
    hide Holds;
    hide HoldsNone;
    hide Extended;
    var n := im.nodes[im.ref];
    assert |keys| == 16 == |children|;
    hide Valid;
    FreeBit(bitmap, keys, children, c, x, e);
    AreValid(n, [Node16(bitmap, keys[e := c], children), Node16(bitmap, keys, children[e := x]),
                 Node16(bitmap, keys[e := c], children[e := x])], Node16(bitmap + Pow2(e), keys[e := c], children[e := x]), c, x);
    SameItself(n);
    hide SameChildren;
  }

  lemma AreValid(n: Node, same: seq<Node>, more: Node, c: Byte, x: Addr)
    requires Extended(n, more, c, x) && forall i | 0 <= i < |same| :: SameChildren(n, same[i])
    ensures Valid(more) && forall i | 0 <= i < |same| :: Valid(same[i])
  {
  }

  lemma SameItself(n: Node)
    requires Valid(n)
    ensures SameChildren(n, n)
  {
  }

  // ----- where the new child goes -----

  /** The places that an index names, as a bitmap, and how many they are. */
  method UsedPlaces(index: seq<nat>, children: seq<Addr>) returns (num: nat, bitmap: nat)
    requires Valid(Node48(index, children))
    ensures num < 48 ==> (forall i: nat :: Bit(bitmap, i) <==> i + 1 in index) && exists i: nat :: i < 48 && !Bit(bitmap, i)
  {
    bitmap, num := 0, 0;
    ZeroBits(48);
    ghost var used: set<int> := {};
    var i := 0;
    while i < 256 && num < 48
      invariant i <= 256 && num == |used| <= 48
      invariant forall p: int :: p in used <==> exists d :: 0 <= d < i && index[d] > 0 && index[d] - 1 == p
      invariant forall p: nat :: Bit(bitmap, p) <==> p in used
    {
      if index[i] > 0 {
        var p := index[i] - 1;
        assert p !in used;
        var b := bitmap + Pow2(p);
        forall q: nat ensures Bit(b, q) <==> q == p || Bit(bitmap, q) { AddBit(bitmap, p, q); }
        bitmap, num, used := b, num + 1, used + {p};
      }
      i := i + 1;
    }
    if num < 48 {
      forall p: nat ensures Bit(bitmap, p) <==> p + 1 in index {
        if p + 1 in index {
          var d :| 0 <= d < 256 && index[d] == p + 1;
        }
      }
      if Interval(0, 48) <= used {
        SubsetCard(Interval(0, 48), used);
      }
      ghost var q :| q in Interval(0, 48) && q !in used;
      assert !Bit(bitmap, q);
    }
  }

  lemma FreePlace(index: seq<nat>, children: seq<Addr>, c: Byte, x: Addr, pos: nat)
    requires Valid(Node48(index, children)) && HoldsNone(Node48(index, children), c) && x != NULL && pos < 48 && pos + 1 !in index
    ensures SameChildren(Node48(index, children), Node48(index, children[pos := x]))
    ensures Extended(Node48(index, children), Node48(index[c := pos + 1], children[pos := x]), c, x)
  {
    assert !Holds(Node48(index, children), c, children[if index[c] > 0 then index[c] - 1 else 0]);
    assert index[c] == 0;
    forall d | 0 <= d < 256 && index[d] > 0 ensures index[d] - 1 != pos {
      assert index[d] in index;
    }
  }

  lemma FreeBit(bitmap: nat, keys: seq<Byte>, children: seq<Addr>, c: Byte, x: Addr, e: nat)
    requires Valid(Node16(bitmap, keys, children)) && HoldsNone(Node16(bitmap, keys, children), c) && x != NULL && e < 16 && !Bit(bitmap, e)
    ensures var n := Node16(bitmap, keys, children);
      && SameChildren(n, Node16(bitmap, keys[e := c], children)) && SameChildren(n, Node16(bitmap, keys, children[e := x]))
      && SameChildren(n, Node16(bitmap, keys[e := c], children[e := x]))
      && Extended(n, Node16(bitmap + Pow2(e), keys[e := c], children[e := x]), c, x)
  {
    hide Bit;
    hide HoldsNone;
    hide Holds;
    hide Extended;
    hide SameChildren;
    var b := bitmap + Pow2(e);
    forall i: nat ensures Bit(b, i) <==> i == e || Bit(bitmap, i) { AddBit(bitmap, e, i); }
    SmallBits(bitmap, 16);
    BoundedBits(b, 16);
    OneMoreBit(bitmap, b, keys, children, c, x, e);
    ClearBits(bitmap, keys, children, c, x, e);
  }

  lemma ClearBits(bitmap: nat, keys: seq<Byte>, children: seq<Addr>, c: Byte, x: Addr, e: nat)
    requires Valid(Node16(bitmap, keys, children)) && e < 16 && !Bit(bitmap, e)
    ensures var n := Node16(bitmap, keys, children);
      && SameChildren(n, Node16(bitmap, keys[e := c], children)) && SameChildren(n, Node16(bitmap, keys, children[e := x]))
      && SameChildren(n, Node16(bitmap, keys[e := c], children[e := x]))
  {
    hide Bit;
    SameBits(bitmap, keys, children, keys[e := c], children);
    SameBits(bitmap, keys, children, keys, children[e := x]);
    SameBits(bitmap, keys, children, keys[e := c], children[e := x]);
  }

  lemma OneMoreBit(bitmap: nat, b: nat, keys: seq<Byte>, children: seq<Addr>, c: Byte, x: Addr, e: nat)
    requires Valid(Node16(bitmap, keys, children)) && HoldsNone(Node16(bitmap, keys, children), c) && x != NULL && e < 16
    requires b < Pow2(16) && !Bit(bitmap, e) && forall i: nat :: Bit(b, i) <==> i == e || Bit(bitmap, i)
    ensures Extended(Node16(bitmap, keys, children), Node16(b, keys[e := c], children[e := x]), c, x)
  {
    hide Bit;
    hide Pow2;
    var n, n' := Node16(bitmap, keys, children), Node16(b, keys[e := c], children[e := x]);
    forall i: nat | i < 16 && Bit(bitmap, i) ensures keys[i] != c {
      assert !Holds(n, c, children[i]);
    }
    assert Valid(n');
    forall d: Byte, y ensures Holds(n', d, y) <==> Holds(n, d, y) || (d == c && y == x) {
      if Holds(n, d, y) {
        var i: nat :| i < 16 && Bit(bitmap, i) && keys[i] == d && children[i] == y;
        assert Bit(b, i) && n'.keys[i] == d;
      }
      if d == c && y == x { assert Bit(b, e) && n'.keys[e] == d; }
    }
  }

  /** Keys and children whose bits are clear do not matter. */
  lemma SameBits(bitmap: nat, keys: seq<Byte>, children: seq<Addr>, keys': seq<Byte>, children': seq<Addr>)
    requires Valid(Node16(bitmap, keys, children)) && |keys'| == 16 && |children'| == 16
    requires forall i: nat | i < 16 && Bit(bitmap, i) :: keys'[i] == keys[i] && children'[i] == children[i]
    ensures SameChildren(Node16(bitmap, keys, children), Node16(bitmap, keys', children'))
  {
    hide Bit;
    var n, n' := Node16(bitmap, keys, children), Node16(bitmap, keys', children');
    forall d: Byte, y ensures Holds(n', d, y) <==> Holds(n, d, y) {
      if Holds(n, d, y) {
        var i: nat :| i < 16 && Bit(bitmap, i) && keys[i] == d && children[i] == y;
        assert keys'[i] == d;
      }
    }
  }

  /** A small number has no high bits. */
  lemma SmallBits(x: nat, n: nat)
    requires x < Pow2(n)
    ensures forall i: nat | i >= n :: !Bit(x, i)
  {
    forall i: nat | i >= n ensures !Bit(x, i) { SmallBit(x, n, i); }
  }

  lemma {:induction false} SmallBit(x: nat, n: nat, i: nat)
    requires x < Pow2(n) && i >= n
    ensures !Bit(x, i)
    decreases i
  {
    if x == 0 {
      ZeroBit(i);
    } else {
      BitStep(x, i);
      SmallBit(x / 2, n - 1, i - 1);
    }
  }

  /** The slot word with the new key in its place in the order, and a free place for the child. */
  method Inserted(slots: seq<Slot>, children: seq<Addr>, c: Byte) returns (tempSlot: seq<Slot>, p: nat)
    requires Valid(Node4(slots, children)) && Used(slots) < 4 && HoldsNone(Node4(slots, children), c)
    ensures p < 4 && !PtrBefore(slots, Used(slots), p)
    ensures exists mid: nat :: mid <= Used(slots) && InsertedAt(slots, tempSlot, mid, c, p)
  {
    hide Bit;
    hide InsertedAt;
    hide HoldsNone;
    hide Holds;
    var idx, mid := 0, -1;
    var pIdx: nat := 0;
    ZeroBits(4);
    while idx < 4 && slots[idx].iPtr != -1
      invariant 0 <= idx <= Used(slots) && BitsOf(pIdx, slots, idx)
      invariant mid == -1 ==> forall i | 0 <= i < idx :: slots[i].key <= c
      invariant mid != -1 ==> 0 <= mid < idx && c < slots[mid].key && forall i | 0 <= i < mid :: slots[i].key <= c
    {
      BitsStep(pIdx, slots, idx);
      pIdx := pIdx + Pow2(slots[idx].iPtr);
      if mid == -1 && c < slots[idx].key {
        mid := idx;
      }
      idx := idx + 1;
    }
    if mid == -1 {
      mid := idx;
    }
    p := FindNextZeroBit(pIdx, 4, 0);
    SomeFree(slots, pIdx);
    NewKey(slots, children, c);
    tempSlot := slots[..mid] + [Slot(c, p)] + slots[mid..idx] + seq(3 - idx, _ => Slot(0, -1));
    Placed(slots, mid, c, p);
  }

  lemma Placed(slots: seq<Slot>, mid: nat, c: Byte, p: nat)
    requires Sorted(slots) && |slots| == 4 && mid <= Used(slots) < 4
    requires (forall i | 0 <= i < mid :: slots[i].key < c) && (mid < Used(slots) ==> c < slots[mid].key)
    ensures var idx := Used(slots);
      InsertedAt(slots, slots[..mid] + [Slot(c, p)] + slots[mid..idx] + seq(3 - idx, _ => Slot(0, -1)), mid, c, p)
  {
    AscendingFrom(slots, mid);
    hide Used;
    hide Sorted;
    hide PutIn;
    hide InsertedAt;
    var idx := Used(slots);
    var new' := slots[..mid] + [Slot(c, p)] + slots[mid..idx] + seq(3 - idx, _ => Slot(0, -1));
    Pieces(slots, mid, idx, Slot(c, p), seq(3 - idx, _ => Slot(0, -1)));
    InsertedPieces(slots, new', mid, c, p);
  }

  /** new is old with s put in at mid, and free slots behind. */
  ghost predicate PutIn(old': seq<Slot>, new': seq<Slot>, mid: nat, idx: nat, s: Slot)
    requires mid <= idx <= |old'|
  {
    && |new'| > idx && (forall i | 0 <= i < mid :: new'[i] == old'[i]) && new'[mid] == s
    && (forall i | mid < i <= idx :: new'[i] == old'[i - 1]) && forall i | idx < i < |new'| :: new'[i].iPtr == -1
  }

  lemma Pieces(slots: seq<Slot>, mid: nat, idx: nat, s: Slot, rest: seq<Slot>)
    requires mid <= idx <= |slots| && forall i | 0 <= i < |rest| :: rest[i].iPtr == -1
    ensures PutIn(slots, slots[..mid] + [s] + slots[mid..idx] + rest, mid, idx, s)
    ensures |slots[..mid] + [s] + slots[mid..idx] + rest| == idx + 1 + |rest|
  {
  }

  lemma InsertedPieces(slots: seq<Slot>, new': seq<Slot>, mid: nat, c: Byte, p: nat)
    requires |slots| == 4 == |new'| && mid <= Used(slots) < 4 && PutIn(slots, new', mid, Used(slots), Slot(c, p))
    requires (forall i | 0 <= i < mid :: slots[i].key < c) && (mid < Used(slots) ==> c < slots[mid].key)
    requires forall i | mid <= i < Used(slots) :: slots[mid].key <= slots[i].key
    ensures InsertedAt(slots, new', mid, c, p)
  {
    hide Used;
  }

  lemma AscendingFrom(slots: seq<Slot>, mid: nat)
    requires Sorted(slots) && mid <= Used(slots)
    ensures forall i | mid <= i < Used(slots) :: slots[mid].key <= slots[i].key
  {
  }

  lemma NewKey(slots: seq<Slot>, children: seq<Addr>, c: Byte)
    requires Valid(Node4(slots, children)) && HoldsNone(Node4(slots, children), c)
    ensures forall i | 0 <= i < Used(slots) :: slots[i].key != c
  {
    forall i | 0 <= i < Used(slots) ensures slots[i].key != c {
      assert !Holds(Node4(slots, children), c, children[slots[i].iPtr]);
    }
  }

  /** Three slots leave one of four places free. */
  lemma SomeFree(slots: seq<Slot>, bits: nat)
    requires |slots| == 4 && Used(slots) < 4 && BitsOf(bits, slots, Used(slots))
    ensures exists i: nat :: i < 4 && !Bit(bits, i)
  {
    hide Bit;
    var n := Used(slots);
    forall i: nat | i < 4
      ensures PtrBefore(slots, n, i) <==> (n > 0 && slots[0].iPtr == i) || (n > 1 && slots[1].iPtr == i) || (n > 2 && slots[2].iPtr == i)
    {
    }
    assert !PtrBefore(slots, n, 0) || !PtrBefore(slots, n, 1) || !PtrBefore(slots, n, 2) || !PtrBefore(slots, n, 3);
  }

  /** new is old with a slot for key c and place p put in at mid, between the smaller and the greater keys. */
  ghost predicate InsertedAt(old': seq<Slot>, new': seq<Slot>, mid: nat, c: Byte, p: nat) {
    && |old'| == 4 && |new'| == 4 && mid <= Used(old') < 4 && new'[mid] == Slot(c, p)
    && (forall i | 0 <= i < mid :: new'[i] == old'[i] && old'[i].key < c)
    && (forall i | mid < i <= Used(old') :: new'[i] == old'[i - 1] && c < old'[i - 1].key)
    && (forall i | Used(old') < i < 4 :: new'[i].iPtr == -1)
  }

  lemma FreeSlot(slots: seq<Slot>, children: seq<Addr>, c: Byte, x: Addr, p: nat, tempSlot: seq<Slot>)
    requires Valid(Node4(slots, children)) && HoldsNone(Node4(slots, children), c) && x != NULL && p < 4 && !PtrBefore(slots, Used(slots), p)
    requires exists mid: nat :: mid <= Used(slots) && InsertedAt(slots, tempSlot, mid, c, p)
    ensures SameChildren(Node4(slots, children), Node4(slots, children[p := x]))
    ensures Extended(Node4(slots, children), Node4(tempSlot, children[p := x]), c, x)
  {
    var mid: nat :| mid <= Used(slots) && InsertedAt(slots, tempSlot, mid, c, p);
    var k, kids := Used(slots), children[p := x];
    forall i | 0 <= i < k ensures slots[i].iPtr != p { assert !PtrBefore(slots, k, p); }
    UsedIs(tempSlot, k + 1);
    hide Used;
    Untouched(slots, children, x, p);
    OneMoreSlot(slots, children, kids, c, x, p, tempSlot, mid);
  }

  lemma Untouched(slots: seq<Slot>, children: seq<Addr>, x: Addr, p: nat)
    requires Valid(Node4(slots, children)) && p < 4 && forall i | 0 <= i < Used(slots) :: slots[i].iPtr != p
    ensures SameChildren(Node4(slots, children), Node4(slots, children[p := x]))
  {
    hide Used;
  }

  lemma OneMoreSlot(slots: seq<Slot>, children: seq<Addr>, kids: seq<Addr>, c: Byte, x: Addr, p: nat, tempSlot: seq<Slot>, mid: nat)
    requires Valid(Node4(slots, children)) && x != NULL && p < 4 && kids == children[p := x]
    requires (forall i | 0 <= i < Used(slots) :: slots[i].iPtr != p) && Used(tempSlot) == Used(slots) + 1
    requires mid <= Used(slots) && InsertedAt(slots, tempSlot, mid, c, p)
    ensures Extended(Node4(slots, children), Node4(tempSlot, kids), c, x)
  {
    hide Used;
    var n, n', k := Node4(slots, children), Node4(tempSlot, kids), Used(slots);
    SortedStill(slots, tempSlot, mid, c, p);
    assert forall i | 0 <= i < k + 1 && i != mid :: tempSlot[i] == slots[if i < mid then i else i - 1];
    forall i | 0 <= i < k + 1 ensures 0 <= tempSlot[i].iPtr < 4 && kids[tempSlot[i].iPtr] != NULL {
    }
    hide Sorted;
    forall d: Byte, y ensures Holds(n', d, y) <==> Holds(n, d, y) || (d == c && y == x) {
      if Holds(n, d, y) { OldSlot(slots, children, kids, c, x, p, tempSlot, mid, d, y); }
      if Holds(n', d, y) { NewSlot(slots, children, kids, c, x, p, tempSlot, mid, d, y); }
      if d == c && y == x { assert tempSlot[mid].key == d; }
    }
  }

  lemma OldSlot(slots: seq<Slot>, children: seq<Addr>, kids: seq<Addr>, c: Byte, x: Addr, p: nat, tempSlot: seq<Slot>, mid: nat, d: Byte, y: Addr)
    requires Valid(Node4(slots, children)) && Valid(Node4(tempSlot, kids)) && p < 4 && kids == children[p := x]
    requires (forall i | 0 <= i < Used(slots) :: slots[i].iPtr != p) && Used(tempSlot) == Used(slots) + 1
    requires mid <= Used(slots) && InsertedAt(slots, tempSlot, mid, c, p) && Holds(Node4(slots, children), d, y)
    ensures Holds(Node4(tempSlot, kids), d, y)
  {
    hide Used;
    var i :| 0 <= i < Used(slots) && slots[i].key == d && children[slots[i].iPtr] == y;
    var j := if i < mid then i else i + 1;
    assert tempSlot[j] == slots[i];
  }

  lemma NewSlot(slots: seq<Slot>, children: seq<Addr>, kids: seq<Addr>, c: Byte, x: Addr, p: nat, tempSlot: seq<Slot>, mid: nat, d: Byte, y: Addr)
    requires Valid(Node4(slots, children)) && Valid(Node4(tempSlot, kids)) && p < 4 && kids == children[p := x]
    requires (forall i | 0 <= i < Used(slots) :: slots[i].iPtr != p) && Used(tempSlot) == Used(slots) + 1
    requires mid <= Used(slots) && InsertedAt(slots, tempSlot, mid, c, p) && Holds(Node4(tempSlot, kids), d, y)
    ensures Holds(Node4(slots, children), d, y) || (d == c && y == x)
  {
    hide Used;
    var i :| 0 <= i < Used(tempSlot) && tempSlot[i].key == d && kids[tempSlot[i].iPtr] == y;
    if i != mid {
      var j := if i < mid then i else i - 1;
      assert tempSlot[i] == slots[j];
    }
  }

  lemma SortedStill(slots: seq<Slot>, tempSlot: seq<Slot>, mid: nat, c: Byte, p: nat)
    requires Sorted(slots) && |slots| == 4 && p < 4 && (forall i | 0 <= i < Used(slots) :: slots[i].iPtr != p) && Used(tempSlot) == Used(slots) + 1
    requires mid <= Used(slots) && InsertedAt(slots, tempSlot, mid, c, p)
    ensures Sorted(tempSlot)
  {
    hide Used;
    var k := Used(slots);
    assert tempSlot[mid] == Slot(c, p) && forall i | 0 <= i < k + 1 && i != mid :: tempSlot[i] == slots[if i < mid then i else i - 1];
    forall i, j | 0 <= i < j < k + 1 ensures tempSlot[i].key < tempSlot[j].key && tempSlot[i].iPtr != tempSlot[j].iPtr {
    }
  }

  lemma UsedIs(slots: seq<Slot>, k: nat)
    requires k <= |slots| && (forall i | 0 <= i < k :: slots[i].iPtr != -1) && (k < |slots| ==> slots[k].iPtr == -1)
    ensures Used(slots) == k
  {
    var n := Used(slots);
  }
}
