/** WORT's stores, one word each, and what a crash may leave of an update. A cell that is only being written may hold anything. */
module WortStores {
  import opened Bits
  import opened Addresses
  import opened Prefixes
  import opened Nibbles
  import opened WortModel
  import opened Stores

  datatype Memory = Memory(root: Addr, nodes: map<Addr, Cell>)

  /** Stores of one word each, and the writing of a new cell, which nothing points to yet. */
  datatype Store =
    | NewCell(a: Addr, cell: Cell)
    | SetRoot(child: Addr)
    | SetChild(parent: Addr, c: Nibble, child: Addr)
    | SetHeader(n: Addr, header: Header)
    | SetValue(leaf: Addr, value: U64)

  function Stored(m: Memory, s: Store): Memory {
    match s
    case NewCell(a, cell) => m.(nodes := m.nodes[a := cell])
    case SetRoot(child) => m.(root := child)
    case SetChild(p, c, child) =>
      if p in m.nodes && m.nodes[p].Inner? && c < |m.nodes[p].children|
      then m.(nodes := m.nodes[p := m.nodes[p].(children := m.nodes[p].children[c := child])])
      else m
    case SetHeader(n, h) => if n in m.nodes && m.nodes[n].Inner? then m.(nodes := m.nodes[n := m.nodes[n].(header := h)]) else m
    case SetValue(l, value) => if l in m.nodes && m.nodes[l].Leaf? then m.(nodes := m.nodes[l := Leaf(m.nodes[l].key, value)]) else m
  }

  /** What may be kept of a store: the whole, but for a new cell, of which any part may be. */
  ghost function Parts(s: Store): iset<Store> {
    if s.NewCell? then iset s': Store | s'.NewCell? && s'.a == s.a else iset{s}
  }

  /** What the program reads. */
  function Read(base: Memory, log: seq<Event<Store>>): Memory {
    Replay(Stored, base, log)
  }

  function TreeOf(m: Memory, places: map<Addr, Place>): Tree {
    Tree(m.root, m.nodes, places)
  }

  /** Memory that stands, as it is, for the map of t, or for that with key set to value. */
  ghost predicate Recovers(t: Tree, im: Memory, key: U64, value: U64) {
    exists places :: BeforeOrAfter(t, TreeOf(im, places), key, value)
  }

  ghost function Recovering(t: Tree, key: U64, value: U64): iset<Memory> {
    iset im: Memory | Recovers(t, im, key, value)
  }

  /** Whatever a crash leaves at any time from one point of the log to another, it is such memory. */
  ghost predicate CrashSafe(base: Memory, from: seq<Event<Store>>, log: seq<Event<Store>>, t: Tree, key: U64, value: U64) {
    LeavesOnly(Stored, Parts, base, from, log, Recovering(t, key, value))
  }

  lemma SafeTrans(base: Memory, l0: seq<Event<Store>>, l1: seq<Event<Store>>, l2: seq<Event<Store>>, t: Tree, key: U64, value: U64)
    requires CrashSafe(base, l0, l1, t, key, value) && CrashSafe(base, l1, l2, t, key, value)
    ensures CrashSafe(base, l0, l2, t, key, value)
  {
    hide LeavesOnly;
    OnlyTrans(Stored, Parts, base, l0, l1, l2, Recovering(t, key, value));
  }

  lemma SafeAfter(base: Memory, from: seq<Event<Store>>, log: seq<Event<Store>>, t: Tree, t1: Tree, key: U64, value: U64)
    requires SameContents(t, t1) && CrashSafe(base, from, log, t1, key, value)
    ensures CrashSafe(base, from, log, t, key, value)
  {
    hide LeavesOnly;
    hide TreeOk;
    hide Contents;
    forall im | Recovers(t1, im, key, value) ensures Recovers(t, im, key, value) {
      var places :| BeforeOrAfter(t1, TreeOf(im, places), key, value);
      UpdatedAfter(t, t1, TreeOf(im, places), key, value);
    }
    OnlyMore(Stored, Parts, base, from, log, Recovering(t1, key, value), Recovering(t, key, value));
  }

  lemma SafeNow(base: Memory, log: seq<Event<Store>>, t: Tree, key: U64, value: U64)
    requires Durable(log) && Recovers(t, Read(base, log), key, value)
    ensures CrashSafe(base, log, log, t, key, value)
  {
    hide Recovers;
    hide LeavesOnly;
    OnlyNow(Stored, Parts, base, log, Recovering(t, key, value));
  }

  lemma SafeMeans(base: Memory, from: seq<Event<Store>>, log: seq<Event<Store>>, t: Tree, key: U64, value: U64)
    requires CrashSafe(base, from, log, t, key, value)
    ensures from <= log && forall k, im | |from| <= k <= |log| && MayLeave(Stored, Parts, base, log[..k], im) :: Recovers(t, im, key, value)
  {
    hide MayLeave;
    hide Recovers;
    forall k, im | |from| <= k <= |log| && MayLeave(Stored, Parts, base, log[..k], im) ensures Recovers(t, im, key, value) {
      assert im in Recovering(t, key, value);
    }
  }

  /** A store of one word, made durable. */
  lemma WordStored(base: Memory, log: seq<Event<Store>>, s: Store, t: Tree, key: U64, value: U64)
    requires Durable(log) && !s.NewCell? && Recovers(t, Read(base, log), key, value) && Recovers(t, Stored(Read(base, log), s), key, value)
    ensures Read(base, log + [Write(s), Fence]) == Stored(Read(base, log), s) && Durable(log + [Write(s), Fence])
    ensures CrashSafe(base, log, log + [Write(s), Fence], t, key, value)
  {
    hide Recovers;
    hide LeavesOnly;
    hide Replay;
    hide Stored;
    OneStore(Stored, Parts, base, log, s, Recovering(t, key, value));
  }

  /** Two, made durable together. */
  lemma WordsStored(base: Memory, log: seq<Event<Store>>, s1: Store, s2: Store, t: Tree, key: U64, value: U64)
    requires Durable(log) && !s1.NewCell? && !s2.NewCell? && Recovers(t, Read(base, log), key, value)
    requires Recovers(t, Stored(Read(base, log), s1), key, value) && Recovers(t, Stored(Read(base, log), s2), key, value)
    requires Recovers(t, Stored(Stored(Read(base, log), s1), s2), key, value)
    ensures var log' := log + [Write(s1), Write(s2), Fence];
      && Read(base, log') == Stored(Stored(Read(base, log), s1), s2) && Durable(log') && CrashSafe(base, log, log', t, key, value)
  {
    hide Recovers;
    hide LeavesOnly;
    hide Replay;
    hide Stored;
    TwoStores(Stored, Parts, base, log, s1, s2, Recovering(t, key, value));
  }

  /** *ref = a, as a store. */
  function RefStore(ref: Ref, a: Addr): Store {
    match ref
    case RootRef => SetRoot(a)
    case ChildRef(p, c) => SetChild(p, c, a)
  }

  lemma StoresAre(m: Memory, places: map<Addr, Place>, ref: Ref, a: Addr, n: Addr, h: Header)
    ensures TreeOf(Stored(m, RefStore(ref, a)), places) == Linked(TreeOf(m, places), ref, a)
    ensures TreeOf(Stored(m, SetHeader(n, h)), places) == WithHeader(TreeOf(m, places), n, h)
  {
  }

  // ----- memory that nothing points to -----

  lemma SameItself(t: Tree)
    requires TreeOk(t)
    ensures SameContents(t, t)
  {
  }

  lemma NoNull(t: Tree)
    requires TreeOk(t)
    ensures NULL !in t.nodes
  {
  }

  lemma SameRecovers(t: Tree, m: Memory, places: map<Addr, Place>, key: U64, value: U64)
    requires SameContents(t, TreeOf(m, places))
    ensures Recovers(t, m, key, value)
  {
    hide TreeOk;
    hide Contents;
    assert BeforeOrAfter(t, TreeOf(m, places), key, value);
  }

  lemma UpdatedRecovers(t: Tree, m: Memory, places: map<Addr, Place>, key: U64, value: U64)
    requires Updated(t, TreeOf(m, places), key, value)
    ensures Recovers(t, m, key, value)
  {
    hide TreeOk;
    hide Contents;
    assert BeforeOrAfter(t, TreeOf(m, places), key, value);
  }

  /** Cells that the tree does not have make no difference. */
  lemma Garbage(t: Tree, t': Tree)
    requires TreeOk(t) && t'.root == t.root && t'.places == t.places && NULL !in t'.nodes
    requires forall a | a in t.nodes :: a in t'.nodes && t'.nodes[a] == t.nodes[a]
    ensures SameContents(t, t')
  {
    forall b | b in t.places ensures b in t.nodes && Kept(t, t', b) {
      InNodes(t, b);
    }
    ShapeSame(t, t');
    hide TreeOk;
    LeavesSame(t, t');
  }

  /** m' is m with other cells where m has none. */
  ghost predicate Beside(m: Memory, m': Memory) {
    m'.root == m.root && NULL !in m'.nodes && forall a | a in m.nodes :: a in m'.nodes && m'.nodes[a] == m.nodes[a]
  }

  lemma BesideRecovers(t: Tree, m: Memory, m': Memory, places: map<Addr, Place>, key: U64, value: U64)
    requires TreeOk(TreeOf(m, places)) && SameContents(t, TreeOf(m, places)) && Beside(m, m')
    ensures Recovers(t, m', key, value) && SameContents(t, TreeOf(m', places))
  {
    hide TreeOk;
    hide Contents;
    Garbage(TreeOf(m, places), TreeOf(m', places));
    assert BeforeOrAfter(t, TreeOf(m', places), key, value);
  }

  /** A new cell, made durable. */
  lemma CellWritten(base: Memory, log: seq<Event<Store>>, a: Addr, cell: Cell, places: map<Addr, Place>, key: U64, value: U64)
    requires Durable(log) && TreeOk(TreeOf(Read(base, log), places)) && a != NULL && a !in Read(base, log).nodes && NULL !in Read(base, log).nodes
    ensures var log' := log + [Write(NewCell(a, cell)), Fence];
      && Read(base, log') == Stored(Read(base, log), NewCell(a, cell)) && Durable(log')
      && CrashSafe(base, log, log', TreeOf(Read(base, log), places), key, value)
  {
    hide TreeOk;
    hide Contents;
    hide Recovers;
    hide LeavesOnly;
    hide Replay;
    var m, s := Read(base, log), NewCell(a, cell);
    var t := TreeOf(m, places);
    BesideRecovers(t, m, m, places, key, value);
    forall im | Keeps(Stored, Parts, m, s, im) ensures Recovers(t, im, key, value) {
      KeptBeside(m, m, s, im);
      BesideRecovers(t, m, im, places, key, value);
    }
    OneStore(Stored, Parts, base, log, s, Recovering(t, key, value));
  }

  lemma KeptBeside(m: Memory, m1: Memory, s: Store, im: Memory)
    requires s.NewCell? && s.a != NULL && s.a !in m.nodes && NULL !in m.nodes && Beside(m, m1) && Keeps(Stored, Parts, m1, s, im)
    ensures Beside(m, im)
  {
  }

  /** Two new cells, made durable together. */
  lemma CellsWritten(base: Memory, log: seq<Event<Store>>, a: Addr, cell: Cell, b: Addr, cell2: Cell, places: map<Addr, Place>, key: U64, value: U64)
    requires Durable(log) && TreeOk(TreeOf(Read(base, log), places)) && NULL !in Read(base, log).nodes
    requires a != NULL && a !in Read(base, log).nodes && b != NULL && b !in Read(base, log).nodes && a != b
    ensures var log' := log + [Write(NewCell(a, cell)), Write(NewCell(b, cell2)), Fence];
      && Read(base, log') == Stored(Stored(Read(base, log), NewCell(a, cell)), NewCell(b, cell2)) && Durable(log')
      && CrashSafe(base, log, log', TreeOf(Read(base, log), places), key, value)
  {
    hide TreeOk;
    hide Contents;
    hide Recovers;
    hide LeavesOnly;
    hide Replay;
    var m, s1, s2 := Read(base, log), NewCell(a, cell), NewCell(b, cell2);
    var t := TreeOf(m, places);
    BesideRecovers(t, m, m, places, key, value);
    forall im | Keeps(Stored, Parts, m, s1, im) ensures Recovers(t, im, key, value) {
      KeptBeside(m, m, s1, im);
      BesideRecovers(t, m, im, places, key, value);
    }
    forall im | Keeps(Stored, Parts, m, s2, im) ensures Recovers(t, im, key, value) {
      KeptBeside(m, m, s2, im);
      BesideRecovers(t, m, im, places, key, value);
    }
    forall m1, im | Keeps(Stored, Parts, m, s1, m1) && Keeps(Stored, Parts, m1, s2, im) ensures Recovers(t, im, key, value) {
      KeptBeside(m, m, s1, m1);
      KeptBeside(m, m1, s2, im);
      BesideRecovers(t, m, im, places, key, value);
    }
    TwoStores(Stored, Parts, base, log, s1, s2, Recovering(t, key, value));
  }
}
