/**
 ROART's stores. Each is flushed between fences before the next (clflush, roart/roart_node.cpp:14-21), so a crash leaves memory
 between two of them; a cell that is only being written may hold anything.
 */
module RoartStores {
  import opened Bits
  import opened Addresses
  import opened Stores
  import opened RoartKeys
  import opened RoartLayouts
  import opened RoartModel
  import opened RoartPrefixes
  import opened RoartStates

  type Memory = map<Addr, Cell>

  /** Stores of one word, or less, and the writing of a new cell, which nothing points to yet. */
  datatype Store =
    | StoreCell(a: Addr, cell: Cell)
    | StorePrefix(n: Addr, prefix: NodePrefix)
    | StoreKey(n: Addr, i: nat, keyByte: Byte)       // N4, N16
    | StoreIndex(n: Addr, b: Byte, index: Byte)      // N48
    | StoreChild(n: Addr, i: nat, child: Addr)
    | StoreValue(n: Addr, value: U64)

  function StoredIn(cell: Cell, s: Store): Cell {
    match s
    case StorePrefix(_, p) => if cell.Node? then Node(cell.level, p, cell.layout) else cell
    case StoreKey(_, i, k) =>
      if cell.Node? && cell.layout.Packed? && i < |cell.layout.keys|
      then Node(cell.level, cell.prefix, cell.layout.(keys := cell.layout.keys[i := k]))
      else cell
    case StoreIndex(_, b, i) =>
      if cell.Node? && cell.layout.Indexed? && b < |cell.layout.childIndex|
      then Node(cell.level, cell.prefix, cell.layout.(childIndex := cell.layout.childIndex[b := i]))
      else cell
    case StoreChild(_, i, x) =>
      if cell.Node? && i < |cell.layout.children| then Node(cell.level, cell.prefix, PointerSet(cell.layout, i, x)) else cell
    case StoreValue(_, value) => if cell.Leaf? then Leaf(cell.key, value) else cell
    case _ => cell
  }

  function AfterStore(m: Memory, s: Store): Memory {
    match s
    case StoreCell(a, cell) => m[a := cell]
    case _ => if s.n in m then m[s.n := StoredIn(m[s.n], s)] else m
  }

  /** What may be kept of a store: the whole, but for a new cell, of which any part may be. */
  ghost function Parts(s: Store): iset<Store> {
    if s.StoreCell? then iset s': Store | s'.StoreCell? && s'.a == s.a else iset{s}
  }

  /** What the program reads. */
  function Read(base: Memory, log: seq<Event<Store>>): Memory {
    Replay(AfterStore, base, log)
  }

  /** Whatever a crash leaves at any time from one point of the log to another is in good. */
  ghost predicate CrashSafe(base: Memory, from: seq<Event<Store>>, log: seq<Event<Store>>, good: iset<Memory>) {
    LeavesOnly(AfterStore, Parts, base, from, log, good)
  }

  lemma SafeMeans(base: Memory, from: seq<Event<Store>>, log: seq<Event<Store>>, good: iset<Memory>)
    requires CrashSafe(base, from, log, good)
    ensures from <= log && forall k, im | |from| <= k <= |log| && MayLeave(AfterStore, Parts, base, log[..k], im) :: im in good
  {
    hide MayLeave;
  }

  lemma SafeMore(base: Memory, from: seq<Event<Store>>, log: seq<Event<Store>>, good: iset<Memory>, good': iset<Memory>)
    requires CrashSafe(base, from, log, good) && good <= good'
    ensures CrashSafe(base, from, log, good')
  {
    hide LeavesOnly;
    OnlyMore(AfterStore, Parts, base, from, log, good, good');
  }

  /** One stretch of the log after another. */
  lemma SafeTrans(base: Memory, l0: seq<Event<Store>>, l1: seq<Event<Store>>, l2: seq<Event<Store>>, good0: iset<Memory>, good1: iset<Memory>, good: iset<Memory>)
    requires CrashSafe(base, l0, l1, good0) && CrashSafe(base, l1, l2, good1) && good0 <= good && good1 <= good
    ensures CrashSafe(base, l0, l2, good)
  {
    hide LeavesOnly;
    OnlyMore(AfterStore, Parts, base, l0, l1, good0, good);
    OnlyMore(AfterStore, Parts, base, l1, l2, good1, good);
    OnlyTrans(AfterStore, Parts, base, l0, l1, l2, good);
  }

  /** And then one store more. */
  lemma SafeWord(base: Memory, l0: seq<Event<Store>>, l1: seq<Event<Store>>, l2: seq<Event<Store>>, m: Memory, m': Memory, good: iset<Memory>)
    requires CrashSafe(base, l0, l1, good) && CrashSafe(base, l1, l2, iset{m, m'}) && m in good && m' in good
    ensures CrashSafe(base, l0, l2, good)
  {
    hide CrashSafe;
    SafeTrans(base, l0, l1, l2, good, iset{m, m'}, good);
  }

  lemma SafeNow(base: Memory, log: seq<Event<Store>>, good: iset<Memory>)
    requires Durable(log) && Read(base, log) in good
    ensures CrashSafe(base, log, log, good)
  {
    hide LeavesOnly;
    OnlyNow(AfterStore, Parts, base, log, good);
  }

  /** A store of one word: memory before it, or after it. */
  lemma WordStored(base: Memory, log: seq<Event<Store>>, s: Store)
    requires Durable(log) && !s.StoreCell?
    ensures Read(base, log + [Write(s), Fence]) == AfterStore(Read(base, log), s) && Durable(log + [Write(s), Fence])
    ensures CrashSafe(base, log, log + [Write(s), Fence], iset{Read(base, log), AfterStore(Read(base, log), s)})
  {
    hide LeavesOnly;
    hide Replay;
    hide AfterStore;
    OneStore(AfterStore, Parts, base, log, s, iset{Read(base, log), AfterStore(Read(base, log), s)});
  }

  // ----- what an update may leave -----

  /** The same map, and prefixes and layouts no worse. */
  ghost predicate NoWorse(t: Tree, t': Tree) {
    SameContents(t, t') && KeptRight(t, t') && (Quiet(t) ==> Quiet(t'))
  }

  ghost predicate StaysIn(t: Tree, im: Memory) {
    exists places :: NoWorse(t, Tree(t.root, im, places))
  }

  ghost predicate PutLeaves(t: Tree, im: Memory, key: U64, value: U64) {
    exists places :: PutImage(t, Tree(t.root, im, places), key, value)
  }

  ghost predicate UpdateLeaves(t: Tree, im: Memory, key: U64, value: U64) {
    exists places :: UpdateImage(t, Tree(t.root, im, places), key, value)
  }

  ghost predicate RemoveLeaves(t: Tree, im: Memory, key: U64) {
    exists places :: RemoveImage(t, Tree(t.root, im, places), key)
  }

  ghost function Staying(t: Tree): iset<Memory> {
    iset im: Memory | StaysIn(t, im)
  }

  ghost function Putting(t: Tree, key: U64, value: U64): iset<Memory> {
    iset im: Memory | PutLeaves(t, im, key, value)
  }

  ghost function Updating(t: Tree, key: U64, value: U64): iset<Memory> {
    iset im: Memory | UpdateLeaves(t, im, key, value)
  }

  ghost function Removing(t: Tree, key: U64): iset<Memory> {
    iset im: Memory | RemoveLeaves(t, im, key)
  }

  /** That, or memory after all of a put that met an index left over for its slot. */
  ghost function PuttingOr(t: Tree, key: U64, value: U64, free: bool, end: Memory): iset<Memory> {
    if free then Putting(t, key, value) else Putting(t, key, value) + iset{end}
  }

  lemma NoWorseSelf(t: Tree)
    requires TreeOk(t)
    ensures NoWorse(t, t)
  {
    hide TreeOk;
    hide Contents;
    hide KeptRight;
    hide Quiet;
    SameItself(t);
    KeptSelf(t);
  }

  lemma NoWorseMeans(t: Tree, t': Tree)
    requires NoWorse(t, t')
    ensures TreeOk(t') && SameContents(t, t') && KeptRight(t, t') && (Quiet(t) ==> Quiet(t'))
  {
    hide TreeOk;
    hide Contents;
    hide KeptRight;
    hide Quiet;
  }

  lemma NoWorseTrans(t: Tree, t1: Tree, t2: Tree)
    requires NoWorse(t, t1) && NoWorse(t1, t2)
    ensures NoWorse(t, t2)
  {
    hide TreeOk;
    hide Contents;
    hide KeptRight;
    hide Quiet;
    KeptRightTrans(t, t1, t2);
  }

  lemma StayIn(t: Tree, im: Memory, places: map<Addr, Place>)
    requires NoWorse(t, Tree(t.root, im, places))
    ensures im in Staying(t)
  {
    hide NoWorse;
  }

  lemma PutIn(t: Tree, t': Tree, key: U64, value: U64)
    requires PutImage(t, t', key, value) && t'.root == t.root
    ensures t'.nodes in Putting(t, key, value)
  {
    hide PutImage;
    assert t' == Tree(t.root, t'.nodes, t'.places);
  }

  lemma UpdateIn(t: Tree, t': Tree, key: U64, value: U64)
    requires UpdateImage(t, t', key, value) && t'.root == t.root
    ensures t'.nodes in Updating(t, key, value)
  {
    hide UpdateImage;
    assert t' == Tree(t.root, t'.nodes, t'.places);
  }

  lemma RemoveIn(t: Tree, t': Tree, key: U64)
    requires RemoveImage(t, t', key) && t'.root == t.root
    ensures t'.nodes in Removing(t, key)
  {
    hide RemoveImage;
    assert t' == Tree(t.root, t'.nodes, t'.places);
  }

  lemma StayingOn(t: Tree, t1: Tree)
    requires NoWorse(t, t1) && t1.root == t.root
    ensures Staying(t1) <= Staying(t)
  {
    hide NoWorse;
    forall im | im in Staying(t1) ensures im in Staying(t) {
      var places :| NoWorse(t1, Tree(t1.root, im, places));
      NoWorseTrans(t, t1, Tree(t.root, im, places));
    }
  }

  lemma StayingAll(t: Tree, key: U64, value: U64)
    ensures Staying(t) <= Putting(t, key, value) && Staying(t) <= Updating(t, key, value) && Staying(t) <= Removing(t, key)
  {
    hide TreeOk;
    hide Contents;
    hide Described;
    hide KeptRight;
    hide Kept;
    hide Quiet;
    forall im | im in Staying(t) ensures im in Putting(t, key, value) && im in Updating(t, key, value) && im in Removing(t, key) {
      var places :| NoWorse(t, Tree(t.root, im, places));
      var t' := Tree(t.root, im, places);
      KeptRightKept(t, t');
      KeptKeeps(t, t');
      assert PutImage(t, t', key, value) && UpdateImage(t, t', key, value) && RemoveImage(t, t', key);
    }
  }

  lemma PuttingOn(t: Tree, t1: Tree, key: U64, value: U64)
    requires NoWorse(t, t1) && t1.root == t.root
    ensures Putting(t1, key, value) <= Putting(t, key, value)
  {
    hide PutImage;
    hide NoWorse;
    NoWorseMeans(t, t1);
    hide SameContents;
    hide KeptRight;
    hide Quiet;
    ImagesAfter(t, t1, key, value);
    forall im | im in Putting(t1, key, value) ensures im in Putting(t, key, value) {
      var places :| PutImage(t1, Tree(t1.root, im, places), key, value);
      assert PutImage(t, Tree(t.root, im, places), key, value);
    }
  }

  lemma BeforePut(t: Tree, key: U64, value: U64)
    requires TreeOk(t)
    ensures t.nodes in Putting(t, key, value)
  {
    hide TreeOk;
    hide NoWorse;
    NoWorseSelf(t);
    assert t == Tree(t.root, t.nodes, t.places);
    StayIn(t, t.nodes, t.places);
    StayingAll(t, key, value);
  }

  lemma BeforeRemove(t: Tree, key: U64)
    requires TreeOk(t)
    ensures t.nodes in Removing(t, key)
  {
    hide TreeOk;
    hide NoWorse;
    NoWorseSelf(t);
    assert t == Tree(t.root, t.nodes, t.places);
    StayIn(t, t.nodes, t.places);
    StayingAll(t, key, 0);
  }

  /** After a removal, what changes nothing more. */
  lemma StayingRemoved(t: Tree, t1: Tree, key: U64)
    requires Removed(t, t1, key) && KeptRight(t, t1) && t1.root == t.root
    ensures Staying(t1) <= Removing(t, key)
  {
    hide TreeOk;
    hide Contents;
    hide KeptRight;
    hide Quiet;
    AllAfterToo(t, t1, key, 0);
    forall im | im in Staying(t1) ensures im in Removing(t, key) {
      var places :| NoWorse(t1, Tree(t1.root, im, places));
      var t' := Tree(t.root, im, places);
      KeptRightTrans(t, t1, t');
      RemoveImageOf(t, t', key);
    }
  }

  // ----- memory that nothing points to -----

  lemma NewNoWorse(t: Tree, a: Addr, cell: Cell)
    requires TreeOk(t) && a != NULL && a !in t.nodes
    ensures NoWorse(t, WithCell(t, a, cell))
  {
    hide TreeOk;
    hide Contents;
    hide KeptRight;
    hide Quiet;
    Allocated(t, a, cell);
    AllocKept(t, WithCell(t, a, cell), a);
  }

  /** A new cell, made durable. */
  lemma CellStored(base: Memory, log: seq<Event<Store>>, root: Addr, places: map<Addr, Place>, a: Addr, cell: Cell)
    requires Durable(log) && TreeOk(Tree(root, Read(base, log), places)) && a != NULL && a !in Read(base, log)
    ensures var log' := log + [Write(StoreCell(a, cell)), Fence];
      && Read(base, log') == Read(base, log)[a := cell] && Durable(log')
      && CrashSafe(base, log, log', Staying(Tree(root, Read(base, log), places)))
    ensures NoWorse(Tree(root, Read(base, log), places), Tree(root, Read(base, log)[a := cell], places))
  {
    hide TreeOk;
    hide NoWorse;
    hide LeavesOnly;
    hide Replay;
    var m, s := Read(base, log), StoreCell(a, cell);
    var t := Tree(root, m, places);
    NewNoWorse(t, a, cell);
    NoWorseSelf(t);
    StayIn(t, m, places);
    forall im | Keeps(AfterStore, Parts, m, s, im) ensures im in Staying(t) {
      var s' :| s' in Parts(s) && im == AfterStore(m, s');
      NewNoWorse(t, a, s'.cell);
      StayIn(t, im, places);
    }
    OneStore(AfterStore, Parts, base, log, s, Staying(t));
  }

  // ----- the two stores of an insertion in place -----

  /** The first: the key byte, or its index. */
  function FirstStore(n: Addr, l: Layout, b: Byte): Store
    requires Shaped(l) && !l.Direct? && !Full(l)
  {
    match l
    case Packed(cap, _, _, compactCount, _) => StoreKey(n, compactCount, Stored(cap, b))
    case Indexed(_, _, compactCount, _) => StoreIndex(n, b, compactCount)
  }

  lemma FirstStoreIs(m: Memory, n: Addr, b: Byte)
    requires n in m && m[n].Node? && LayoutOk(m[n].layout) && !m[n].layout.Direct? && !Full(m[n].layout)
    ensures AfterStore(m, FirstStore(n, m[n].layout, b)) == m[n := Node(m[n].level, m[n].prefix, HalfInserted(m[n].layout, b))]
  {
  }

  /** The second: the child. */
  lemma InsertStores(m: Memory, n: Addr, b: Byte, x: Addr)
    requires n in m && m[n].Node? && LayoutOk(m[n].layout) && !Full(m[n].layout) && Child(m[n].layout, b) == NULL && x != NULL
    ensures var l := m[n].layout;
      AfterStore(m[n := Node(m[n].level, m[n].prefix, HalfInserted(l, b))], StoreChild(n, NextSlot(l, b), x))
         == m[n := Node(m[n].level, m[n].prefix, Inserted(l, b, x))]
  {
    PointerInserted(m[n].layout, b, x);
  }
}
