/** A node together with the memory it owns: what the tree level needs to know of nodes. */
module NodeMemory {
  import opened Bits
  import opened Options
  import opened Slots
  import opened Segments
  import opened SplitMethods
  import opened Directory
  import opened Headers
  import opened WrertNodes
  import opened WrertModel

  /** Node n is well-formed and lives in memory m. */
  ghost predicate NodeOk(n: Node, m: set<object>)
    reads m
  {
    n in m && n.directory in m && n.SegmentSet() <= m && n.Shaped() && n.Valid()
  }

  ghost function ViewOf(n: Node, m: set<object>): NodeView
    requires NodeOk(n, m)
    reads m
  {
    NodeView(n.header, n.View())
  }

  lemma ViewHeader(n: Node, m: set<object>)
    requires NodeOk(n, m)
    ensures n in m && ViewOf(n, m).header == n.header
  {
  }

  /** r is the slot where node n keeps subkey k. */
  ghost predicate RefOk(n: Node, m: set<object>, r: SlotRef, k: U32)
    requires NodeOk(n, m)
    reads m
  {
    k in n.View() && n.PointsTo(r, k) && r.segment in m && r.position < r.segment.Length
    && r.index < SLOTS_PER_BUCKET && EntryOf(r.segment[r.position][r.index]) == n.View()[k]
  }

  /** slot is where a subkey that node n does not hold may go; None calls for a split. */
  ghost predicate RoomOk(n: Node, m: set<object>, slot: Option<SlotRef>, isMain: bool, k: U32)
    requires NodeOk(n, m)
    reads m
  {
    k !in n.View() && (if slot.Some? then n.FreeFor(slot.value, k, isMain) else n.MainFull(k))
  }

  /** The header of a node that takes another's place. */
  ghost predicate HeaderKept(h: Header, h': Header) {
    h' == h || h' == InitHeader(h.prefixArray, h.prefixLength, h.nodeHeaderDepth)
  }

  lemma KeptHeader(h: Header, h': Header)
    requires HeaderKept(h, h') && h.prefixLength <= 1
    ensures SameHeader(h, h')
  {
    InitHeaderSame(h);
  }

  ghost function EntryIn(entries: map<U32, Entry>, k: U32): Option<Entry> {
    if k in entries then Some(entries[k]) else None
  }

  lemma RefFlag(n: Node, m: set<object>, r: SlotRef, k: U32)
    requires NodeOk(n, m) && RefOk(n, m, r, k)
    ensures r.segment in m && r.position < r.segment.Length && r.index < SLOTS_PER_BUCKET
    ensures k in ViewOf(n, m).entries && EntryOf(r.segment[r.position][r.index]) == ViewOf(n, m).entries[k]
  {
  }

  lemma RoomMeansNew(n: Node, m: set<object>, slot: Option<SlotRef>, isMain: bool, k: U32)
    requires NodeOk(n, m) && RoomOk(n, m, slot, isMain, k)
    ensures k !in ViewOf(n, m).entries
  {
  }

  method GetIn(n: Node, ghost m: set<object>, k: U32) returns (r: Option<Entry>)
    requires NodeOk(n, m)
    ensures NodeOk(n, m) && r == EntryIn(ViewOf(n, m).entries, k)
  {
    hide Node.Valid;
    r := n.Get(k);
  }

  method FindIn(n: Node, ghost m: set<object>, k: U32) returns (found: bool, slot: Option<SlotRef>, isMain: bool)
    requires NodeOk(n, m)
    ensures NodeOk(n, m)
    ensures found <==> k in ViewOf(n, m).entries
    ensures found ==> slot.Some? && RefOk(n, m, slot.value, k)
    ensures !found ==> RoomOk(n, m, slot, isMain, k)
  {
    hide Node.Valid;
    hide Linked;
    hide SegmentOk;
    hide SegmentLookup;
    found, slot, isMain := n.FindSlot(k);
    if found {
      n.PointsInside(slot.value, k);
    }
  }

  /** Puts a new subkey; the node returned, with the memory returned, takes the place of n. */
  method PutIn(n: Node, ghost m: set<object>, k: U32, value: U64, slot: Option<SlotRef>, isMain: bool, nodeFlag: bool)
    returns (n': Node, ghost m': set<object>)
    requires NodeOk(n, m) && RoomOk(n, m, slot, isMain, k)
    modifies m
    ensures NodeOk(n', m') && m <= m' && fresh(m' - m) && (n' == n || fresh(n'))
    ensures slot.Some? ==> n' == n
    ensures HeaderKept(old(n.header), n'.header)
    ensures ViewOf(n', m') == NodeView(n'.header, old(ViewOf(n, m)).entries[k := Stored(value, nodeFlag)])
  {
    hide Node.Valid;
    hide Node.FreeFor;
    hide Node.MainFull;
    n' := n.Put(k, value, slot, isMain, 0, nodeFlag);
    n'.ValidShape();
    m' := m + {n'} + n'.Repr();
  }

  /** Overwrites the value and the node flag of a slot. */
  method OverwriteIn(n: Node, ghost m: set<object>, k: U32, r: SlotRef, value: U64, nodeFlag: bool)
    requires NodeOk(n, m) && RefOk(n, m, r, k)
    modifies m
    ensures NodeOk(n, m) && n.header == old(n.header)
    ensures ViewOf(n, m) == NodeView(n.header, old(ViewOf(n, m)).entries[k := Stored(value, nodeFlag)])
  {
    hide Node.Valid;
    hide Linked;
    hide SegmentOk;
    hide SegmentLookup;
    n.PointsInside(r, k);
    n.StoreSlot(k, r, r.segment[r.position][r.index].(value := value % U48_LIMIT, nodeFlag := nodeFlag), false, true);
    n.ValidShape();
  }

  /** A new node in fresh memory. */
  method NewIn(h: Header) returns (n: Node, ghost m: set<object>)
    ensures NodeOk(n, m) && fresh(m) && fresh(n) && ViewOf(n, m) == NodeView(h, map[])
    ensures FewKeys(n, m) && n.globalDepth == 0
  {
    hide Linked;
    hide SegmentOk;
    hide SegmentLookup;
    n := new Node(0);
    n.header := h;
    n.ValidShape();
    m := {n} + n.Repr();
  }

  /** A node in its first segment that holds one subkey at most: no bucket of it is full. */
  ghost predicate FewKeys(n: Node, m: set<object>)
    requires NodeOk(n, m)
    reads m
  {
    n.globalDepth == 0 && forall x, y | x in n.View() && y in n.View() :: x == y
  }

  lemma FewKeysRoom(n: Node, m: set<object>, k: U32)
    requires NodeOk(n, m) && FewKeys(n, m)
    ensures !n.MainFull(k) && !n.SharedFull(k) && n.DepthFor(k) == 0
  {
    hide Linked;
    hide SegmentOk;
    hide SegmentLookup;
    if n.MainFull(k) || n.SharedFull(k) {
      n.FullHoldsTwo(k);
    }
  }

  /** putSegNode on such a node stays in the node. */
  method PutSegIn(n: Node, ghost m: set<object>, k: U32, value: U64, nodeFlag: bool) returns (ghost m': set<object>)
    requires NodeOk(n, m) && FewKeys(n, m) && k !in ViewOf(n, m).entries
    modifies m
    ensures NodeOk(n, m') && m <= m' && fresh(m' - m) && n.header == old(n.header)
    ensures ViewOf(n, m') == NodeView(n.header, old(ViewOf(n, m)).entries[k := Stored(value, nodeFlag)])
  {
    hide Node.Valid;
    hide Node.SharedFull;
    FewKeysRoom(n, m, k);
    var n' := n.PutSegNode(k, value, 0, nodeFlag);
    n'.ValidShape();
    m' := m + n'.Repr();
  }

  method SetHeaderIn(n: Node, ghost m: set<object>, h: Header)
    requires NodeOk(n, m)
    modifies n
    ensures NodeOk(n, m) && n.header == h && ViewOf(n, m) == NodeView(h, old(ViewOf(n, m)).entries)
  {
    hide Node.Valid;
    hide Node.View;
    hide Node.Shaped;
    n.header := h;
  }

  /** The end of a nested insert into such a node: the slot search finds room, and the node stays where it is. */
  method InsertLeaf(n: Node, ghost m: set<object>, k: U32, value: U64) returns (ghost m': set<object>)
    requires NodeOk(n, m) && FewKeys(n, m) && k !in ViewOf(n, m).entries
    modifies m
    ensures NodeOk(n, m') && m <= m' && fresh(m' - m) && n.header == old(n.header)
    ensures ViewOf(n, m') == NodeView(n.header, old(ViewOf(n, m)).entries[k := Stored(value, false)])
  {
    hide Node.Valid;
    hide Node.MainFull;
    hide Node.FreeFor;
    var found, slot, isMain := FindIn(n, m, k);
    FewKeysRoom(n, m, k);
    var n';
    n' := n.Put(k, value, slot, isMain, 0, false);
    n'.ValidShape();
    m' := m + n'.Repr();
  }

  lemma FewWithOne(n: Node, m: set<object>, k: U32, e: Entry)
    requires NodeOk(n, m) && n.globalDepth == 0 && ViewOf(n, m).entries == map[][k := e]
    ensures FewKeys(n, m)
  {
    hide Node.Valid;
  }
}
