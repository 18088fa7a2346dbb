/**
 The four ways a ROART node keeps its children: keys and children side by side (4 or 16 of them, in order of
 insertion), an index of 48 children, or 256 children. A removal leaves a hole that only a copy closes.
 */
module RoartLayouts {
  import opened Bits
  import opened Counting
  import opened Addresses

  const EMPTY_MARKER: Byte := 48

  datatype Layout =
    | Packed(cap: nat, keys: seq<Byte>, children: seq<Addr>, compactCount: nat, count: nat)          // N4, N16
    | Indexed(childIndex: seq<Byte>, children: seq<Addr>, compactCount: nat, count: nat)             // N48
    | Direct(children: seq<Addr>, count: nat)                                                        // N256

  /** keyByte ^ 128 */
  function FlipSign(b: Byte): (r: Byte)
  {
    if b < 128 then b + 128 else b - 128
  }

  /** N16 keeps its keys with the sign bit flipped. */
  function Stored(cap: nat, b: Byte): Byte {
    if cap == 16 then FlipSign(b) else b
  }

  lemma StoredOnce(cap: nat, b: Byte, c: Byte)
    ensures Stored(cap, b) == Stored(cap, c) <==> b == c
    ensures Stored(cap, Stored(cap, b)) == b
  {
  }

  /** The first slot in use for a stored key. */
  function SlotOf(keys: seq<Byte>, children: seq<Addr>, k: Byte, j: nat := 0): (r: nat)
    requires |keys| == |children| && j <= |keys|
    ensures j <= r <= |keys|
    ensures r < |keys| ==> children[r] != NULL && keys[r] == k
    ensures forall i | j <= i < r :: children[i] == NULL || keys[i] != k
    decreases |keys| - j
  {
    if j == |keys| || (children[j] != NULL && keys[j] == k) then j else SlotOf(keys, children, k, j + 1)
  }

  ghost predicate Shaped(l: Layout) {
    match l
    case Packed(cap, keys, children, compactCount, _) =>
      && (cap == 4 || cap == 16) && |keys| == cap && |children| == cap && compactCount <= cap
      && (forall i | compactCount <= i < cap :: children[i] == NULL)
      && (forall i, j | 0 <= i < j < cap :: children[i] != NULL && children[j] != NULL ==> keys[i] != keys[j])
    case Indexed(childIndex, children, compactCount, _) =>
      && |childIndex| == 256 && |children| == 48 && compactCount <= 48
      && (forall b | 0 <= b < 256 :: childIndex[b] <= compactCount || childIndex[b] == EMPTY_MARKER)
      && (forall i | compactCount <= i < 48 :: children[i] == NULL)
      && (forall i | 0 <= i < 48 && children[i] != NULL :: i in childIndex)
    case Direct(children, _) => |children| == 256
  }

  /** The child for a key byte. */
  function Child(l: Layout, b: Byte): Addr
    requires Shaped(l)
  {
    match l
    case Packed(cap, keys, children, _, _) =>
      var j := SlotOf(keys, children, Stored(cap, b)); if j < cap then children[j] else NULL
    case Indexed(childIndex, children, _, _) => if childIndex[b] == EMPTY_MARKER then NULL else children[childIndex[b]]
    case Direct(children, _) => children[b]
  }

  ghost function Live(l: Layout): set<Byte>
    requires Shaped(l)
  {
    set b: Byte | 0 <= b < 256 && Child(l, b) != NULL
  }

  /** Byte c has an index for the next slot, which an insertion stored, and a crash kept the child from following. */
  ghost predicate Leftover(l: Layout, c: Byte)
    requires Shaped(l)
  {
    l.Indexed? && l.compactCount < 48 && l.childIndex[c] == l.compactCount
  }

  ghost predicate FreeFor(l: Layout, b: Byte)
    requires Shaped(l)
  {
    forall c: Byte | c != b :: !Leftover(l, c)
  }

  /** No two bytes share a slot with a child. */
  ghost predicate Unshared(l: Layout)
    requires Shaped(l)
  {
    l.Indexed? ==> forall b, c | 0 <= b < c < 256 && l.childIndex[b] == l.childIndex[c] ::
      l.childIndex[b] == EMPTY_MARKER || l.childIndex[b] == l.compactCount
  }

  ghost predicate Sealed(l: Layout)
    requires Shaped(l)
  {
    forall c: Byte :: !Leftover(l, c)
  }

  ghost predicate LayoutOk(l: Layout) {
    Shaped(l) && Unshared(l) && l.count == |Live(l)|
  }

  /** l' is l with x as the child for b. */
  ghost predicate Repointed(l: Layout, l': Layout, b: Byte, x: Addr) {
    LayoutOk(l) && LayoutOk(l') && forall c: Byte :: Child(l', c) == if c == b then x else Child(l, c)
  }

  /** The fewest children that a node other than the root may have. */
  function Fewest(l: Layout): nat {
    match l
    case Packed(cap, _, _, _, _) => if cap == 4 then 2 else 3
    case Indexed(_, _, _, _) => 12
    case Direct(_, _) => 37
  }

  /** A new node of each kind. */
  function Empty(capacity: nat): (l: Layout)
    requires capacity in {4, 16, 48, 256}
    ensures Shaped(l) && Unshared(l) && l.count == 0 && Sealed(l) && forall b: Byte :: Child(l, b) == NULL
  {
    if capacity == 256 then Direct(Zeros(256), 0)
    else if capacity == 48 then Indexed(seq(256, _ => EMPTY_MARKER), Zeros(48), 0, 0)
    else Packed(capacity, seq(capacity, _ => 0), Zeros(capacity), 0, 0)
  }

  function Zeros(n: nat): (s: seq<Addr>)
    ensures |s| == n && forall i | 0 <= i < n :: s[i] == NULL
  {
    seq(n, _ => NULL)
  }

  function Capacity(l: Layout): nat {
    match l
    case Packed(cap, _, _, _, _) => cap
    case Indexed(_, _, _, _) => 48
    case Direct(_, _) => 256
  }

  /** insert cannot go on: all slots were handed out since the last copy. */
  predicate Full(l: Layout) {
    !l.Direct? && l.compactCount == Capacity(l)
  }

  /** Another pointer in slot i; the counts go with it. */
  function PointerSet(l: Layout, i: nat, x: Addr): Layout
    requires i < |l.children|
  {
    var more := l.count + if x != NULL then 1 else 0;
    var count := if l.children[i] != NULL && more > 0 then more - 1 else more;
    match l
    case Packed(cap, keys, children, compactCount, _) => Packed(cap, keys, children[i := x], if i == compactCount && x != NULL then i + 1 else compactCount, count)
    case Indexed(childIndex, children, compactCount, _) => Indexed(childIndex, children[i := x], if i == compactCount && x != NULL then i + 1 else compactCount, count)
    case Direct(children, _) => Direct(children[i := x], count)
  }

  // ----- counting -----

  lemma CountAfter(l: Layout, l': Layout, b: Byte, x: Addr)
    requires Shaped(l) && Shaped(l') && l.count == |Live(l)|
    requires forall c: Byte :: Child(l', c) == if c == b then x else Child(l, c)
    ensures |Live(l')| == l.count - (if Child(l, b) != NULL then 1 else 0) + (if x != NULL then 1 else 0)
  {
    hide Shaped;
    hide Child;
    var rest := Live(l) - {b};
    assert Live(l') - {b} == rest;
    CountOne(Live(l), b);
    CountOne(Live(l'), b);
  }

  lemma CountOne<T>(s: set<T>, x: T)
    ensures |s| == |s - {x}| + if x in s then 1 else 0
  {
    if x in s {
      assert s == (s - {x}) + {x};
    } else {
      assert s - {x} == s;
    }
  }

  // ----- reading -----

  method GetChild(l: Layout, b: Byte) returns (child: Addr)
    requires Shaped(l)
    ensures child == Child(l, b)
  {
    match l {
      case Packed(cap, keys, children, _, _) =>
        for i := 0 to cap
          invariant SlotOf(keys, children, Stored(cap, b)) >= i
        {
          if children[i] != NULL && keys[i] == Stored(cap, b) {
            return children[i];
          }
        }
        return NULL;
      case Indexed(childIndex, children, _, _) =>
        var index := childIndex[b];
        return if index == EMPTY_MARKER then NULL else children[index];
      case Direct(children, _) =>
        return children[b];
    }
  }

  /** The slot of a key in an N16: the search compares the lanes below compactCount. */
  lemma SlotBelow(l: Layout, b: Byte)
    requires Shaped(l) && l.Packed? && Child(l, b) != NULL
    ensures SlotOf(l.keys, l.children, Stored(l.cap, b)) < l.compactCount
  {
  }

  // ----- writing -----

  /** A child in the next unused slot. */
  function Inserted(l: Layout, b: Byte, x: Addr): Layout
    requires Shaped(l) && !Full(l)
  {
    match l
    case Packed(cap, keys, children, compactCount, count) =>
      Packed(cap, keys[compactCount := Stored(cap, b)], children[compactCount := x], compactCount + 1, count + 1)
    case Indexed(childIndex, children, compactCount, count) =>
      Indexed(childIndex[b := compactCount], children[compactCount := x], compactCount + 1, count + 1)
    case Direct(children, count) => Direct(children[b := x], count + 1)
  }

  lemma InsertedOk(l: Layout, b: Byte, x: Addr)
    requires LayoutOk(l) && !Full(l) && Child(l, b) == NULL && x != NULL && FreeFor(l, b)
    ensures Repointed(l, Inserted(l, b, x), b, x) && Inserted(l, b, x).count == l.count + 1 && Capacity(Inserted(l, b, x)) == Capacity(l)
    ensures Sealed(Inserted(l, b, x))
  {
    match l {
      case Packed(_, _, _, _, _) => PackedInserted(l, b, x);
      case Indexed(_, _, _, _) => IndexedInserted(l, b, x);
      case Direct(_, _) =>
    }
    CountAfter(l, Inserted(l, b, x), b, x);
  }

  /** Where the child goes. */
  function NextSlot(l: Layout, b: Byte): nat {
    if l.Direct? then b else l.compactCount
  }

  /** insert stores the key byte, or its index, before the child: a node between the two stores. */
  function HalfInserted(l: Layout, b: Byte): Layout
    requires Shaped(l) && !Full(l)
  {
    match l
    case Packed(cap, keys, children, compactCount, count) => Packed(cap, keys[compactCount := Stored(cap, b)], children, compactCount, count)
    case Indexed(childIndex, children, compactCount, count) => Indexed(childIndex[b := compactCount], children, compactCount, count)
    case Direct(_, _) => l
  }

  /** Between the two stores the node has the same children. */
  lemma HalfInsertedSame(l: Layout, b: Byte)
    requires LayoutOk(l) && !Full(l) && Child(l, b) == NULL
    ensures LayoutOk(HalfInserted(l, b)) && HalfInserted(l, b).count == l.count && Capacity(HalfInserted(l, b)) == Capacity(l)
    ensures forall c: Byte :: Child(HalfInserted(l, b), c) == Child(l, c)
  {
    var l' := HalfInserted(l, b);
    match l {
      case Packed(_, _, _, _, _) => HalfPacked(l, b);
      case Indexed(_, _, _, _) => HalfIndexed(l, b);
      case Direct(_, _) =>
    }
    assert Live(l') == Live(l);
  }

  lemma PointerInserted(l: Layout, b: Byte, x: Addr)
    requires LayoutOk(l) && !Full(l) && Child(l, b) == NULL && x != NULL
    ensures NextSlot(l, b) < |HalfInserted(l, b).children| && PointerSet(HalfInserted(l, b), NextSlot(l, b), x) == Inserted(l, b, x)
  {
  }

  lemma HalfPacked(l: Layout, b: Byte)
    requires Shaped(l) && l.Packed? && l.compactCount < l.cap
    ensures Shaped(HalfInserted(l, b)) && forall c: Byte :: Child(HalfInserted(l, b), c) == Child(l, c)
  {
    var l' := HalfInserted(l, b);
    forall c: Byte ensures Child(l', c) == Child(l, c) {
      var r := SlotOf(l.keys, l.children, Stored(l.cap, c));
      if r < l.cap { SlotIs(l'.keys, l'.children, Stored(l.cap, c), r); }
    }
  }

  lemma HalfIndexed(l: Layout, b: Byte)
    requires Shaped(l) && l.Indexed? && l.compactCount < 48 && Child(l, b) == NULL
    ensures Shaped(HalfInserted(l, b)) && forall c: Byte :: Child(HalfInserted(l, b), c) == Child(l, c)
    ensures Unshared(l) ==> Unshared(HalfInserted(l, b))
  {
    var l' := HalfInserted(l, b);
    forall i | 0 <= i < 48 && l'.children[i] != NULL ensures i in l'.childIndex {
      var c :| 0 <= c < 256 && l.childIndex[c] == i;
      assert l'.childIndex[c] == i;
    }
  }

  /** What an insertion makes of a node: the byte gets the child, and so does every byte with an index left over for the slot. */
  lemma InsertedKids(l: Layout, b: Byte, x: Addr)
    requires LayoutOk(l) && !Full(l) && Child(l, b) == NULL && x != NULL
    ensures Shaped(Inserted(l, b, x))
    ensures forall c: Byte :: Child(Inserted(l, b, x), c) == if c == b || Leftover(l, c) then x else Child(l, c)
  {
    match l {
      case Packed(_, _, _, _, _) => PackedInserted(l, b, x);
      case Indexed(_, _, _, _) => IndexedInserted(l, b, x);
      case Direct(_, _) =>
    }
  }

  /** An insertion changes no other byte's child exactly if no other index is left over for its slot. */
  lemma InsertedExactly(l: Layout, b: Byte, x: Addr)
    requires LayoutOk(l) && !Full(l) && Child(l, b) == NULL && x != NULL
    ensures Shaped(Inserted(l, b, x)) && Child(Inserted(l, b, x), b) == x
    ensures (forall c: Byte | c != b :: Child(Inserted(l, b, x), c) == Child(l, c)) <==> FreeFor(l, b)
  {
    InsertedKids(l, b, x);
    forall c: Byte | c != b && Child(Inserted(l, b, x), c) == Child(l, c) ensures !Leftover(l, c) {
    }
  }

  /** insert: fails when all slots were handed out. */
  method Insert(l: Layout, b: Byte, x: Addr) returns (ok: bool, l': Layout)
    requires LayoutOk(l) && Child(l, b) == NULL && x != NULL
    ensures ok == !Full(l)
    ensures !ok ==> l' == l
    ensures ok ==> Shaped(l') && forall c: Byte :: Child(l', c) == if c == b || Leftover(l, c) then x else Child(l, c)
    ensures ok ==> l' == Inserted(l, b, x) && l'.count == l.count + 1 && Capacity(l') == Capacity(l)
    ensures ok && FreeFor(l, b) ==> Repointed(l, l', b, x) && Sealed(l')
    ensures ok && !l.Direct? ==> l'.compactCount == l.compactCount + 1
  {
    ok, l' := true, l;
    match l {
      case Packed(cap, keys, children, compactCount, count) =>
        if compactCount == cap {
          return false, l;
        }
        l' := Packed(cap, keys[compactCount := Stored(cap, b)], children[compactCount := x], compactCount + 1, count + 1);
      case Indexed(childIndex, children, compactCount, count) =>
        if compactCount == 48 {
          return false, l;
        }
        l' := Indexed(childIndex[b := compactCount], children[compactCount := x], compactCount + 1, count + 1);
      case Direct(children, count) =>
        l' := Direct(children[b := x], count + 1);
    }
    InsertedKids(l, b, x);
    if FreeFor(l, b) { InsertedOk(l, b, x); }
  }

  /** A key's slot is found wherever it is. */
  lemma SlotIs(keys: seq<Byte>, children: seq<Addr>, k: Byte, r: nat)
    requires |keys| == |children| && r < |keys| && children[r] != NULL && keys[r] == k
    requires forall i, j | 0 <= i < j < |keys| :: children[i] != NULL && children[j] != NULL ==> keys[i] != keys[j]
    ensures SlotOf(keys, children, k) == r
  {
  }

  lemma PackedInserted(l: Layout, b: Byte, x: Addr)
    requires Shaped(l) && l.Packed? && Child(l, b) == NULL && x != NULL && l.compactCount < l.cap
    ensures var l' := l.(keys := l.keys[l.compactCount := Stored(l.cap, b)], children := l.children[l.compactCount := x],
                         compactCount := l.compactCount + 1, count := l.count + 1);
      Shaped(l') && forall c: Byte :: Child(l', c) == if c == b then x else Child(l, c)
  {
    var n, k := l.compactCount, Stored(l.cap, b);
    var keys, children := l.keys[n := k], l.children[n := x];
    forall i, j | 0 <= i < j < l.cap && children[i] != NULL && children[j] != NULL ensures keys[i] != keys[j] {
    }
    forall c: Byte ensures SlotOf(keys, children, Stored(l.cap, c)) == if c == b then n else SlotOf(l.keys, l.children, Stored(l.cap, c)) {
      StoredOnce(l.cap, b, c);
      var r := SlotOf(l.keys, l.children, Stored(l.cap, c));
      if c == b {
        SlotIs(keys, children, k, n);
      } else if r < l.cap {
        SlotIs(keys, children, Stored(l.cap, c), r);
      }
    }
  }

  lemma IndexedInserted(l: Layout, b: Byte, x: Addr)
    requires Shaped(l) && l.Indexed? && Child(l, b) == NULL && x != NULL && l.compactCount < 48
    ensures var l' := l.(childIndex := l.childIndex[b := l.compactCount], children := l.children[l.compactCount := x],
                         compactCount := l.compactCount + 1, count := l.count + 1);
      && Shaped(l') && (forall c: Byte :: Child(l', c) == if c == b || Leftover(l, c) then x else Child(l, c))
      && (FreeFor(l, b) && Unshared(l) ==> Unshared(l') && Sealed(l'))
  {
    var n := l.compactCount;
    var childIndex, children := l.childIndex[b := n], l.children[n := x];
    if FreeFor(l, b) && Unshared(l) {
      forall c: Byte | c != b ensures childIndex[c] != n {
        assert !Leftover(l, c);
      }
    }
    forall i | 0 <= i < 48 && children[i] != NULL ensures i in childIndex {
      if i == n {
        assert childIndex[b] == n;
      } else {
        var c :| 0 <= c < 256 && l.childIndex[c] == i;
        assert childIndex[c] == i;
      }
    }
  }

  /** The slot of a key among those handed out. */
  method ChildPos(l: Layout, b: Byte) returns (pos: nat)
    requires Shaped(l) && l.Packed? && Child(l, b) != NULL
    ensures pos == SlotOf(l.keys, l.children, Stored(l.cap, b)) < l.compactCount
  {
    SlotBelow(l, b);
    pos := 0;
    while l.children[pos] == NULL || l.keys[pos] != Stored(l.cap, b)
      invariant pos <= SlotOf(l.keys, l.children, Stored(l.cap, b)) < l.compactCount
      decreases l.compactCount - pos
    {
      pos := pos + 1;
    }
  }

  /** change: another child for a key that has one, and the slot that it is stored in. */
  method Change(l: Layout, b: Byte, x: Addr) returns (i: nat, l': Layout)
    requires LayoutOk(l) && Child(l, b) != NULL && x != NULL
    ensures i < |l.children| && l' == PointerSet(l, i, x)
    ensures Repointed(l, l', b, x) && l'.count == l.count && Capacity(l') == Capacity(l) && (Sealed(l) ==> Sealed(l'))
  {
    i := SlotFor(l, b);
    l' := PointerSet(l, i, x);
    Repoints(l, b, x, i);
  }

  /** The slot with a key's child. */
  method SlotFor(l: Layout, b: Byte) returns (i: nat)
    requires Shaped(l) && Child(l, b) != NULL
    ensures i == ChildSlot(l, b) < |l.children| && l.children[i] == Child(l, b) && (!l.Direct? ==> i < l.compactCount)
  {
    match l {
      case Packed(_, _, _, _, _) => i := ChildPos(l, b);
      case Indexed(childIndex, _, _, _) => i := childIndex[b];
      case Direct(_, _) => i := b;
    }
  }

  ghost function ChildSlot(l: Layout, b: Byte): nat
    requires Shaped(l)
  {
    match l
    case Packed(cap, keys, children, _, _) => SlotOf(keys, children, Stored(cap, b))
    case Indexed(childIndex, _, _, _) => childIndex[b]
    case Direct(_, _) => b
  }

  lemma Repoints(l: Layout, b: Byte, x: Addr, i: nat)
    requires LayoutOk(l) && Child(l, b) != NULL && i == ChildSlot(l, b) < |l.children|
    requires l.children[i] == Child(l, b) && (!l.Direct? ==> i < l.compactCount)
    ensures var l' := PointerSet(l, i, x);
      Repointed(l, l', b, x) && l'.count + 1 == l.count + (if x != NULL then 1 else 0) && Capacity(l') == Capacity(l) && (Sealed(l) ==> Sealed(l'))
  {
    assert l.count > 0 by { assert b in Live(l); }
    var l' := PointerSet(l, i, x);
    match l {
      case Packed(_, _, _, _, _) => PackedSet(l, b, x, l');
      case Indexed(_, _, _, _) => IndexedSet(l, b, x, l');
      case Direct(_, _) =>
    }
    CountAfter(l, l', b, x);
    SealedStill(l, l');
  }

  lemma SealedStill(l: Layout, l': Layout)
    requires Shaped(l) && Shaped(l') && (l.Indexed? <==> l'.Indexed?)
    requires l.Indexed? ==> l'.childIndex == l.childIndex && l'.compactCount == l.compactCount
    ensures Sealed(l) ==> Sealed(l')
  {
    forall c: Byte ensures Leftover(l', c) ==> Leftover(l, c) {
    }
  }

  lemma PackedSet(l: Layout, b: Byte, x: Addr, l': Layout)
    requires Shaped(l) && l.Packed? && Child(l, b) != NULL && SlotOf(l.keys, l.children, Stored(l.cap, b)) < l.compactCount
    requires l' == PointerSet(l, SlotOf(l.keys, l.children, Stored(l.cap, b)), x)
    ensures Shaped(l') && forall c: Byte :: Child(l', c) == if c == b then x else Child(l, c)
  {
    var pos := SlotOf(l.keys, l.children, Stored(l.cap, b));
    SlotBelow(l, b);
    forall i, j | 0 <= i < j < l.cap && l'.children[i] != NULL && l'.children[j] != NULL ensures l'.keys[i] != l'.keys[j] {
      assert l.children[i] != NULL && l.children[j] != NULL;
    }
    forall c: Byte ensures Child(l', c) == if c == b then x else Child(l, c) {
      StoredOnce(l.cap, b, c);
      var r := SlotOf(l.keys, l.children, Stored(l.cap, c));
      var r' := SlotOf(l'.keys, l'.children, Stored(l.cap, c));
      if c == b {
        if x != NULL { SlotIs(l'.keys, l'.children, Stored(l.cap, b), pos); }
      } else if r < l.cap {
        SlotIs(l'.keys, l'.children, Stored(l.cap, c), r);
      }
    }
  }

  lemma IndexedSet(l: Layout, b: Byte, x: Addr, l': Layout)
    requires Shaped(l) && Unshared(l) && l.Indexed? && Child(l, b) != NULL && l.childIndex[b] < l.compactCount
    requires l' == PointerSet(l, l.childIndex[b], x)
    ensures Shaped(l') && Unshared(l') && forall c: Byte :: Child(l', c) == if c == b then x else Child(l, c)
  {
    forall i | 0 <= i < 48 && l'.children[i] != NULL ensures i in l'.childIndex {
      assert i == l.childIndex[b] || l.children[i] != NULL;
    }
    forall c: Byte ensures Child(l', c) == if c == b then x else Child(l, c) {
      if c != b && l.childIndex[c] != EMPTY_MARKER {
        assert l.childIndex[c] != l.childIndex[b];
      }
    }
  }

  /** How few children make remove refuse. */
  function Threshold(l: Layout): nat {
    match l
    case Packed(cap, _, _, _, _) => if cap == 4 then 0 else 3
    case Indexed(_, _, _, _) => 12
    case Direct(_, _) => 37
  }

  /** remove: leaves a hole; refuses if the node should shrink instead, unless forced. */
  method Remove(l: Layout, b: Byte, force: bool) returns (ok: bool, i: nat, l': Layout)
    requires LayoutOk(l) && Child(l, b) != NULL
    ensures ok == (force || l.count > Threshold(l))
    ensures !ok ==> l' == l
    ensures ok ==> i < |l.children| && l' == PointerSet(l, i, NULL)
    ensures ok ==> Repointed(l, l', b, NULL) && l'.count + 1 == l.count && Capacity(l') == Capacity(l) && (Sealed(l) ==> Sealed(l'))
  {
    if l.count <= Threshold(l) && !force {
      return false, 0, l;
    }
    i := SlotFor(l, b);
    ok, l' := true, PointerSet(l, i, NULL);
    Repoints(l, b, NULL, i);
  }

  // ----- copying -----

  /** The copy holds the first so many children of the original. */
  ghost predicate Copied(l: Layout, l': Layout, done: set<Byte>, capacity: nat)
    requires Shaped(l)
  {
    && LayoutOk(l') && Capacity(l') == capacity && done <= Live(l)
    && (forall b: Byte :: Child(l', b) == if b in done then Child(l, b) else NULL)
    && (!l'.Direct? ==> l'.compactCount == l'.count) && Sealed(l')
  }

  method CopyOne(l: Layout, l': Layout, b: Byte, x: Addr, ghost done: set<Byte>, capacity: nat) returns (l'': Layout)
    requires LayoutOk(l) && l.count <= capacity && Copied(l, l', done, capacity) && x == Child(l, b) && b in Live(l) && b !in done
    ensures Copied(l, l'', done + {b}, capacity)
  {
    hide Shaped;
    hide Child;
    assert Live(l') == done;
    SubsetCard(done + {b}, Live(l));
    var ok;
    ok, l'' := Insert(l', b, x);
  }

  /** copyTo into a new node of some kind: the same children without holes. */
  method CopyTo(l: Layout, capacity: nat) returns (l': Layout)
    requires LayoutOk(l) && l.count <= capacity && capacity in {4, 16, 48, 256}
    ensures LayoutOk(l') && Capacity(l') == capacity && l'.count == l.count && forall b: Byte :: Child(l', b) == Child(l, b)
    ensures (!l'.Direct? ==> l'.compactCount == l.count) && Sealed(l')
  {
    assert Live(Empty(capacity)) == {};
    match l {
      case Packed(_, _, _, _, _) => l' := CopyPacked(l, capacity);
      case Indexed(_, _, _, _) => l' := CopyIndexed(l, capacity);
      case Direct(_, _) => l' := CopyDirect(l, capacity);
    }
    assert Live(l') == Live(l);
  }

  /** done is the set of keys in use in slots below i. */
  ghost predicate SlotsDone(l: Layout, done: set<Byte>, i: nat)
    requires Shaped(l) && l.Packed?
  {
    forall b: Byte :: b in done <==> SlotOf(l.keys, l.children, Stored(l.cap, b)) < i
  }

  ghost predicate KeysDone(l: Layout, done: set<Byte>, i: nat)
    requires Shaped(l)
  {
    forall b: Byte :: b in done <==> b < i && b in Live(l)
  }

  method CopyPacked(l: Layout, capacity: nat) returns (l': Layout)
    requires LayoutOk(l) && l.Packed? && l.count <= capacity && capacity in {4, 16, 48, 256} && Copied(l, Empty(capacity), {}, capacity)
    ensures Copied(l, l', Live(l), capacity)
  {
    hide Copied;
    hide Child;
    hide Live;
    ghost var done: set<Byte> := {};
    l' := Empty(capacity);
    for i := 0 to l.compactCount
      invariant Copied(l, l', done, capacity) && SlotsDone(l, done, i)
    {
      SlotsStep(l, done, i);
      if l.children[i] != NULL {
        var b := Stored(l.cap, l.keys[i]);
        PackedAt(l, i);
        l' := CopyOne(l, l', b, l.children[i], done, capacity);
        done := done + {b};
      }
    }
    SlotsEnd(l, done);
  }

  lemma SlotsStep(l: Layout, done: set<Byte>, i: nat)
    requires Shaped(l) && l.Packed? && i < l.compactCount && SlotsDone(l, done, i)
    ensures l.children[i] == NULL ==> SlotsDone(l, done, i + 1)
    ensures l.children[i] != NULL ==>
      Stored(l.cap, l.keys[i]) in Live(l) && Stored(l.cap, l.keys[i]) !in done && SlotsDone(l, done + {Stored(l.cap, l.keys[i])}, i + 1)
  {
    PackedNext(l, i);
    if l.children[i] != NULL { PackedAt(l, i); }
  }

  lemma SlotsEnd(l: Layout, done: set<Byte>)
    requires Shaped(l) && l.Packed? && SlotsDone(l, done, l.compactCount)
    ensures done == Live(l)
  {
    forall b: Byte ensures b in Live(l) <==> SlotOf(l.keys, l.children, Stored(l.cap, b)) < l.compactCount {
      if Child(l, b) != NULL { SlotBelow(l, b); }
    }
  }

  method CopyIndexed(l: Layout, capacity: nat) returns (l': Layout)
    requires LayoutOk(l) && l.Indexed? && l.count <= capacity && capacity in {4, 16, 48, 256} && Copied(l, Empty(capacity), {}, capacity)
    ensures Copied(l, l', Live(l), capacity)
  {
    hide Copied;
    ghost var done: set<Byte> := {};
    l' := Empty(capacity);
    for i := 0 to 256
      invariant Copied(l, l', done, capacity) && KeysDone(l, done, i)
    {
      if l.childIndex[i] != EMPTY_MARKER && l.children[l.childIndex[i]] != NULL {
        l' := CopyOne(l, l', i, l.children[l.childIndex[i]], done, capacity);
        done := done + {i};
      }
    }
    assert done == Live(l);
  }

  method CopyDirect(l: Layout, capacity: nat) returns (l': Layout)
    requires LayoutOk(l) && l.Direct? && l.count <= capacity && capacity in {4, 16, 48, 256} && Copied(l, Empty(capacity), {}, capacity)
    ensures Copied(l, l', Live(l), capacity)
  {
    hide Copied;
    ghost var done: set<Byte> := {};
    l' := Empty(capacity);
    for i := 0 to 256
      invariant Copied(l, l', done, capacity) && KeysDone(l, done, i)
    {
      if l.children[i] != NULL {
        l' := CopyOne(l, l', i, l.children[i], done, capacity);
        done := done + {i};
      }
    }
    assert done == Live(l);
  }

  /** A slot in use belongs to one key byte. */
  lemma PackedAt(l: Layout, i: nat)
    requires Shaped(l) && l.Packed? && i < l.cap && l.children[i] != NULL
    ensures var b := Stored(l.cap, l.keys[i]); SlotOf(l.keys, l.children, Stored(l.cap, b)) == i && Child(l, b) == l.children[i]
  {
    StoredOnce(l.cap, l.keys[i], l.keys[i]);
    SlotIs(l.keys, l.children, l.keys[i], i);
  }

  lemma PackedNext(l: Layout, i: nat)
    requires Shaped(l) && l.Packed? && i < l.cap
    ensures forall b: Byte :: SlotOf(l.keys, l.children, Stored(l.cap, b)) == i <==> l.children[i] != NULL && b == Stored(l.cap, l.keys[i])
  {
    StoredOnce(l.cap, l.keys[i], l.keys[i]);
    forall b: Byte ensures SlotOf(l.keys, l.children, Stored(l.cap, b)) == i <==> l.children[i] != NULL && b == Stored(l.cap, l.keys[i]) {
      StoredOnce(l.cap, b, Stored(l.cap, l.keys[i]));
      if l.children[i] != NULL { PackedAt(l, i); }
    }
  }

  // ----- the other readers -----

  /** getCount: the number of children, up to 3. */
  method CountToThree(l: Layout) returns (cnt: nat)
    requires LayoutOk(l)
    ensures cnt == if l.count < 3 then l.count else 3
  {
    hide Child;
    ghost var done: set<Byte> := {};
    cnt := 0;
    var i: nat := 0;
    match l {
      case Packed(cap, keys, children, compactCount, _) =>
        while i < compactCount && cnt < 3
          invariant i <= compactCount && cnt <= 3 && cnt == |done| && SlotsDone(l, done, i)
        {
          SlotsStep(l, done, i);
          if children[i] != NULL {
            cnt, done := cnt + 1, done + {Stored(cap, keys[i])};
          }
          i := i + 1;
        }
        SlotsSome(l, done, i);
      case Indexed(childIndex, children, _, _) =>
        while i < 256 && cnt < 3
          invariant i <= 256 && cnt <= 3 && cnt == |done| && KeysDone(l, done, i)
        {
          KeysStep(l, done, i);
          if childIndex[i] != EMPTY_MARKER && children[childIndex[i]] != NULL {
            cnt, done := cnt + 1, done + {i};
          }
          i := i + 1;
        }
        KeysSome(l, done, i);
      case Direct(children, _) =>
        while i < 256 && cnt < 3
          invariant i <= 256 && cnt <= 3 && cnt == |done| && KeysDone(l, done, i)
        {
          KeysStep(l, done, i);
          if children[i] != NULL {
            cnt, done := cnt + 1, done + {i};
          }
          i := i + 1;
        }
        KeysSome(l, done, i);
    }
  }

  lemma KeysStep(l: Layout, done: set<Byte>, i: nat)
    requires Shaped(l) && !l.Packed? && i < 256 && KeysDone(l, done, i)
    ensures var x := if l.Direct? then l.children[i] else if l.childIndex[i] == EMPTY_MARKER then NULL else l.children[l.childIndex[i]];
      if x == NULL then KeysDone(l, done, i + 1) else i !in done && KeysDone(l, done + {i}, i + 1)
  {
    var b: Byte := i;
    assert Child(l, b) == NULL <==> b !in Live(l);
  }

  lemma SlotsSome(l: Layout, done: set<Byte>, i: nat)
    requires LayoutOk(l) && l.Packed? && i <= l.compactCount && SlotsDone(l, done, i)
    ensures |done| <= l.count && (i == l.compactCount ==> |done| == l.count)
  {
    assert done <= Live(l);
    SubsetCard(done, Live(l));
    if i == l.compactCount { SlotsEnd(l, done); }
  }

  lemma KeysSome(l: Layout, done: set<Byte>, i: nat)
    requires LayoutOk(l) && i <= 256 && KeysDone(l, done, i)
    ensures |done| <= l.count && (i == 256 ==> |done| == l.count)
  {
    assert done <= Live(l);
    SubsetCard(done, Live(l));
    if i == 256 { assert done == Live(l); }
  }

  /** Slot i of the children array is the child for some key. */
  lemma SlotHasKey(l: Layout, i: nat) returns (b: Byte)
    requires Shaped(l) && i < |l.children| && l.children[i] != NULL
    ensures Child(l, b) == l.children[i] && b in Live(l)
  {
    match l {
      case Packed(cap, keys, _, _, _) => b := Stored(cap, keys[i]); PackedAt(l, i);
      case Indexed(childIndex, _, _, _) => b :| 0 <= b < 256 && childIndex[b] == i;
      case Direct(_, _) => b := i;
    }
  }

  lemma KeyHasSlot(l: Layout, b: Byte) returns (i: nat)
    requires Shaped(l) && b in Live(l)
    ensures i < |l.children| && l.children[i] == Child(l, b) != NULL
  {
    match l {
      case Packed(cap, keys, children, _, _) => i := SlotOf(keys, children, Stored(cap, b));
      case Indexed(childIndex, _, _, _) => i := childIndex[b];
      case Direct(_, _) => i := b;
    }
  }

  /** getAnyChild: a leaf if there is one, otherwise any child. */
  method AnyChild(l: Layout, isLeaf: Addr -> bool) returns (child: Addr)
    requires LayoutOk(l) && l.count > 0
    ensures exists b: Byte :: b in Live(l) && Child(l, b) == child
    ensures isLeaf(child) || forall b: Byte | b in Live(l) :: !isLeaf(Child(l, b))
  {
    hide Child;
    child := NULL;
    for i := 0 to |l.children|
      invariant child == NULL ==> forall j | 0 <= j < i :: l.children[j] == NULL
      invariant forall j | 0 <= j < i && l.children[j] != NULL :: !isLeaf(l.children[j])
      invariant child != NULL ==> exists b: Byte :: b in Live(l) && Child(l, b) == child
    {
      if l.children[i] != NULL {
        ghost var b := SlotHasKey(l, i);
        if isLeaf(l.children[i]) {
          return l.children[i];
        }
        child := l.children[i];
      }
    }
    forall b: Byte | b in Live(l) ensures !isLeaf(Child(l, b)) && child != NULL {
      var i := KeyHasSlot(l, b);
    }
    ghost var b: Byte :| b in Live(l);
  }

  /** getSecondChild: the other child of an N4 that has two. */
  method SecondChild(l: Layout, b: Byte) returns (child: Addr, k: Byte)
    requires LayoutOk(l) && l.Packed? && l.cap == 4 && l.count == 2 && b in Live(l)
    ensures k != b && child == Child(l, k) != NULL && Live(l) == {b, k}
  {
    hide Child;
    ghost var other := OtherOf(l, b);
    ghost var j := KeyHasSlot(l, other);
    ghost var done: set<Byte> := {};
    for i := 0 to l.compactCount
      invariant SlotsDone(l, done, i) && done <= {b}
    {
      SlotsStep(l, done, i);
      if l.children[i] != NULL {
        if l.keys[i] != b {
          PackedAt(l, i);
          TwoOf(l, b, l.keys[i]);
          return l.children[i], l.keys[i];
        }
        done := done + {l.keys[i]};
      }
    }
    SlotsEnd(l, done);
    assert false;
  }

  lemma OtherOf(l: Layout, b: Byte) returns (c: Byte)
    requires LayoutOk(l) && l.count == 2 && b in Live(l)
    ensures c != b && Live(l) == {b, c}
  {
    CountOne(Live(l), b);
    c :| c in Live(l) - {b};
    CountOne(Live(l) - {b}, c);
    assert Live(l) - {b} - {c} == {};
  }

  lemma TwoOf(l: Layout, b: Byte, c: Byte)
    requires LayoutOk(l) && l.count == 2 && b in Live(l) && c in Live(l) && b != c
    ensures Live(l) == {b, c}
  {
    var d := OtherOf(l, b);
  }

  // ----- bounds -----

  lemma {:induction false} SlotsBelow(l: Layout, i: nat) returns (done: set<Byte>)
    requires LayoutOk(l) && l.Packed? && i <= l.compactCount
    ensures SlotsDone(l, done, i) && |done| <= i
  {
    hide Child;
    hide Live;
    assert Shaped(l) && |l.keys| == l.cap == |l.children| && l.compactCount <= l.cap;
    hide Shaped;
    done := {};
    if i > 0 {
      done := SlotsBelow(l, i - 1);
      SlotsStep(l, done, i - 1);
      if l.children[i - 1] != NULL {
        done := done + {Stored(l.cap, l.keys[i - 1])};
      }
    }
  }

  ghost predicate IndicesDone(l: Layout, done: set<Byte>, i: nat)
    requires Shaped(l) && l.Indexed?
  {
    forall b: Byte :: b in done <==> b in Live(l) && l.childIndex[b] < i
  }

  lemma {:induction false} IndicesBelow(l: Layout, i: nat) returns (done: set<Byte>)
    requires LayoutOk(l) && l.Indexed? && i <= l.compactCount
    ensures IndicesDone(l, done, i) && |done| <= i
  {
    done := {};
    if i > 0 {
      done := IndicesBelow(l, i - 1);
      if c: Byte :| c in Live(l) && l.childIndex[c] == i - 1 {
        done := done + {c};
      }
    }
  }

  /** A node has no more children than slots were handed out. */
  lemma BoundedLive(l: Layout)
    requires LayoutOk(l)
    ensures Capacity(l) in {4, 16, 48, 256} && (l.Direct? <==> Capacity(l) == 256)
    ensures !l.Direct? ==> l.count <= l.compactCount <= Capacity(l)
  {
    if l.Packed? {
      var done := SlotsBelow(l, l.compactCount);
      SlotsEnd(l, done);
    } else if l.Indexed? {
      var done := IndicesBelow(l, l.compactCount);
      assert done == Live(l);
    }
  }

  // ----- children in a range of bytes -----

  type Children = seq<(Byte, Addr)>

  ghost predicate InOrder(r: Children) {
    forall i, j | 0 <= i < j < |r| :: r[i].0 < r[j].0
  }

  /** r holds the children for the bytes of done from lo to hi. */
  ghost predicate Holds(l: Layout, lo: Byte, hi: Byte, done: set<Byte>, r: Children)
    requires Shaped(l)
  {
    && (forall i | 0 <= i < |r| :: lo <= r[i].0 <= hi && r[i].0 in done && r[i].1 == Child(l, r[i].0))
    && (forall b: Byte | lo <= b <= hi && b in done :: exists i :: 0 <= i < |r| && r[i].0 == b)
  }

  /** One more child into a sorted sequence; what std::sort makes of the children in the end. */
  function AddSorted(r: Children, b: Byte, x: Addr): (r': Children)
    ensures forall c: (Byte, Addr) :: c in r' <==> c in r || c == (b, x)
  {
    if r == [] || r[|r| - 1].0 < b then r + [(b, x)]
    else
      assert r == r[..|r| - 1] + [r[|r| - 1]];
      AddSorted(r[..|r| - 1], b, x) + [r[|r| - 1]]
  }

  lemma {:induction false} AddedInOrder(r: Children, b: Byte, x: Addr)
    requires InOrder(r) && forall i | 0 <= i < |r| :: r[i].0 != b
    ensures InOrder(AddSorted(r, b, x))
  {
    if r != [] && r[|r| - 1].0 >= b {
      var n := |r| - 1;
      AddedInOrder(r[..n], b, x);
      var s := AddSorted(r[..n], b, x);
      forall i | 0 <= i < |s| ensures s[i].0 < r[n].0 {
        assert s[i] in s;
        if s[i] != (b, x) {
          var j :| 0 <= j < n && r[..n][j] == s[i];
        }
      }
    }
  }

  /** getChildren: in ascending order of their bytes. */
  method GetChildren(l: Layout, lo: Byte, hi: Byte) returns (r: Children)
    requires LayoutOk(l)
    ensures InOrder(r) && Holds(l, lo, hi, Live(l), r)
  {
    if l.Packed? {
      r := PackedChildren(l, lo, hi);
    } else {
      r := ChildrenByKey(l, lo, hi);
    }
  }

  method PackedChildren(l: Layout, lo: Byte, hi: Byte) returns (r: Children)
    requires LayoutOk(l) && l.Packed?
    ensures InOrder(r) && Holds(l, lo, hi, Live(l), r)
  {
    hide Child;
    hide Live;
    ghost var done: set<Byte> := {};
    r := [];
    for i := 0 to l.compactCount
      invariant InOrder(r) && SlotsDone(l, done, i) && Holds(l, lo, hi, done, r)
    {
      SlotsStep(l, done, i);
      var b := Stored(l.cap, l.keys[i]);
      if l.children[i] != NULL {
        PackedAt(l, i);
        if lo <= b <= hi {
          ghost var r0 := r;
          AddedInOrder(r, b, l.children[i]);
          r := AddSorted(r, b, l.children[i]);
          HoldsMore(l, lo, hi, done, r0, b, r);
        }
        done := done + {b};
      }
    }
    SlotsEnd(l, done);
  }

  lemma HoldsMore(l: Layout, lo: Byte, hi: Byte, done: set<Byte>, r: Children, b: Byte, r': Children)
    requires Shaped(l) && Holds(l, lo, hi, done, r) && lo <= b <= hi
    requires forall c: (Byte, Addr) :: c in r' <==> c in r || c == (b, Child(l, b))
    ensures Holds(l, lo, hi, done + {b}, r')
  {
    hide Child;
    forall i | 0 <= i < |r'| ensures lo <= r'[i].0 <= hi && r'[i].0 in done + {b} && r'[i].1 == Child(l, r'[i].0) {
      assert r'[i] in r';
    }
    forall c: Byte | lo <= c <= hi && c in done + {b} ensures exists i :: 0 <= i < |r'| && r'[i].0 == c {
      if c == b {
        assert (b, Child(l, b)) in r';
      } else {
        var i :| 0 <= i < |r| && r[i].0 == c;
        assert r[i] in r';
      }
    }
  }

  method ChildrenByKey(l: Layout, lo: Byte, hi: Byte) returns (r: Children)
    requires LayoutOk(l) && !l.Packed?
    ensures InOrder(r) && Holds(l, lo, hi, Live(l), r)
  {
    r := [];
    var i: nat := lo;
    while i <= hi
      invariant lo <= i <= 256 && (i <= hi || i == hi + 1 || i == lo)
      invariant InOrder(r) && forall j | 0 <= j < |r| :: lo <= r[j].0 < i && r[j].0 <= hi && r[j].1 == Child(l, r[j].0) && r[j].0 in Live(l)
      invariant forall b: Byte | lo <= b < i && b <= hi && b in Live(l) :: exists j :: 0 <= j < |r| && r[j].0 == b
    {
      var x := if l.Direct? then l.children[i] else if l.childIndex[i] == EMPTY_MARKER then NULL else l.children[l.childIndex[i]];
      if x != NULL {
        ghost var r0 := r;
        r := r + [(i, x)];
        assert r[|r0|].0 == i;
        assert forall j | 0 <= j < |r0| :: r[j] == r0[j];
      }
      i := i + 1;
    }
  }
}
