/**
 WOART nodes: four layouts, each of which publishes a new child with one final store, so that a crash at any
 point leaves the children from before or after.
 */
module WoartNodes {
  import opened Bits
  import opened Addresses

  /** A byte and the index of its child, or -1; four of them are stored as one word. */
  datatype Slot = Slot(key: Byte, iPtr: int)

  datatype Node =
    | Node4(slots: seq<Slot>, children: seq<Addr>)
    | Node16(bitmap: nat, keys: seq<Byte>, children: seq<Addr>)
    | Node48(index: seq<nat>, children: seq<Addr>)
    | Node256(children: seq<Addr>)

  // ----- bitmaps of one word -----

  function Bit(x: nat, i: nat): bool {
    Shr(x, i) % 2 == 1
  }

  lemma BitStep(x: nat, i: nat)
    ensures i == 0 ==> Bit(x, i) == (x % 2 == 1)
    ensures i > 0 ==> Bit(x, i) == Bit(x / 2, i - 1)
  {
    if i > 0 { ShrHalf(x, i - 1); }
  }

  /** bitmap += 1 << e, for a bit that is clear */
  lemma {:induction false} AddBit(x: nat, e: nat, i: nat)
    requires !Bit(x, e)
    ensures Bit(x + Pow2(e), i) == (i == e || Bit(x, i))
  {
    BitStep(x, e);
    BitStep(x, i);
    BitStep(x + Pow2(e), i);
    if e == 0 {
      assert (x + 1) / 2 == x / 2;
    } else {
      assert Pow2(e) == 2 * Pow2(e - 1);
      assert (x + Pow2(e)) / 2 == x / 2 + Pow2(e - 1);
      if i > 0 { AddBit(x / 2, e - 1, i - 1); }
    }
  }

  /** A bitmap is all ones exactly if every bit is set. */
  lemma {:induction false} AllOnes(x: nat, n: nat)
    requires x < Pow2(n)
    ensures x == Pow2(n) - 1 <==> forall i: nat | i < n :: Bit(x, i)
  {
    if n > 0 {
      AllOnes(x / 2, n - 1);
      BitStep(x, 0);
      forall i: nat | i < n - 1 ensures Bit(x / 2, i) == Bit(x, i + 1) { BitStep(x, i + 1); }
      if forall i: nat | i < n :: Bit(x, i) {
        assert Bit(x, 0);
        forall i: nat | i < n - 1 ensures Bit(x / 2, i) { assert Bit(x, i + 1); }
      } else {
        var i: nat :| i < n && !Bit(x, i);
        BitStep(x, i);
      }
    }
  }

  /** find_next_zero_bit: the first clear bit from offset on, or size. */
  method FindNextZeroBit(word: nat, size: nat, offset: nat) returns (r: nat)
    requires offset <= size
    ensures offset <= r <= size && (forall i: nat | offset <= i < r :: Bit(word, i)) && (r < size ==> !Bit(word, r))
  {
    r := offset;
    while r < size && Bit(word, r)
      invariant offset <= r <= size && forall i: nat | offset <= i < r :: Bit(word, i)
    {
      r := r + 1;
    }
  }

  /** find_next_bit: the first set bit from offset on, or size. */
  method FindNextBit(word: nat, size: nat, offset: nat) returns (r: nat)
    requires offset <= size
    ensures offset <= r <= size && (forall i: nat | offset <= i < r :: !Bit(word, i)) && (r < size ==> Bit(word, r))
  {
    r := offset;
    while r < size && !Bit(word, r)
      invariant offset <= r <= size && forall i: nat | offset <= i < r :: !Bit(word, i)
    {
      r := r + 1;
    }
  }

  // ----- what a node holds -----

  /** The number of slots in use: those before the first without a child. */
  function Used(slots: seq<Slot>): (n: nat)
    ensures n <= |slots| && (forall i | 0 <= i < n :: slots[i].iPtr != -1) && (n < |slots| ==> slots[n].iPtr == -1)
  {
    if slots == [] || slots[0].iPtr == -1 then 0 else 1 + Used(slots[1..])
  }

  /** The slots in use are packed, sorted by key, and lead to different children. */
  ghost predicate Sorted(slots: seq<Slot>) {
    && (forall i | 0 <= i < Used(slots) :: 0 <= slots[i].iPtr < 4)
    && (forall i, j | 0 <= i < j < Used(slots) :: slots[i].key < slots[j].key && slots[i].iPtr != slots[j].iPtr)
    && (forall i | Used(slots) <= i < |slots| :: slots[i].iPtr == -1)
  }

  ghost predicate Valid(n: Node) {
    match n
    case Node4(slots, children) =>
      |slots| == 4 && |children| == 4 && Sorted(slots) && forall i | 0 <= i < Used(slots) :: children[slots[i].iPtr] != NULL
    case Node16(bitmap, keys, children) =>
      && bitmap < Pow2(16) && |keys| == 16 && |children| == 16
      && (forall i: nat | i < 16 && Bit(bitmap, i) :: children[i] != NULL)
      && (forall i: nat, j: nat | i < j < 16 && Bit(bitmap, i) && Bit(bitmap, j) :: keys[i] != keys[j])
    case Node48(index, children) =>
      && |index| == 256 && |children| == 48
      && (forall c | 0 <= c < 256 :: index[c] <= 48 && (index[c] > 0 ==> children[index[c] - 1] != NULL))
      && (forall c, d | 0 <= c < d < 256 && index[c] == index[d] :: index[c] == 0)
    case Node256(children) => |children| == 256
  }

  /** The children by key byte: what find_child answers, from the data alone. */
  ghost predicate Holds(n: Node, c: Byte, x: Addr)
    requires Valid(n)
  {
    match n
    case Node4(slots, children) => exists i :: 0 <= i < Used(slots) && slots[i].key == c && children[slots[i].iPtr] == x
    case Node16(bitmap, keys, children) => exists i: nat :: i < 16 && Bit(bitmap, i) && keys[i] == c && children[i] == x
    case Node48(index, children) => index[c] > 0 && children[index[c] - 1] == x
    case Node256(children) => children[c] == x && x != NULL
  }

  ghost predicate HoldsNone(n: Node, c: Byte)
    requires Valid(n)
  {
    forall x :: !Holds(n, c, x)
  }

  /** n' holds what n holds, and x for c. */
  ghost predicate Extended(n: Node, n': Node, c: Byte, x: Addr) {
    Valid(n) && Valid(n') && forall d: Byte, y :: Holds(n', d, y) <==> Holds(n, d, y) || (d == c && y == x)
  }

  ghost predicate SameChildren(n: Node, n': Node) {
    Valid(n) && Valid(n') && forall d: Byte, y :: Holds(n', d, y) <==> Holds(n, d, y)
  }

  /** find_child */
  method FindChild(n: Node, c: Byte) returns (child: Addr)
    requires Valid(n)
    ensures child != NULL ==> Holds(n, c, child)
    ensures child == NULL ==> HoldsNone(n, c)
  {
    match n {
      case Node4(slots, children) =>
        var i := 0;
        while i < 4 && slots[i].iPtr != -1
          invariant 0 <= i <= Used(slots) && forall j | 0 <= j < i :: slots[j].key != c
        {
          if slots[i].key == c {
            return children[slots[i].iPtr];
          }
          i := i + 1;
        }
        return NULL;
      case Node16(bitmap, keys, children) =>
        var i := 0;
        while i < 16
          invariant i <= 16 && forall j: nat | j < i && Bit(bitmap, j) :: keys[j] != c
        {
          i := FindNextBit(bitmap, 16, i);
          if i < 16 && keys[i] == c {
            return children[i];
          }
          if i < 16 { i := i + 1; }
        }
        return NULL;
      case Node48(index, children) =>
        var i := index[c];
        return if i > 0 then children[i - 1] else NULL;
      case Node256(children) =>
        return children[c];
    }
  }

  /** x is the child for the least key byte. */
  ghost predicate Least(n: Node, x: Addr)
    requires Valid(n)
  {
    exists c: Byte :: Holds(n, c, x) && forall d: Byte | d < c :: HoldsNone(n, d)
  }

  /** The step of minimum at a node: the child for the least key byte, in whatever order the layout keeps them. */
  method LeastChild(n: Node) returns (child: Addr)
    requires Valid(n) && exists c: Byte, x :: Holds(n, c, x)
    ensures Least(n, child)
  {
    match n {
      case Node4(slots, children) =>
        child := children[slots[0].iPtr];
        assert Holds(n, slots[0].key, child);
      case Node16(bitmap, keys, children) =>
        child := LeastOf16(bitmap, keys, children);
      case Node48(index, children) =>
        ghost var c: Byte, x :| Holds(n, c, x);
        var idx: nat := 0;
        while index[idx] == 0
          invariant idx <= c && forall d | 0 <= d < idx :: index[d] == 0
          decreases 256 - idx
        {
          idx := idx + 1;
        }
        child := children[index[idx] - 1];
        assert Holds(n, idx, child);
      case Node256(children) =>
        ghost var c: Byte, x :| Holds(n, c, x);
        var idx: nat := 0;
        while children[idx] == NULL
          invariant idx <= c && forall d | 0 <= d < idx :: children[d] == NULL
          decreases 256 - idx
        {
          idx := idx + 1;
        }
        child := children[idx];
        assert Holds(n, idx, child);
    }
  }

  method LeastOf16(bitmap: nat, keys: seq<Byte>, children: seq<Addr>) returns (child: Addr)
    requires Valid(Node16(bitmap, keys, children)) && exists c: Byte, x :: Holds(Node16(bitmap, keys, children), c, x)
    ensures Least(Node16(bitmap, keys, children), child)
  {
    ghost var n := Node16(bitmap, keys, children);
    var i := FindNextBit(bitmap, 16, 0);
    var min, idx := keys[i], i;
    i := i + 1;
    while i < 16
      invariant idx < i <= 17 && idx < 16 && Bit(bitmap, idx) && min == keys[idx]
      invariant forall j: nat | j < i && j < 16 && Bit(bitmap, j) :: min <= keys[j]
    {
      i := FindNextBit(bitmap, 16, i);
      if i < 16 && keys[i] < min {
        min, idx := keys[i], i;
      }
      i := i + 1;
    }
    child := children[idx];
    assert Holds(n, min, child);
    forall d: Byte | d < min ensures HoldsNone(n, d) {
    }
  }

  // ----- larger copies -----

  ghost predicate PtrBefore(slots: seq<Slot>, idx: nat, i: nat)
    requires idx <= |slots|
  {
    exists j :: 0 <= j < idx && slots[j].iPtr == i
  }

  /** The bitmap of the children that the first slots lead to. */
  ghost predicate BitsOf(bitmap: nat, slots: seq<Slot>, idx: nat)
    requires idx <= |slots|
  {
    forall i: nat :: Bit(bitmap, i) <==> PtrBefore(slots, idx, i)
  }

  lemma BitsStep(bitmap: nat, slots: seq<Slot>, idx: nat)
    requires Sorted(slots) && idx < Used(slots) && BitsOf(bitmap, slots, idx)
    ensures !Bit(bitmap, slots[idx].iPtr) && BitsOf(bitmap + Pow2(slots[idx].iPtr), slots, idx + 1)
  {
    var p := slots[idx].iPtr;
    assert !PtrBefore(slots, idx, p);
    var b := bitmap + Pow2(p);
    forall i: nat ensures Bit(b, i) <==> PtrBefore(slots, idx + 1, i) {
      AddBit(bitmap, p, i);
      if PtrBefore(slots, idx, i) {
        var j :| 0 <= j < idx && slots[j].iPtr == i;
        assert slots[j].iPtr == i && j < idx + 1;
      }
      if i == p { assert slots[idx].iPtr == i; }
    }
  }

  /** The node that add_child4 grows into: the same places for the same children, and place 4 for the new one. */
  method Grow4(slots: seq<Slot>, children: seq<Addr>, c: Byte, x: Addr) returns (n': Node)
    requires Valid(Node4(slots, children)) && Used(slots) == 4 && HoldsNone(Node4(slots, children), c) && x != NULL
    ensures n'.Node16? && Extended(Node4(slots, children), n', c, x)
  {
    var bitmap: nat, keys: seq<Byte>, kids: seq<Addr> := 0, seq(16, _ => 0), seq(16, _ => NULL);
    ZeroBits(16);
    var idx := 0;
    while idx < 4
      invariant 0 <= idx <= 4 && |keys| == 16 && |kids| == 16 && BitsOf(bitmap, slots, idx)
      invariant forall j | 0 <= j < idx :: keys[slots[j].iPtr] == slots[j].key && kids[slots[j].iPtr] == children[slots[j].iPtr]
    {
      BitsStep(bitmap, slots, idx);
      var p := slots[idx].iPtr;
      keys, kids, bitmap := keys[p := slots[idx].key], kids[p := children[p]], bitmap + Pow2(p);
      idx := idx + 1;
    }
    n' := Node16(bitmap + Pow2(4), keys[4 := c], kids[4 := x]);
    Grown4(slots, children, c, x, bitmap, keys, kids);
  }

  lemma Grown4(slots: seq<Slot>, children: seq<Addr>, c: Byte, x: Addr, bitmap: nat, keys: seq<Byte>, kids: seq<Addr>)
    requires Valid(Node4(slots, children)) && Used(slots) == 4 && HoldsNone(Node4(slots, children), c) && x != NULL
    requires |keys| == 16 && |kids| == 16 && BitsOf(bitmap, slots, 4)
    requires forall j | 0 <= j < 4 :: keys[slots[j].iPtr] == slots[j].key && kids[slots[j].iPtr] == children[slots[j].iPtr]
    ensures Extended(Node4(slots, children), Node16(bitmap + Pow2(4), keys[4 := c], kids[4 := x]), c, x)
  {
    var b := bitmap + Pow2(4);
    assert !PtrBefore(slots, 4, 4);
    forall i: nat ensures Bit(b, i) <==> i == 4 || PtrBefore(slots, 4, i) { AddBit(bitmap, 4, i); }
    BoundedBits(b, 16);
    Laid4(slots, children, c, x, b, keys[4 := c], kids[4 := x]);
  }

  lemma Laid4(slots: seq<Slot>, children: seq<Addr>, c: Byte, x: Addr, b: nat, keys: seq<Byte>, kids: seq<Addr>)
    requires Valid(Node4(slots, children)) && Used(slots) == 4 && HoldsNone(Node4(slots, children), c) && x != NULL
    requires |keys| == 16 && |kids| == 16 && b < Pow2(16) && keys[4] == c && kids[4] == x
    requires forall i: nat :: Bit(b, i) <==> i == 4 || PtrBefore(slots, 4, i)
    requires forall j | 0 <= j < 4 :: keys[slots[j].iPtr] == slots[j].key && kids[slots[j].iPtr] == children[slots[j].iPtr]
    ensures Extended(Node4(slots, children), Node16(b, keys, kids), c, x)
  {
    hide Bit;
    var n, n' := Node4(slots, children), Node16(b, keys, kids);
    forall j | 0 <= j < 4 ensures slots[j].key != c && Bit(b, slots[j].iPtr) {
      assert Holds(n, slots[j].key, children[slots[j].iPtr]);
      assert PtrBefore(slots, 4, slots[j].iPtr);
    }
    forall i: nat | i < 16 && Bit(b, i) && i != 4 ensures exists j :: 0 <= j < 4 && slots[j].iPtr == i {
      assert PtrBefore(slots, 4, i);
    }
    hide Used;
    assert Valid(n');
    forall d: Byte, y ensures Holds(n', d, y) <==> Holds(n, d, y) || (d == c && y == x) {
      if d == c && y == x { assert Bit(b, 4) && keys[4] == d && kids[4] == y; }
    }
  }

  lemma ZeroBits(n: nat)
    ensures forall i: nat :: !Bit(0, i)
  {
    forall i: nat ensures !Bit(0, i) { ZeroBit(i); }
  }

  lemma {:induction false} ZeroBit(i: nat)
    ensures !Bit(0, i)
  {
    BitStep(0, i);
    if i > 0 { ZeroBit(i - 1); }
  }

  /** A number without high bits is small. */
  lemma {:induction false} BoundedBits(x: nat, n: nat)
    requires forall i: nat | i >= n :: !Bit(x, i)
    ensures x < Pow2(n)
    decreases x, n
  {
    if n == 0 {
      if x > 0 {
        BitStep(x, 0);
        assert !Bit(x, 0);
        forall i: nat ensures !Bit(x / 2, i) { BitStep(x, i + 1); assert !Bit(x, i + 1); }
        BoundedBits(x / 2, 0);
      }
    } else {
      forall i: nat | i >= n - 1 ensures !Bit(x / 2, i) { BitStep(x, i + 1); assert !Bit(x, i + 1); }
      BoundedBits(x / 2, n - 1);
    }
  }

  /** The node that add_child16 grows into. */
  method Grow16(bitmap: nat, keys: seq<Byte>, children: seq<Addr>, c: Byte, x: Addr) returns (n': Node)
    requires Valid(Node16(bitmap, keys, children)) && bitmap == Pow2(16) - 1 && HoldsNone(Node16(bitmap, keys, children), c) && x != NULL
    ensures n'.Node48? && Extended(Node16(bitmap, keys, children), n', c, x)
  {
    hide Valid;
    hide Bit;
    hide Holds;
    hide HoldsNone;
    hide Extended;
    AllOnes(bitmap, 16);
    FullKeys(bitmap, keys, children, c);
    var index: seq<nat> := seq(256, _ => 0);
    for idx := 0 to 16
      invariant IndexUpTo(index, keys, idx)
    {
      IndexNext(index, keys, idx);
      index := index[keys[idx] := idx + 1];
    }
    assert index[c] == 0;
    var kids := children + seq(32, _ => NULL);
    n' := Node48(index[c := 17], kids[16 := x]);
    Grown16(bitmap, keys, children, c, x, index, n');
  }

  /** The index says where the first so many keys are, and nothing else. */
  ghost predicate IndexUpTo(index: seq<nat>, keys: seq<Byte>, n: nat)
    requires n <= |keys|
  {
    && |index| == 256 && (forall i | 0 <= i < n :: index[keys[i]] == i + 1)
    && (forall d | 0 <= d < 256 && index[d] > 0 :: index[d] <= n && keys[index[d] - 1] == d)
  }

  lemma IndexNext(index: seq<nat>, keys: seq<Byte>, n: nat)
    requires n < |keys| && IndexUpTo(index, keys, n) && forall i | 0 <= i < n :: keys[i] != keys[n]
    ensures IndexUpTo(index[keys[n] := n + 1], keys, n + 1)
  {
  }

  lemma FullKeys(bitmap: nat, keys: seq<Byte>, children: seq<Addr>, c: Byte)
    requires Valid(Node16(bitmap, keys, children)) && HoldsNone(Node16(bitmap, keys, children), c) && forall i: nat | i < 16 :: Bit(bitmap, i)
    ensures |keys| == 16 == |children| && (forall i, j | 0 <= i < j < 16 :: keys[i] != keys[j]) && forall i | 0 <= i < 16 :: keys[i] != c
  {
    hide Bit;
    forall i, j | 0 <= i < j < 16 ensures keys[i] != keys[j] {
      assert Bit(bitmap, i) && Bit(bitmap, j);
    }
    forall i: nat | i < 16 ensures keys[i] != c {
      assert !Holds(Node16(bitmap, keys, children), c, children[i]);
    }
  }

  lemma Grown16(bitmap: nat, keys: seq<Byte>, children: seq<Addr>, c: Byte, x: Addr, index: seq<nat>, n': Node)
    requires Valid(Node16(bitmap, keys, children)) && x != NULL && |index| == 256 && index[c] == 0
    requires forall i: nat | i < 16 :: Bit(bitmap, i)
    requires forall i | 0 <= i < 16 :: index[keys[i]] == i + 1
    requires forall d | 0 <= d < 256 && index[d] > 0 :: index[d] <= 16 && keys[index[d] - 1] == d
    requires n' == Node48(index[c := 17], (children + seq(32, _ => NULL))[16 := x])
    ensures Extended(Node16(bitmap, keys, children), n', c, x)
  {
    hide Bit;
    var n := Node16(bitmap, keys, children);
    assert forall i | 0 <= i < 16 :: n'.children[i] == children[i];
    forall d: Byte, y ensures Holds(n', d, y) <==> Holds(n, d, y) || (d == c && y == x) {
      if Holds(n, d, y) {
        var i: nat :| i < 16 && Bit(bitmap, i) && keys[i] == d && children[i] == y;
        assert n'.index[d] == i + 1;
      }
      if Holds(n', d, y) && d != c {
        assert Bit(bitmap, index[d] - 1);
      }
    }
  }

  /** The node that add_child48 grows into. */
  method Grow48(index: seq<nat>, children: seq<Addr>, c: Byte, x: Addr) returns (n': Node)
    requires Valid(Node48(index, children)) && HoldsNone(Node48(index, children), c) && x != NULL
    ensures n'.Node256? && Extended(Node48(index, children), n', c, x)
  {
    var kids: seq<Addr> := seq(256, _ => NULL);
    for i := 0 to 256
      invariant |kids| == 256
      invariant forall d | 0 <= d < 256 :: kids[d] == if d < i && index[d] > 0 then children[index[d] - 1] else NULL
    {
      if index[i] > 0 {
        kids := kids[i := children[index[i] - 1]];
      }
    }
    assert !Holds(Node48(index, children), c, children[if index[c] > 0 then index[c] - 1 else 0]);
    assert index[c] == 0;
    n' := Node256(kids[c := x]);
  }
}
