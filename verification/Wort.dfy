/**
 wort.cpp: a trie of nibbles with optimistic path compression, in memory that survives a crash. An update
 needs no log: a crash leaves a tree for the map before or after it, possibly with one stale header.
 */
module Worts {
  import opened Bits
  import opened Options
  import opened Addresses
  import opened Prefixes
  import opened Nibbles
  import opened WortModel
  import opened Stores
  import opened WortStores

  class Wort {
    const base: Memory                 // memory when the tree was opened
    var log: seq<Event<Store>>                // all stores and fences since; memory is what they make of it
    var size: nat
    var nextAddress: Addr
    ghost var places: map<Addr, Place>

    function Root(): Addr
      reads this`log
    {
      Read(base, log).root
    }

    function Nodes(): map<Addr, Cell>
      reads this`log
    {
      Read(base, log).nodes
    }

    ghost function Model(): Tree
      reads this
    {
      TreeOf(Read(base, log), places)
    }

    /** A tree, and all stores are durable. */
    ghost predicate Valid()
      reads this
    {
      TreeOk(Model()) && Durable(log) && nextAddress > NULL && forall a | a in Nodes() :: a < nextAddress
    }

    constructor ()
      ensures Valid() && Contents(Model()) == map[] && size == 0
    {
      base, log, size, nextAddress := Memory(NULL, map[]), [], 0, 1;
      places := map[];
    }

    /**
     Memory as a crash inside put left it, used as it is: nothing is repaired up front. Every other key has its value, and the
     key its old one or its new one. By the contract of Put a crash leaves nothing else. The size is counted last: it falls one
     behind exactly if the key is new and its leaf was kept, and no put makes up for it.
     */
    constructor Reopen(root: Addr, nodes: map<Addr, Cell>, size: nat, nextAddress: Addr, ghost places: map<Addr, Place>,
                       ghost before: Tree, ghost key: U64, ghost value: U64)
      requires BeforeOrAfter(before, Tree(root, nodes, places), key, value) && nextAddress > NULL && forall a | a in nodes :: a < nextAddress
      ensures Valid() && Model() == Tree(root, nodes, places)
      ensures forall k: U64 | k != key :: Lookup(Contents(Model()), k) == Lookup(Contents(before), k)
      ensures Lookup(Contents(Model()), key) in {Lookup(Contents(before), key), Some(value)}
      ensures this.size == size
      ensures size - |Contents(Model())| == size - |Contents(before)| - if key !in Contents(before) && key in Contents(Model()) then 1 else 0
    {
      hide TreeOk;
      hide Contents;
      Grows(Contents(before), key, value);
      base, log, this.size, this.nextAddress := Memory(root, nodes), [], size, nextAddress;
      this.places := places;
    }

    // ----- reading -----

    /** The number of nibbles that a node's stored prefix and the key share. */
    method CheckPrefix(h: Header, key: U64, depth: nat) returns (idx: nat)
      requires depth <= WORT_MAX_HEIGHT && |h.nibbles| == Min(WORT_MAX_PREFIX_LEN, h.len)
      ensures idx <= |h.nibbles| && depth + idx <= WORT_MAX_HEIGHT
      ensures h.nibbles[..idx] == Nibs(key)[depth..depth + idx]
      ensures idx < |h.nibbles| && depth + idx < WORT_MAX_HEIGHT ==> h.nibbles[idx] != Nibs(key)[depth + idx]
    {
      hide Nibs;
      var maxCmp := Min(Min(h.len, WORT_MAX_PREFIX_LEN), WORT_MAX_HEIGHT - depth);
      idx := 0;
      while idx < maxCmp
        invariant idx <= maxCmp
        invariant h.nibbles[..idx] == Nibs(key)[depth..depth + idx]
      {
        if h.nibbles[idx] != GetIndex(key, depth + idx) {
          return;
        }
        assert Nibs(key)[depth..depth + idx + 1] == Nibs(key)[depth..depth + idx] + [Nibs(key)[depth + idx]];
        idx := idx + 1;
      }
    }

    /** The least leaf under a cell. */
    method Minimum(n: Addr) returns (leaf: Addr)
      requires Valid() && n in places
      ensures Under(Model(), n, leaf)
      ensures leaf in Nodes() && Nodes()[leaf].Leaf?
      ensures forall key | key in Contents(Model()) && Prefix(places[n].path, Nibs(key)) :: Nodes()[leaf].key <= key
      decreases WORT_MAX_HEIGHT - |places[n].path|
    {
      hide TreeOk;
      hide CellOk;
      hide Nibs;
      ghost var t := Model();
      InNodes(t, n);
      if Nodes()[n].Leaf? {
        UnderSelf(t, n);
        return n;
      }
      SomeChild(t, n);
      var idx: Nibble := 0;
      while Nodes()[n].children[idx] == NULL
        invariant forall c: Nibble | c < idx :: Nodes()[n].children[c] == NULL
        invariant exists c: Nibble :: c >= idx && Nodes()[n].children[c] != NULL
        decreases WORT_NUM_NODE_ENTRIES - idx
      {
        idx := idx + 1;
      }
      ChildPlaced(t, n, idx);
      Deeper(t, n, idx);
      leaf := Minimum(Nodes()[n].children[idx]);
      UnderChild(t, n, idx, leaf);
      forall key | key in Contents(t) && Prefix(places[n].path, Nibs(key)) ensures Nodes()[leaf].key <= key {
        LeastOf(t, n, idx, leaf, key);
      }
    }

    method LongestCommonPrefix(l1: U64, l2: U64, depth: nat) returns (idx: nat)
      requires depth <= WORT_MAX_HEIGHT
      ensures idx == Shared(Nibs(l1), Nibs(l2), depth)
    {
      hide Nibs;
      var maxCmp := WORT_MAX_HEIGHT - depth;
      idx := 0;
      while idx < maxCmp
        invariant idx <= maxCmp && forall i | depth <= i < depth + idx :: Nibs(l1)[i] == Nibs(l2)[i]
      {
        if GetIndex(l1, depth + idx) != GetIndex(l2, depth + idx) {
          return;
        }
        idx := idx + 1;
      }
    }

    /** The least leaves of the first two children. */
    method TwoLeaves(n: Addr) returns (leaf0: Addr, leaf1: Addr)
      requires Valid() && n in places && n in Nodes() && Nodes()[n].Inner?
      ensures Under(Model(), n, leaf0) && Under(Model(), n, leaf1) && |places[n].full| < WORT_MAX_HEIGHT
      ensures Nibs(Nodes()[leaf0].key)[|places[n].full|] != Nibs(Nodes()[leaf1].key)[|places[n].full|]
    {
      hide TreeOk;
      hide CellOk;
      hide Nibs;
      ghost var t := Model();
      SomeChild(t, n);
      ghost var c: Nibble, c': Nibble :| c != c' && Nodes()[n].children[c] != NULL && Nodes()[n].children[c'] != NULL;
      var cnt, pos := 0, 0;
      leaf0, leaf1 := NULL, NULL;
      while pos < WORT_NUM_NODE_ENTRIES
        invariant pos <= WORT_NUM_NODE_ENTRIES && cnt <= 1
        invariant cnt == 0 ==> forall x: Nibble | x < pos :: Nodes()[n].children[x] == NULL
        invariant cnt == 1 ==> Under(t, n, leaf0) && |places[n].full| < WORT_MAX_HEIGHT && Nibs(Nodes()[leaf0].key)[|places[n].full|] < pos
        invariant cnt == 1 ==> forall x: Nibble | x < pos && x != Nibs(Nodes()[leaf0].key)[|places[n].full|] :: Nodes()[n].children[x] == NULL
      {
        if Nodes()[n].children[pos] != NULL {
          Deeper(t, n, pos);
          var leaf := Minimum(Nodes()[n].children[pos]);
          UnderChild(t, n, pos, leaf);
          if cnt == 1 {
            leaf1 := leaf;
            return;
          }
          leaf0, cnt := leaf, 1;
        }
        pos := pos + 1;
      }
    }

    method NibblesFrom(key: U64, from: nat, count: nat) returns (nibbles: seq<Nibble>)
      requires from + count <= WORT_MAX_HEIGHT
      ensures nibbles == Nibs(key)[from..from + count]
    {
      hide Nibs;
      nibbles := [];
      for i := 0 to count
        invariant nibbles == Nibs(key)[from..from + i]
      {
        assert Nibs(key)[from..from + i + 1] == Nibs(key)[from..from + i] + [Nibs(key)[from + i]];
        nibbles := nibbles + [GetIndex(key, from + i)];
      }
    }

    /** A node's header, rebuilt from two leaves that part in it. */
    method Rebuild(n: Addr, depth: nat) returns (h: Header)
      requires Valid() && n in places && n in Nodes() && Nodes()[n].Inner? && depth == |places[n].path| <= |places[n].full|
      ensures h == TrueHeader(places[n])
    {
      hide TreeOk;
      hide CellOk;
      hide Nibs;
      var leaf0, leaf1 := TwoLeaves(n);
      SomeChild(Model(), n);
      PartAfter(Nibs(Nodes()[leaf0].key), Nibs(Nodes()[leaf1].key), places[n].full, depth);
      var prefixDiff := LongestCommonPrefix(Nodes()[leaf0].key, Nodes()[leaf1].key, depth);
      var nibbles := NibblesFrom(Nodes()[leaf1].key, depth, Min(WORT_MAX_PREFIX_LEN, prefixDiff));
      SpelledOut(places[n], Nibs(Nodes()[leaf1].key));
      h := Header(depth, prefixDiff, nibbles);
    }

    /** wort_get: the map's answer, whatever headers a crash left behind. */
    method Get(key: U64) returns (value: Option<U64>)
      requires Valid()
      ensures value == Lookup(Contents(Model()), key)
    {
      hide TreeOk;
      hide CellOk;
      hide Nibs;
      hide Contents;
      hide Has;
      ghost var t := Model();
      var n, depth := Root(), 0;
      AtRoot(t);
      while n != NULL
        invariant n == NULL ==> !Has(t, key)
        invariant n != NULL ==> n in places && n in Nodes() && depth == |places[n].path| <= WORT_MAX_HEIGHT
        invariant n != NULL ==> Has(t, key) ==> Prefix(places[n].path, Nibs(key))
        decreases if n == NULL then 0 else WORT_MAX_HEIGHT + 1 - depth
      {
        if Nodes()[n].Leaf? {
          if Nodes()[n].key == key {
            AtLeaf(t, n, key);
            return Some(Nodes()[n].value);
          }
          OtherLeaf(t, n, key);
          NotHas(t, key);
          return None;
        }
        SomeChild(t, n);
        HeaderRight(t, n);
        var h := Nodes()[n].header;
        if h.depth != depth {
          h := Rebuild(n, depth);
        }
        if h.len != 0 {
          var prefixLen := CheckPrefix(h, key, depth);
          if prefixLen != Min(WORT_MAX_PREFIX_LEN, h.len) {
            Mismatch(t, n, key, prefixLen);
            NotHas(t, key);
            return None;
          }
          depth := depth + h.len;
        }
        OnTheWay(t, n, key);
        var child := Nodes()[n].children[GetIndex(key, depth)];
        if child == NULL {
          NoChild(t, n, key);
        } else {
          Deeper(t, n, GetIndex(key, depth));
        }
        n, depth := child, depth + 1;
      }
      NotHas(t, key);
      return None;
    }

    /** The first nibble from depth on where the key leaves a node's prefix, seen through a leaf if the prefix is long. */
    method PrefixMismatch(n: Addr, key: U64, depth: nat) returns (idx: nat, l: Addr)
      requires Valid() && n in places && n in Nodes() && Nodes()[n].Inner? && Prefix(places[n].path, places[n].full)
      requires Nodes()[n].header == TrueHeader(places[n]) && depth == |places[n].path| && Prefix(places[n].path, Nibs(key))
      requires |places[n].full| <= WORT_MAX_DEPTH
      ensures l != NULL ==> Under(Model(), n, l)
      ensures idx >= Nodes()[n].header.len ==> Prefix(places[n].full, Nibs(key))
      ensures idx < Nodes()[n].header.len ==> depth + idx < |places[n].full| && Nibs(key)[..depth + idx] == places[n].full[..depth + idx]
      ensures idx < Nodes()[n].header.len ==> Nibs(key)[depth + idx] != places[n].full[depth + idx]
    {
      hide TreeOk;
      hide Nibs;
      hide Contents;
      var h := Nodes()[n].header;
      ghost var full := places[n].full;
      PrefixAt(places[n].path, full);
      PrefixAt(places[n].path, Nibs(key));
      var maxCmp := Min(Min(WORT_MAX_PREFIX_LEN, h.len), WORT_MAX_HEIGHT - depth);
      idx, l := 0, NULL;
      while idx < maxCmp
        invariant idx <= maxCmp && forall i | 0 <= i < depth + idx :: full[i] == Nibs(key)[i]
      {
        assert h.nibbles[idx] == full[depth + idx];
        if h.nibbles[idx] != GetIndex(key, depth + idx) {
          return;
        }
        idx := idx + 1;
      }
      if h.len > WORT_MAX_PREFIX_LEN {
        l := Minimum(n);
        ghost var below := Nibs(Nodes()[l].key);
        PrefixAt(full, below);
        maxCmp := WORT_MAX_HEIGHT - depth;
        while idx < maxCmp
          invariant idx <= maxCmp && forall i | 0 <= i < depth + idx :: below[i] == Nibs(key)[i]
        {
          if GetIndex(Nodes()[l].key, idx + depth) != GetIndex(key, depth + idx) {
            return;
          }
          idx := idx + 1;
        }
      }
    }

    // ----- stores -----

    /** A new cell; nothing points to it yet. */
    method Alloc(cell: Cell) returns (a: Addr)
      modifies this`log, this`nextAddress
      ensures a == old(nextAddress) && nextAddress == a + 1 && log == old(log) + [Write(NewCell(a, cell))]
    {
      a := nextAddress;
      log, nextAddress := log + [Write(NewCell(a, cell))], nextAddress + 1;
    }

    /** mfence, after what was stored before has been flushed */
    method Fence()
      modifies this`log
      ensures log == old(log) + [Event.Fence]
    {
      log := log + [Event.Fence];
    }

    /** *ref = a */
    method StoreRef(ref: Ref, a: Addr)
      modifies this`log
      ensures log == old(log) + [Write(RefStore(ref, a))]
    {
      match ref {
        case RootRef => log := log + [Write(SetRoot(a))];
        case ChildRef(p, c) => log := log + [Write(SetChild(p, c, a))];
      }
    }

    /** A node's header is one word, stored at once. */
    method StoreHeader(n: Addr, h: Header)
      modifies this`log
      ensures log == old(log) + [Write(SetHeader(n, h))]
    {
      log := log + [Write(SetHeader(n, h))];
    }

    method StoreValue(leaf: Addr, value: U64)
      modifies this`log
      ensures log == old(log) + [Write(SetValue(leaf, value))]
    {
      log := log + [Write(SetValue(leaf, value))];
    }

    // ----- updates -----

    /** make_leaf with its flush */
    method MakeLeaf(key: U64, value: U64) returns (b: Addr)
      requires Valid()
      modifies this`log, this`nextAddress
      ensures Valid() && SameContents(old(Model()), Model()) && b != NULL && b !in old(Nodes())
      ensures Read(base, log) == Stored(Read(base, old(log)), NewCell(b, Leaf(key, value)))
      ensures CrashSafe(base, old(log), log, old(Model()), key, value)
    {
      hide TreeOk;
      hide Contents;
      hide CrashSafe;
      NoNull(Model());
      ghost var l0 := log;
      b := Alloc(Leaf(key, value));
      Fence();
      assert log == l0 + [Write(NewCell(b, Leaf(key, value))), Event.Fence];
      CellWritten(base, l0, b, Leaf(key, value), places, key, value);
      Allocated(TreeOf(Read(base, l0), places), b, Leaf(key, value));
    }

    /** recovery_prefix: a stale header is replaced by the right one, whatever it says. */
    method RecoveryPrefix(n: Addr, depth: nat, ghost key: U64, ghost value: U64)
      requires Valid() && n in places && n in Nodes() && Nodes()[n].Inner? && depth == |places[n].path| <= |places[n].full|
      modifies this`log
      ensures Valid() && SameContents(old(Model()), Model())
      ensures n in Nodes() && Model() == WithHeader(old(Model()), n, TrueHeader(places[n]))
      ensures CrashSafe(base, old(log), log, old(Model()), key, value)
    {
      hide TreeOk;
      hide Contents;
      hide Nibs;
      hide CrashSafe;
      ghost var t, l0 := Model(), log;
      InNodes(t, n);
      var h := Rebuild(n, depth);
      HeaderSet(t, n, h);
      StoreHeader(n, h);
      Fence();
      assert log == l0 + [Write(SetHeader(n, h)), Event.Fence];
      StoresAre(Read(base, l0), places, RootRef, NULL, n, h);
      SameItself(t);
      SameRecovers(t, Read(base, l0), places, key, value);
      SameRecovers(t, Stored(Read(base, l0), SetHeader(n, h)), places, key, value);
      WordStored(base, l0, SetHeader(n, h), t, key, value);
    }

    /** A new node with header h, above cell n and a new leaf, ready to be linked. */
    method BuildFork(ghost ref: Ref, n: Addr, h: Header, c: Nibble, key: U64, value: U64, f: nat) returns (x: Addr, b: Addr)
      requires Valid() && PartsAt(Model(), ref, n, key, f) && c == places[n].full[f]
      requires h == TrueHeader(Place(places[n].path, places[n].full[..f]))
      modifies this`log, this`nextAddress
      ensures Valid() && SameContents(old(Model()), Model()) && CanFork(Model(), ref, n, x, b, key, value, f)
      ensures Model() == WithFork(old(Model()), n, x, b, key, value, f)
      ensures CrashSafe(base, old(log), log, old(Model()), key, value)
    {
      hide TreeOk;
      hide Nibs;
      hide Contents;
      hide CanFork;
      hide RefTo;
      hide CrashSafe;
      ghost var t, l0 := Model(), log;
      NoNull(t);
      assert nextAddress !in Nodes() && nextAddress + 1 !in Nodes();
      assert Nodes() == Read(base, l0).nodes;
      var cell := Inner(h, Fork(c, n, GetIndex(key, f), nextAddress));
      b := Alloc(Leaf(key, value));
      x := Alloc(cell);
      Fence();
      assert log == l0 + [Write(NewCell(b, Leaf(key, value))), Write(NewCell(x, cell)), Event.Fence];
      CellsWritten(base, l0, b, Leaf(key, value), x, cell, places, key, value);
      Prepared(t, ref, n, x, b, key, value, f);
    }

    /** A leaf gives way to a node above it and the new leaf. */
    method SplitLeaf(n: Addr, ref: Ref, key: U64, value: U64, depth: nat)
      requires Valid() && n in places && n in Nodes() && Nodes()[n].Leaf? && Nodes()[n].key != key && RefTo(Model(), ref, n)
      requires depth == |places[n].path| && Prefix(places[n].path, Nibs(key))
      modifies this
      ensures Valid() && Updated(old(Model()), Model(), key, value) && size == old(size)
      ensures CrashSafe(base, old(log), log, old(Model()), key, value)
    {
      hide TreeOk;
      hide Nibs;
      hide Contents;
      hide RefTo;
      hide CrashSafe;
      ghost var t, l0 := Model(), log;
      InNodes(t, n);
      hide CellOk;
      var l := Nodes()[n].key;
      var longestPrefix := LongestCommonPrefix(l, key, depth);
      ghost var f := depth + longestPrefix;
      LeafParts(t, ref, n, key, f);
      var nibbles := NibblesFrom(key, depth, Min(WORT_MAX_PREFIX_LEN, longestPrefix));
      SpelledOut(Place(places[n].path, places[n].full[..f]), Nibs(key));
      var x, b := BuildFork(ref, n, Header(depth, longestPrefix, nibbles), GetIndex(l, depth + longestPrefix), key, value, depth + longestPrefix);
      ghost var t1 := Model();
      ForkAdded(t1, ref, n, x, b, key, value, f);
      RefSlot(t1, ref, n);
      LinkNew(ref, x, ForkPlaces(places, n, x, b, key, f), l0, t, key, value);
    }

    /** A pointer to new cells is stored and made durable: the last step of an insertion. */
    method LinkNew(ref: Ref, x: Addr, ghost newPlaces: map<Addr, Place>, ghost from: seq<Event<Store>>, ghost t: Tree, ghost key: U64, ghost value: U64)
      requires Valid() && SameContents(t, Model()) && CrashSafe(base, from, log, t, key, value)
      requires Updated(Model(), Linked(Model(), ref, x).(places := newPlaces), key, value)
      requires Linked(Model(), ref, x).nodes.Keys == Nodes().Keys
      modifies this`log, this`places
      ensures Valid() && Model() == Linked(old(Model()), ref, x).(places := newPlaces) && Updated(t, Model(), key, value)
      ensures CrashSafe(base, from, log, t, key, value)
    {
      hide TreeOk;
      hide Contents;
      hide CrashSafe;
      ghost var t1, l1, m1 := Model(), log, Read(base, log);
      StoreRef(ref, x);
      Fence();
      assert log == l1 + [Write(RefStore(ref, x)), Event.Fence];
      StoresAre(m1, places, ref, x, NULL, Header(0, 0, []));
      SameRecovers(t, m1, places, key, value);
      UpdatedAfter(t, t1, TreeOf(Stored(m1, RefStore(ref, x)), newPlaces), key, value);
      UpdatedRecovers(t, Stored(m1, RefStore(ref, x)), newPlaces, key, value);
      WordStored(base, l1, RefStore(ref, x), t, key, value);
      SafeTrans(base, from, l1, log, t, key, value);
      places := newPlaces;
    }

    /** The nibble that leads to a node below its split prefix, and the header for the rest of the prefix. */
    method LowerPart(n: Addr, depth: nat, prefixDiff: nat, l: Addr) returns (c: Nibble, tempPath: Header)
      requires Valid() && n in places && n in Nodes() && Nodes()[n].Inner? && Prefix(places[n].path, places[n].full)
      requires depth == |places[n].path| && depth + prefixDiff < |places[n].full| <= WORT_MAX_HEIGHT
      requires Nodes()[n].header == TrueHeader(places[n]) && (l != NULL ==> Under(Model(), n, l))
      ensures c == places[n].full[depth + prefixDiff]
      ensures tempPath == TrueHeader(Place(places[n].full[..depth + prefixDiff + 1], places[n].full))
    {
      hide TreeOk;
      hide Nibs;
      hide Contents;
      var h := Nodes()[n].header;
      ghost var p, f := places[n], depth + prefixDiff;
      if h.len <= WORT_MAX_PREFIX_LEN {
        c := h.nibbles[prefixDiff];
        tempPath := Header(depth + prefixDiff + 1, h.len - (prefixDiff + 1), h.nibbles[prefixDiff + 1..]);
        LowerHeader(p, f);
      } else {
        var l' := l;
        if l' == NULL {
          l' := Minimum(n);
        }
        SpelledOut(Place(p.full[..f + 1], p.full), Nibs(Nodes()[l'].key));
        c := GetIndex(Nodes()[l'].key, depth + prefixDiff);
        var len := h.len - (prefixDiff + 1);
        var nibbles := NibblesFrom(Nodes()[l'].key, depth + prefixDiff + 1, Min(WORT_MAX_PREFIX_LEN, len));
        tempPath := Header(depth + prefixDiff + 1, len, nibbles);
      }
    }

    /**
     A node whose prefix the key leaves gives way to a node above it and the new leaf, and loses the upper part
     of its prefix. The two stores reach memory in either order.
     */
    method SplitPrefix(n: Addr, ref: Ref, key: U64, value: U64, depth: nat, prefixDiff: nat, l: Addr)
      requires Valid() && PartsAt(Model(), ref, n, key, depth + prefixDiff) && Nodes()[n].Inner? && depth == |places[n].path|
      requires Nodes()[n].header == TrueHeader(places[n]) && (l != NULL ==> Under(Model(), n, l))
      modifies this
      ensures Valid() && Updated(old(Model()), Model(), key, value) && size == old(size)
      ensures CrashSafe(base, old(log), log, old(Model()), key, value)
    {
      hide TreeOk;
      hide Nibs;
      hide Contents;
      hide RefTo;
      hide CrashSafe;
      ghost var t, l0 := Model(), log;
      InNodes(t, n);
      hide CellOk;
      var h := Nodes()[n].header;
      ghost var p, f := places[n], depth + prefixDiff;
      var c, tempPath := LowerPart(n, depth, prefixDiff, l);
      UpperHeader(p, f);
      var upper := Header(depth, prefixDiff, h.nibbles[..Min(WORT_MAX_PREFIX_LEN, prefixDiff)]);
      var x, b := BuildFork(ref, n, upper, c, key, value, depth + prefixDiff);
      ghost var t1, l1 := Model(), log;
      RefSlot(t1, ref, n);
      StorePair(ref, n, x, b, key, value, f, tempPath);
      AllAfter(t, t1, key, value);
      SafeAfter(base, l1, log, t, t1, key, value);
      SafeTrans(base, l0, l1, log, t, key, value);
    }

    /** *ref = new_node and the old node's header, flushed together: a crash may keep either one alone. */
    method StorePair(ref: Ref, n: Addr, x: Addr, ghost b: Addr, ghost key: U64, ghost value: U64, ghost f: nat, h: Header)
      requires Valid() && CanFork(Model(), ref, n, x, b, key, value, f) && n in Nodes() && Nodes()[n].Inner?
      requires h == TrueHeader(Place(places[n].full[..f + 1], places[n].full))
      requires ref.ChildRef? ==> ref.parent in Nodes() && Nodes()[ref.parent].Inner? && |Nodes()[ref.parent].children| == WORT_NUM_NODE_ENTRIES
      modifies this`log, this`places
      ensures Valid() && Updated(old(Model()), Model(), key, value)
      ensures CrashSafe(base, old(log), log, old(Model()), key, value)
    {
      hide TreeOk;
      hide CellOk;
      hide Nibs;
      hide Contents;
      hide CrashSafe;
      ghost var t, l0, m, newPlaces := Model(), log, Read(base, log), ForkPlaces(places, n, x, b, key, f);
      SplitCrash(t, ref, n, x, b, key, value, f, h);
      ForkedAt(t, ref, n, x, b, key, value, f);
      hide CanFork;
      StoreRef(ref, x);
      StoreHeader(n, h);
      Fence();
      assert log == l0 + [Write(RefStore(ref, x)), Write(SetHeader(n, h)), Event.Fence];
      ghost var linked := Stored(m, RefStore(ref, x));
      StoresAre(m, places, ref, x, n, h);
      StoresAre(m, newPlaces, ref, x, n, h);
      StoresAre(linked, newPlaces, ref, x, n, h);
      SameItself(t);
      SameRecovers(t, m, places, key, value);
      SameRecovers(t, Stored(m, SetHeader(n, h)), places, key, value);
      UpdatedRecovers(t, linked, newPlaces, key, value);
      UpdatedRecovers(t, Stored(linked, SetHeader(n, h)), newPlaces, key, value);
      WordsStored(base, l0, RefStore(ref, x), SetHeader(n, h), t, key, value);
      places := newPlaces;
    }

    /** A new leaf in an empty child slot. */
    method AddLeaf(n: Addr, key: U64, value: U64, c: Nibble)
      requires Valid() && n in places && n in Nodes() && Nodes()[n].Inner? && |Nodes()[n].children| == WORT_NUM_NODE_ENTRIES
      requires Prefix(places[n].full, Nibs(key)) && |places[n].full| < WORT_MAX_HEIGHT
      requires c == Nibs(key)[|places[n].full|] && Nodes()[n].children[c] == NULL
      modifies this
      ensures Valid() && Updated(old(Model()), Model(), key, value) && size == old(size)
      ensures CrashSafe(base, old(log), log, old(Model()), key, value)
    {
      hide TreeOk;
      hide Nibs;
      hide Contents;
      hide CrashSafe;
      ghost var t, l0 := Model(), log;
      var b := MakeLeaf(key, value);
      ghost var t1 := Model();
      InNodes(t1, n);
      NotPlaced(t, b);
      LeafAdded(t1, n, b, key, value);
      LinkNew(ChildRef(n, c), b, places[b := Place(places[n].full + [c], Nibs(key))], l0, t, key, value);
    }

    /** recursive_insert, below the pointer ref to cell n. Returns the value it replaced. */
    method RecursiveInsert(n: Addr, ref: Ref, key: U64, value: U64, depth: nat) returns (oldValue: Option<U64>)
      requires Valid() && (n == NULL ==> ref == RootRef && Root() == NULL)
      requires n != NULL ==> n in places && RefTo(Model(), ref, n) && depth == |places[n].path| && Prefix(places[n].path, Nibs(key))
      modifies this
      ensures Valid() && Updated(old(Model()), Model(), key, value) && size == old(size)
      ensures oldValue == Lookup(old(Contents(Model())), key)
      ensures CrashSafe(base, old(log), log, old(Model()), key, value)
      decreases WORT_MAX_HEIGHT + 1 - depth
    {
      hide TreeOk;
      hide Nibs;
      hide Contents;
      hide CrashSafe;
      ghost var t, l0 := Model(), log;
      AtRoot(t);
      if n == NULL {
        NotHas(t, key);
        var b := MakeLeaf(key, value);
        RootAdded(Model(), b, key, value);
        LinkNew(RootRef, b, map[b := Place([], Nibs(key))], l0, t, key, value);
        return None;
      }
      InNodes(t, n);
      if Nodes()[n].Leaf? {
        if Nodes()[n].key == key {
          oldValue := Some(Nodes()[n].value);
          AtLeaf(t, n, key);
          SetLeaf(n, key, value);
        } else {
          OtherLeaf(t, n, key);
          NotHas(t, key);
          oldValue := None;
          SplitLeaf(n, ref, key, value, depth);
        }
        return;
      }
      if Nodes()[n].header.depth != depth {
        RecoveryPrefix(n, depth, key, value);
      } else {
        SafeNowHere(t, key, value);
      }
      ghost var l1, t1 := log, Model();
      oldValue := InsertBelow(n, ref, key, value, depth);
      SafeAfter(base, l1, log, t, t1, key, value);
      SafeTrans(base, l0, l1, log, t, key, value);
      UpdatedAfter(t, t1, Model(), key, value);
    }

    /** The value of a leaf that is there. */
    method SetLeaf(n: Addr, key: U64, value: U64)
      requires Valid() && n in places && n in Nodes() && Nodes()[n].Leaf? && Nodes()[n].key == key
      modifies this`log
      ensures Valid() && Updated(old(Model()), Model(), key, value)
      ensures CrashSafe(base, old(log), log, old(Model()), key, value)
    {
      hide TreeOk;
      hide Nibs;
      hide Contents;
      hide CrashSafe;
      ghost var t, l0, m := Model(), log, Read(base, log);
      ValueSet(t, n, key, value);
      StoreValue(n, value);
      Fence();
      assert log == l0 + [Write(SetValue(n, value)), Event.Fence];
      SameItself(t);
      SameRecovers(t, m, places, key, value);
      UpdatedRecovers(t, Stored(m, SetValue(n, value)), places, key, value);
      WordStored(base, l0, SetValue(n, value), t, key, value);
    }

    lemma SafeNowHere(t: Tree, key: U64, value: U64)
      requires Valid() && t == Model()
      ensures CrashSafe(base, log, log, t, key, value) && SameContents(t, t)
    {
      hide TreeOk;
      hide Contents;
      hide CrashSafe;
      SameItself(t);
      SameRecovers(t, Read(base, log), places, key, value);
      SafeNow(base, log, t, key, value);
    }

    /** The part of recursive_insert for a node, whose header is right by now. */
    method InsertBelow(n: Addr, ref: Ref, key: U64, value: U64, depth: nat) returns (oldValue: Option<U64>)
      requires Valid() && n in places && n in Nodes() && Nodes()[n].Inner? && RefTo(Model(), ref, n)
      requires depth == |places[n].path| && Prefix(places[n].path, Nibs(key)) && Prefix(places[n].path, places[n].full)
      requires Nodes()[n].header == TrueHeader(places[n])
      modifies this
      ensures Valid() && Updated(old(Model()), Model(), key, value) && size == old(size)
      ensures oldValue == Lookup(old(Contents(Model())), key)
      ensures CrashSafe(base, old(log), log, old(Model()), key, value)
      decreases WORT_MAX_HEIGHT + 1 - depth, 0
    {
      hide TreeOk;
      hide Nibs;
      hide Contents;
      ghost var t := Model();
      SomeChild(t, n);
      var depth' := depth;
      if Nodes()[n].header.len != 0 {
        var prefixDiff, l := PrefixMismatch(n, key, depth);
        if prefixDiff < Nodes()[n].header.len {
          Elsewhere(t, n, key, depth + prefixDiff);
          NotHas(t, key);
          oldValue := None;
          SplitPrefix(n, ref, key, value, depth, prefixDiff, l);
          return;
        }
        depth' := depth + Nodes()[n].header.len;
      } else {
        assert places[n].path == places[n].full;
      }
      OnTheWay(t, n, key);
      var c := GetIndex(key, depth');
      var child := Nodes()[n].children[c];
      if child != NULL {
        Deeper(t, n, c);
        ChildPlaced(t, n, c);
        PrefixNext(places[n].full, Nibs(key));
        oldValue := RecursiveInsert(child, ChildRef(n, c), key, value, depth' + 1);
      } else {
        NoChild(t, n, key);
        NotHas(t, key);
        oldValue := None;
        AddLeaf(n, key, value, c);
      }
    }

    /**
     wort_put: the map changes in one key. Whatever a crash leaves, at any time from the call on, is a tree for the map before or
     after it.
     */
    method Put(key: U64, value: U64) returns (oldValue: Option<U64>)
      requires Valid()
      modifies this
      ensures Valid() && Contents(Model()) == old(Contents(Model()))[key := value]
      ensures oldValue == Lookup(old(Contents(Model())), key)
      ensures size - |Contents(Model())| == old(size - |Contents(Model())|)
      ensures old(log) <= log
      ensures forall k, im | |old(log)| <= k <= |log| && MayLeave(Stored, Parts, base, log[..k], im) :: Recovers(old(Model()), im, key, value)
    {
      hide TreeOk;
      hide Nibs;
      hide Contents;
      hide Recovers;
      AtRoot(Model());
      hide CrashSafe;
      hide MayLeave;
      ghost var t, l0 := Model(), log;
      oldValue := RecursiveInsert(Root(), RootRef, key, value, 0);
      SafeMeans(base, l0, log, t, key, value);
      if oldValue == None {
        size := size + 1;
      }
      Grows(Contents(t), key, value);
    }

    /** wort_all_subtree_kv from a cell: appends its leaves to a result, in key order. */
    method AllSubtree(n: Addr, acc: seq<(U64, U64)>) returns (res: seq<(U64, U64)>)
      requires Valid() && (n != NULL ==> n in places)
      ensures n == NULL ==> res == acc
      ensures acc <= res
      ensures n != NULL ==> Lists(Model(), places[n].path, res[|acc|..])
      decreases if n == NULL then 0 else WORT_MAX_HEIGHT + 1 - |places[n].path|
    {
      hide TreeOk;
      hide Nibs;
      hide Contents;
      hide Lists;
      hide ListsUpTo;
      if n == NULL {
        return acc;
      }
      ghost var t := Model();
      InNodes(t, n);
      res := acc;
      if Nodes()[n].Leaf? {
        ListsLeaf(t, n);
        res := res + [(Nodes()[n].key, Nodes()[n].value)];
        assert res[|acc|..] == [(Nodes()[n].key, Nodes()[n].value)];
      } else {
        SomeChild(t, n);
        ListsNone(t, places[n].full);
        ghost var got := [];
        for i := 0 to WORT_NUM_NODE_ENTRIES
          invariant res == acc + got && ListsUpTo(t, places[n].full, i, got)
        {
          var child := Nodes()[n].children[i];
          ghost var before := res;
          if child != NULL {
            Deeper(t, n, i);
          }
          res := AllSubtree(child, res);
          ghost var more := res[|before|..];
          ListsNext(t, n, i, got, more);
          Appended(acc, got, before, res);
          got := got + more;
        }
        ListsAll(t, n, got);
      }
    }
  }

  lemma {:induction false} AboveAll(s: set<Addr>) returns (next: Addr)
    ensures next > NULL && forall a | a in s :: a < next
  {
    next := 1;
    if s != {} {
      var b :| b in s;
      next := AboveAll(s - {b});
      assert forall a | a in s :: a == b || a in s - {b};
      next := if b < next then next else b + 1;
    }
  }

  /** Whatever a crash inside put leaves can be reopened. */
  lemma ImageReopens(before: Tree, im: Memory, key: U64, value: U64) returns (places: map<Addr, Place>, nextAddress: Addr)
    requires Recovers(before, im, key, value)
    ensures BeforeOrAfter(before, Tree(im.root, im.nodes, places), key, value) && nextAddress > NULL && forall a | a in im.nodes :: a < nextAddress
  {
    hide TreeOk;
    hide Contents;
    places :| BeforeOrAfter(before, TreeOf(im, places), key, value);
    nextAddress := AboveAll(im.nodes.Keys);
  }
}
