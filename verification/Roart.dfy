/**
 roart.cpp and the node operations it uses, one operation at a time: the restart loops and lock words are the
 subject of VersionLocks. An adaptive radix tree with lazy removal in Nodes() and path compression that edits
 prefixes after the pointers.
 */
module Roarts {
  import opened Bits
  import opened Options
  import opened Addresses
  import opened Prefixes
  import opened Stores
  import opened RoartKeys
  import opened RoartLayouts
  import opened RoartModel
  import opened RoartPrefixes
  import opened RoartStates
  import opened RoartStores
  import opened RoartLookups
  import opened RoartCollisions

  datatype RemoveResult = Success | NotFound | Stopped

  class Roart {
    const root: Addr
    const base: Memory                 // memory when the tree was opened
    var log: seq<Event<Store>>         // all stores and fences since; memory is what they make of it
    var nextAddress: Addr
    ghost var places: map<Addr, Place>

    function Nodes(): Memory
      reads this`log
    {
      Read(base, log)
    }

    ghost function Model(): Tree
      reads this
    {
      Tree(root, Nodes(), places)
    }

    /** A tree, and all stores are durable. */
    ghost predicate Valid()
      reads this
    {
      TreeOk(Model()) && Durable(log) && nextAddress > NULL && forall a | a in Nodes() :: a < nextAddress
    }

    constructor ()
      ensures Valid() && Contents(Model()) == map[] && Clean(Model()) && Quiet(Model())
    {
      hide Bytes;
      var l := Empty(256);
      assert Live(l) == {};
      root, base, log, nextAddress := 1, map[1 := Node(0, NodePrefix(0, []), l)], [], 2;
      places := map[1 := Place([], [])];
    }

    /** Memory as a crash left it, used as it is: nothing is repaired up front. */
    constructor Reopen(root: Addr, nodes: Memory, nextAddress: Addr, ghost places: map<Addr, Place>)
      requires TreeOk(Tree(root, nodes, places)) && nextAddress > NULL && forall a | a in nodes :: a < nextAddress
      ensures Valid() && Model() == Tree(root, nodes, places)
    {
      hide TreeOk;
      this.root, base, log, this.nextAddress := root, nodes, [], nextAddress;
      this.places := places;
    }

    // ----- reading -----

    /**
     ROART::get, on any memory in which what it reads is in order. In a well-formed tree a present key is found exactly if no node
     on its way turns it away, and an absent one finds something exactly if the bytes on the way to a leaf spell it.
     */
    method Get(key: U64) returns (value: Option<U64>)
      requires Valid() || WalkOk(Nodes(), key, root, 0)
      ensures value == Answer(Model(), key)
      ensures Valid() && key in Contents(Model()) ==> value == if Turned(Model(), key) then None else Some(Contents(Model())[key])
      ensures Valid() && key !in Contents(Model()) ==> (value == None <==> forall l :: !Spells(Model(), l, key))
      ensures Valid() && Honest(Model()) ==> value == Lookup(Contents(Model()), key)
    {
      hide TreeOk;
      hide Contents;
      hide Bytes;
      hide StoredMismatch;
      hide Shaped;
      hide Turned;
      hide Spells;
      hide Honest;
      if Valid() {
        RootBlind(Model());
        Root(Model());
        TreeWalks(Model(), key, root);
        AnswerExactly(Model(), key);
        if Honest(Model()) { HonestAnswers(Model(), key); }
      }
      var fkey := Fkey(key);
      var node, level: nat, optimisticPrefixMatch := root, 0, false;
      while true
        invariant WalkOk(Nodes(), key, node, level) && Answer(Model(), key) == AnswerFrom(Nodes(), key, node, level, optimisticPrefixMatch)
        decreases KEY_LEN - level
      {
        var result, next := CheckPrefix(Nodes()[node].prefix, Nodes()[node].level, fkey, level);
        if result == NoMatch {
          return None;
        } else if result == OptimisticMatch {
          optimisticPrefixMatch := true;
        }
        level := next;
        var child := GetChild(Nodes()[node].layout, fkey[level]);
        if child == NULL {
          return None;
        }
        if Nodes()[child].Leaf? {
          if level < KEY_LEN - 1 || optimisticPrefixMatch {
            if Nodes()[child].key != key {
              return None;
            }
          }
          return Some(Nodes()[child].value);
        }
        node, level := child, level + 1;
      }
    }

    /** A node's prefix against a key: keys below it are turned away exactly if it turns its keys away. */
    method CheckNode(n: Addr, key: U64, fkey: seq<Byte>, level: nat) returns (result: PrefixResult, nextLevel: nat)
      requires Valid() && n in places && n in Nodes() && Nodes()[n].Node? && level == |places[n].path| && fkey == Bytes(key)
      ensures Prefix(places[n].full, fkey) ==> (result == NoMatch <==> TurnsAway(Nodes()[n].prefix, places[n]))
      ensures result != NoMatch ==> nextLevel == |places[n].full|
      ensures result == Match && Prefix(places[n].path, fkey) && !TurnsAway(Nodes()[n].prefix, places[n]) ==> Prefix(places[n].full, fkey)
    {
      hide TreeOk;
      hide Bytes;
      hide Kid;
      hide TurnsAway;
      ghost var t, p, full := Model(), Nodes()[n].prefix, places[n].full;
      NodeAt(t, n);
      result, nextLevel := CheckPrefix(Nodes()[n].prefix, Nodes()[n].level, fkey, level);
      hide StoredMismatch;
      if p.prefixCount + level < |full| {
        ShortHonest(p, places[n]);
      } else if Prefix(full, fkey) {
        BelowMatches(p, places[n], fkey);
      }
      if result == Match && Prefix(places[n].path, fkey) && !TurnsAway(p, places[n]) {
        MatchMeans(p, places[n], fkey);
        assert fkey[..|full|] == fkey[..level] + fkey[level..|full|] == full[..level] + full[level..] == full;
      }
    }

    /** The walk of update and remove, down to a leaf: the node that holds it, and that node's parent. */
    method Descend(key: U64) returns (leaf: Addr, node: Addr, nodeKey: Byte, parentNode: Addr, parentKey: Byte)
      requires Valid()
      ensures leaf != NULL ==> IsParent(Model(), node, nodeKey, leaf) && leaf in places && leaf in Nodes() && Nodes()[leaf].Leaf?
      ensures leaf == NULL || Nodes()[leaf].key != key ==> key !in Contents(Model()) || Turned(Model(), key)
      ensures leaf != NULL && Nodes()[leaf].key == key ==> !Turned(Model(), key)
      ensures leaf != NULL && node != root ==> IsParent(Model(), parentNode, parentKey, node)
    {
      hide TreeOk;
      hide Contents;
      hide Bytes;
      hide Has;
      hide Kid;
      hide PrefixShaped;
      hide StoredMismatch;
      hide TurnsAway;
      hide Turned;
      hide FreeAbove;
      ghost var t := Model();
      Root(t);
      RootFree(t, key);
      var fkey := Fkey(key);
      var level: nat := 0;
      node, nodeKey, parentNode, parentKey := root, 0, NULL, 0;
      while true
        invariant node in places && node in Nodes() && Nodes()[node].Node? && level == |places[node].path|
        invariant Has(t, key) ==> Prefix(places[node].path, Bytes(key)) && FreeAbove(t, key, level)
        invariant node != root ==> IsParent(t, parentNode, parentKey, node)
        decreases KEY_LEN - level
      {
        NodeAt(t, node);
        Through(t, node, key);
        var result, next := CheckNode(node, key, fkey, level);
        if result == NoMatch {
          Missed(t, node, key);
          leaf := NULL;
          return;
        }
        if Has(t, key) { NextFree(t, node, key); }
        level := next;
        nodeKey := fkey[level];
        var nextNode := GetChild(Nodes()[node].layout, nodeKey);
        if nextNode == NULL {
          NotHas(t, key);
          leaf := NULL;
          return;
        }
        KidPlaced(t, node, nodeKey);
        InNodes(t, nextNode);
        if Nodes()[nextNode].Leaf? {
          LeafOfPlace(t, nextNode);
          leaf := nextNode;
          if Nodes()[leaf].key != key {
            OtherKey(t, leaf, key);
            NotHas(t, key);
          } else {
            LeafAnswers(t, leaf, key);
          }
          return;
        }
        NodeAt(t, nextNode);
        parentNode, parentKey, node, level := node, nodeKey, nextNode, level + 1;
      }
    }

    // ----- stores -----

    /** A store, flushed between fences */
    method Store(s: Store)
      modifies this`log
      ensures log == old(log) + [Write(s), Event.Fence]
    {
      log := log + [Write(s), Event.Fence];
    }

    method Alloc(cell: Cell) returns (a: Addr)
      requires Valid()
      modifies this`log, this`nextAddress
      ensures Valid() && a != NULL && a !in old(Nodes()) && Nodes() == old(Nodes())[a := cell] && NoWorse(old(Model()), Model())
      ensures a !in places && CrashSafe(base, old(log), log, Staying(old(Model())))
    {
      hide TreeOk;
      hide NoWorse;
      hide CrashSafe;
      a := nextAddress;
      NotPlaced(Model(), a);
      CellStored(base, log, root, places, a, cell);
      Store(StoreCell(a, cell));
      nextAddress := nextAddress + 1;
      NoWorseMeans(old(Model()), Model());
    }

    /** N::change */
    method ChangeChild(p: Addr, b: Byte, x: Addr)
      requires Valid() && p in places && p in Nodes() && Nodes()[p].Node? && Kid(Nodes()[p], b) != NULL && x != NULL
      modifies this`log
      ensures p in Nodes() && Nodes() == old(Nodes())[p := Nodes()[p]] && CellRepointed(old(Nodes())[p], Nodes()[p], b, x)
      ensures Fits(Nodes()[p], places[p], p == root) && Alike(old(Nodes())[p], Nodes()[p])
      ensures Durable(log) && CrashSafe(base, old(log), log, iset{old(Nodes()), Nodes()})
    {
      hide TreeOk;
      hide CrashSafe;
      NodeAt(Model(), p);
      var i, l := Change(Nodes()[p].layout, b, x);
      KindOfCapacity(Nodes()[p].layout, l);
      LayoutKept(Nodes()[p], l, b, x, places[p], p == root);
      WordStored(base, log, StoreChild(p, i, x));
      Store(StoreChild(p, i, x));
    }

    // ----- update -----

    /** ROART::update: a new leaf in place of the old one. */
    method Update(key: U64, value: U64) returns (found: bool)
      requires Valid()
      modifies this
      ensures Valid() && found == (key in old(Contents(Model())) && !old(Turned(Model(), key)))
      ensures Contents(Model()) == if found then old(Contents(Model()))[key := value] else old(Contents(Model()))
      ensures KeptRight(old(Model()), Model()) && (old(Quiet(Model())) ==> Quiet(Model())) && old(log) <= log
      ensures forall k, im | |old(log)| <= k <= |log| && MayLeave(AfterStore, Parts, base, log[..k], im) :: UpdateLeaves(old(Model()), im, key, value)
    {
      hide TreeOk;
      hide Contents;
      hide Bytes;
      hide Has;
      hide Kid;
      hide PrefixShaped;
      hide Turned;
      hide KeptRight;
      hide Quiet;
      hide CrashSafe;
      hide MayLeave;
      hide UpdateLeaves;
      hide Replay;
      ghost var t, l0 := Model(), log;
      var leaf, node, nodeKey, _, _ := Descend(key);
      if leaf == NULL || Nodes()[leaf].key != key {
        KeptSelf(t);
        SameItself(t);
        UpdateIn(t, t, key, value);
        SafeNow(base, log, Updating(t, key, value));
        UpdateEnds(t, l0, log, key, value);
        return false;
      }
      AtLeaf(t, leaf, key);
      Link(t, node, nodeKey, leaf);
      var newleaf := Alloc(Leaf(key, value));
      ghost var t1, l1 := Model(), log;
      ChangeChild(node, nodeKey, newleaf);
      LeafOfPlace(t1, leaf);
      LeafTwin(Leaf(key, Nodes()[leaf].value), Leaf(key, value));
      LeafMoved(t1, node, nodeKey, Nodes()[node], leaf, newleaf);
      places := (places - {leaf})[newleaf := places[leaf]];
      LeafSwapKept(t, Model(), node, leaf, newleaf);
      UpdateSafe(t, t1, Model(), l0, l1, log, key, value);
      return true;
    }

    /** An update in two steps: the new leaf, the pointer to it. */
    lemma UpdateSafe(t: Tree, t1: Tree, t2: Tree, l0: seq<Event<Store>>, l1: seq<Event<Store>>, l2: seq<Event<Store>>, key: U64, value: U64)
      requires t.root == t1.root == t2.root && NoWorse(t, t1) && UpdateImage(t, t2, key, value)
      requires CrashSafe(base, l0, l1, Staying(t)) && CrashSafe(base, l1, l2, iset{t1.nodes, t2.nodes})
      ensures l0 <= l2 && forall k, im | |l0| <= k <= |l2| && MayLeave(AfterStore, Parts, base, l2[..k], im) :: UpdateLeaves(t, im, key, value)
    {
      hide CrashSafe;
      hide MayLeave;
      hide NoWorse;
      hide UpdateImage;
      hide UpdateLeaves;
      hide Staying;
      hide Updating;
      StayingAll(t, key, value);
      assert t1 == Tree(t.root, t1.nodes, t1.places);
      StayIn(t, t1.nodes, t1.places);
      UpdateIn(t, t2, key, value);
      SafeMore(base, l0, l1, Staying(t), Updating(t, key, value));
      SafeWord(base, l0, l1, l2, t1.nodes, t2.nodes, Updating(t, key, value));
      UpdateEnds(t, l0, l2, key, value);
    }

    lemma UpdateEnds(t: Tree, l0: seq<Event<Store>>, l1: seq<Event<Store>>, key: U64, value: U64)
      requires CrashSafe(base, l0, l1, Updating(t, key, value))
      ensures l0 <= l1 && forall k, im | |l0| <= k <= |l1| && MayLeave(AfterStore, Parts, base, l1[..k], im) :: UpdateLeaves(t, im, key, value)
    {
      hide CrashSafe;
      hide UpdateLeaves;
      hide MayLeave;
      SafeMeans(base, l0, l1, Updating(t, key, value));
      forall k, im | |l0| <= k <= |l1| && MayLeave(AfterStore, Parts, base, l1[..k], im) ensures UpdateLeaves(t, im, key, value) {
        assert im in Updating(t, key, value);
      }
    }

    // ----- put -----

    /** getAnyChildTid: some leaf below a node. */
    method AnyLeafBelow(n: Addr) returns (leaf: Addr)
      requires Valid() && n in places && n in Nodes() && Nodes()[n].Node? && n != root
      ensures leaf in places && leaf in Nodes() && Nodes()[leaf].Leaf? && Prefix(places[n].full, Bytes(Nodes()[leaf].key))
    {
      hide TreeOk;
      hide Bytes;
      hide PrefixShaped;
      hide Kid;
      ghost var t := Model();
      var m := Nodes();
      var node := n;
      NodeAt(t, node);
      NonEmpty(t, node);
      PrefixWhole(places[n].full);
      while true
        invariant node in places && node in Nodes() && Nodes()[node].Node? && Prefix(places[n].full, places[node].full)
        invariant LayoutOk(Nodes()[node].layout) && Nodes()[node].layout.count > 0
        decreases KEY_LEN - |places[node].full|
      {
        NodeAt(t, node);
        var next := AnyChild(Nodes()[node].layout, a => a in m && m[a].Leaf?);
        ghost var b: Byte :| b in Live(Nodes()[node].layout) && Child(Nodes()[node].layout, b) == next;
        KidPlaced(t, node, b);
        Link(t, node, b, next);
        PrefixTrans(places[n].full, places[node].full, places[next].path);
        InNodes(t, next);
        if Nodes()[next].Leaf? {
          LeafOfPlace(t, next);
          PrefixTrans(places[n].full, places[next].path, places[next].full);
          return next;
        }
        NodeAt(t, next);
        PrefixTrans(places[n].full, places[next].path, places[next].full);
        NonEmpty(t, next);
        node := next;
      }
    }

    /** N::setPrefix */
    method SetPrefix(n: Addr, p: NodePrefix)
      requires Valid() && n in places && n in Nodes() && Nodes()[n].Node? && n != root && PrefixShaped(p)
      modifies this`log
      ensures Valid() && SameContents(old(Model()), Model()) && CrashSafe(base, old(log), log, iset{old(Nodes()), Nodes()})
      ensures n in Nodes() && Nodes() == old(Nodes())[n := Node(old(Nodes())[n].level, p, old(Nodes())[n].layout)]
    {
      hide TreeOk;
      hide CrashSafe;
      PrefixSet(Model(), n, p);
      WordStored(base, log, StorePrefix(n, p));
      Store(StorePrefix(n, p));
    }

    /** A prefix that is not the one for this level is rebuilt from a leaf. */
    method Repair(n: Addr, level: nat)
      requires Valid() && n in places && n in Nodes() && Nodes()[n].Node? && level == |places[n].path|
      modifies this`log
      ensures Valid() && SameContents(old(Model()), Model()) && CrashSafe(base, old(log), log, iset{old(Nodes()), Nodes()})
      ensures n in Nodes() && Nodes()[n].Node? && RightLength(Model(), n)
      ensures if old(RightLength(Model(), n)) then Model() == old(Model()) else PrefixRight(Model(), n)
      ensures Nodes() == old(Nodes())[n := Node(old(Nodes())[n].level, Nodes()[n].prefix, old(Nodes())[n].layout)]
    {
      hide TreeOk;
      hide Contents;
      hide Bytes;
      hide Kid;
      hide LayoutOk;
      hide CrashSafe;
      NodeAt(Model(), n);
      SameItself(Model());
      SafeNow(base, log, iset{Nodes(), Nodes()});
      if Nodes()[n].prefix.prefixCount + level != Nodes()[n].level {
        RootIsRight(Model(), n);
        var discrimination := if Nodes()[n].level > level then Nodes()[n].level - level else level - Nodes()[n].level;
        var kr := AnyLeafBelow(n);
        var bytes := Bytes(Nodes()[kr].key)[level..level + Min(discrimination, MAX_STORED)];
        PrefixSlice(places[n].full, Bytes(Nodes()[kr].key), level, Min(discrimination, MAX_STORED));
        SetPrefix(n, NodePrefix(discrimination, bytes));
      }
    }

    /**
     mycheckPrefixPessimistic: repairs the prefix if its length is wrong, then finds the first byte where the key leaves it. With a
     prefix that is right this is where the key leaves the node.
     */
    method CheckPessimistic(n: Addr, key: U64, fkey: seq<Byte>, level: nat)
      returns (match': bool, nextLevel: nat, nonMatchingKey: Byte, remaining: seq<Byte>)
      requires Valid() && n in places && n in Nodes() && Nodes()[n].Node? && level == |places[n].path|
      requires fkey == Bytes(key) && Prefix(places[n].path, fkey)
      modifies this`log
      ensures Valid() && SameContents(old(Model()), Model()) && CrashSafe(base, old(log), log, iset{old(Nodes()), Nodes()})
      ensures n in Nodes() && Nodes()[n].Node? && RightLength(Model(), n) && PrefixShaped(Nodes()[n].prefix) && level <= |places[n].full| < KEY_LEN
      ensures if old(RightLength(Model(), n)) then Model() == old(Model()) else PrefixRight(Model(), n)
      ensures Nodes() == old(Nodes())[n := Node(old(Nodes())[n].level, Nodes()[n].prefix, old(Nodes())[n].layout)]
      ensures match' <==> forall j | level <= j < |places[n].full| :: SeenAt(Nodes()[n].prefix, places[n], j) == fkey[j]
      ensures match' ==> nextLevel == |places[n].full|
      ensures !match' ==> level <= nextLevel < |places[n].full| && nonMatchingKey == SeenAt(Nodes()[n].prefix, places[n], nextLevel) != fkey[nextLevel]
      ensures !match' ==> forall j | level <= j < nextLevel :: SeenAt(Nodes()[n].prefix, places[n], j) == fkey[j]
      ensures PrefixRight(Model(), n) ==>
        if match' then Prefix(places[n].full, fkey) else PartsAt(places[n], fkey, nextLevel, nonMatchingKey, remaining)
    {
      hide TreeOk;
      hide Contents;
      hide Bytes;
      hide LayoutOk;
      hide CrashSafe;
      Repair(n, level);
      NodeAt(Model(), n);
      match', nextLevel, nonMatchingKey, remaining := ScanPrefix(n, key, fkey, level);
    }

    /** The first byte where a key leaves a prefix of the right length; bytes that are not stored are read off a leaf. */
    method ScanPrefix(n: Addr, key: U64, fkey: seq<Byte>, level: nat)
      returns (match': bool, nextLevel: nat, nonMatchingKey: Byte, remaining: seq<Byte>)
      requires Valid() && n in places && n in Nodes() && Nodes()[n].Node? && level == |places[n].path| && RightLength(Model(), n)
      requires fkey == Bytes(key) && Prefix(places[n].path, fkey) && PrefixShaped(Nodes()[n].prefix) && level <= |places[n].full| < KEY_LEN
      ensures match' <==> forall j | level <= j < |places[n].full| :: SeenAt(Nodes()[n].prefix, places[n], j) == fkey[j]
      ensures match' ==> nextLevel == |places[n].full|
      ensures !match' ==> level <= nextLevel < |places[n].full| && nonMatchingKey == SeenAt(Nodes()[n].prefix, places[n], nextLevel) != fkey[nextLevel]
      ensures !match' ==> forall j | level <= j < nextLevel :: SeenAt(Nodes()[n].prefix, places[n], j) == fkey[j]
      ensures PrefixRight(Model(), n) ==>
        if match' then Prefix(places[n].full, fkey) else PartsAt(places[n], fkey, nextLevel, nonMatchingKey, remaining)
    {
      hide TreeOk;
      hide Contents;
      hide Bytes;
      hide Kid;
      hide LayoutOk;
      hide PrefixFrom;
      hide Prefix;
      ghost var full := places[n].full;
      NodeAt(Model(), n);
      RootIsRight(Model(), n);
      var p := Nodes()[n].prefix;
      nextLevel, nonMatchingKey, remaining := level, 0, [];
      var kt := NULL;
      var i := level + p.prefixCount - Nodes()[n].level;
      while i < p.prefixCount
        invariant i == nextLevel - level && nextLevel <= |full|
        invariant forall j | level <= j < nextLevel :: SeenAt(p, places[n], j) == fkey[j]
        invariant kt != NULL ==> kt in Nodes() && Nodes()[kt].Leaf? && Prefix(full, Bytes(Nodes()[kt].key))
      {
        if i >= MAX_STORED && kt == NULL {
          kt := AnyLeafBelow(n);
        }
        if i >= MAX_STORED { BelowByte(full, Bytes(Nodes()[kt].key), nextLevel); }
        var curKey := if i >= MAX_STORED then Bytes(Nodes()[kt].key)[nextLevel] else p.bytes[i];
        assert curKey == SeenAt(p, places[n], nextLevel);
        if curKey != fkey[nextLevel] {
          remaining := BytesBehind(n, level, nextLevel, kt);
          match', nonMatchingKey := false, curKey;
          if PrefixRight(Model(), n) { SeenParts(p, places[n], fkey, nextLevel); }
          return;
        }
        nextLevel := nextLevel + 1;
        i := i + 1;
      }
      match' := true;
      if PrefixRight(Model(), n) { SeenMatch(p, places[n], fkey); }
    }

    /** What a node's prefix keeps of the bytes behind one that a key leaves it at. */
    method BytesBehind(n: Addr, level: nat, nextLevel: nat, kt: Addr) returns (remaining: seq<Byte>)
      requires Valid() && n in places && n in Nodes() && Nodes()[n].Node? && n != root && RightLength(Model(), n) && PrefixShaped(Nodes()[n].prefix)
      requires level == |places[n].path| <= nextLevel < |places[n].full| < KEY_LEN
      requires kt != NULL ==> kt in Nodes() && Nodes()[kt].Leaf? && Prefix(places[n].full, Bytes(Nodes()[kt].key))
      ensures PrefixRight(Model(), n) ==> remaining == places[n].full[nextLevel + 1..][..Min(MAX_STORED, |places[n].full| - (nextLevel + 1))]
    {
      hide TreeOk;
      hide Contents;
      hide Bytes;
      hide Kid;
      hide LayoutOk;
      hide Prefix;
      ghost var full := places[n].full;
      var p := Nodes()[n].prefix;
      if p.prefixCount > MAX_STORED {
        var leaf := kt;
        if leaf == NULL {
          leaf := AnyLeafBelow(n);
        }
        var count := Min(p.prefixCount - (nextLevel - level) - 1, MAX_STORED);
        PrefixSlice(full, Bytes(Nodes()[leaf].key), nextLevel + 1, count);
        remaining := Bytes(Nodes()[leaf].key)[nextLevel + 1..nextLevel + 1 + count];
      } else {
        if PrefixRight(Model(), n) { RestOfPrefix(full, level, nextLevel); }
        remaining := p.bytes[nextLevel - level + 1..];
      }
    }

    /** A new N4 with two children. */
    method NewN4(level: nat, prefix: NodePrefix, keyByte: Byte, b: Addr, nodeByte: Byte, n: Addr, ghost path: seq<Byte>, ghost full: seq<Byte>)
      returns (cell: Cell)
      requires keyByte != nodeByte && NULL !in {b, n} && level == |full| < KEY_LEN && PrefixShaped(prefix) && Prefix(path, full)
      ensures cell.Node? && cell.prefix == prefix && Fits(cell, Place(path, full), false) && Settled(cell.layout)
      ensures forall y: Byte :: Kid(cell, y) == if y == nodeByte then n else if y == keyByte then b else NULL
    {
      hide PrefixShaped;
      hide Prefix;
      assert Live(Empty(4)) == {};
      var ok, l := Insert(Empty(4), keyByte, b);
      ok, l := Insert(l, nodeByte, n);
      cell := Node(level, prefix, l);
    }

    /** A new N4 for level f with two children, ready to be linked above cell n. */
    method BuildFork(ghost t: Tree, ghost p: Addr, ghost c: Byte, n: Addr, f: nat, prefix: NodePrefix, key: U64, value: U64, keyByte: Byte, nodeByte: Byte)
      returns (x: Addr, b: Addr)
      requires Valid() && t == Model() && IsParent(t, p, c, n) && n in places && n in Nodes()
      requires |places[n].path| <= f < |places[n].full| <= KEY_LEN && Bytes(key)[..f] == places[n].full[..f]
      requires keyByte == Bytes(key)[f] != nodeByte == places[n].full[f] && PrefixShaped(prefix)
      modifies this`log, this`nextAddress
      ensures Valid() && NoWorse(t, Model()) && n in places && Forkable(Model(), n, x, b, key, value, f)
      ensures CrashSafe(base, old(log), log, Staying(t))
      ensures x !in t.nodes && b !in t.nodes && Nodes() == t.nodes[b := Nodes()[b]][x := Nodes()[x]]
      ensures Nodes()[x].prefix == prefix && Settled(Nodes()[x].layout) && Prefix(places[n].path, places[n].full)
    {
      hide TreeOk;
      hide Contents;
      hide Bytes;
      hide PrefixShaped;
      hide Kid;
      hide Fits;
      hide Prefix;
      hide CrashSafe;
      ghost var l0 := log;
      Link(t, p, c, n);
      InNodes(t, n);
      PathPrefix(t, n);
      b := Alloc(Leaf(key, value));
      ghost var t1, l1 := Model(), log;
      StayingOn(t, t1);
      PrefixCut(places[n].path, places[n].full, f);
      var cell := NewN4(f, prefix, keyByte, b, nodeByte, n, places[n].path, places[n].full[..f]);
      x := Alloc(cell);
      NoWorseTrans(t, t1, Model());
      SafeTrans(base, l0, l1, log, Staying(t), Staying(t1), Staying(t));
    }

    /** Links a fork: the pointer to n leads to x. */
    method LinkFork(p: Addr, c: Byte, n: Addr, x: Addr, ghost b: Addr, ghost key: U64, ghost value: U64, ghost f: nat)
      requires Valid() && IsParent(Model(), p, c, n) && Forkable(Model(), n, x, b, key, value, f)
      modifies this`log, this`places
      ensures Valid() && Updated(old(Model()), Model(), key, value) && CrashSafe(base, old(log), log, iset{old(Nodes()), Nodes()})
      ensures n in Nodes() && x in Nodes() && n in places && x in places && Nodes()[n] == old(Nodes())[n] && Nodes()[x] == old(Nodes())[x]
      ensures places == ForkPlaces(old(places), n, x, b, key, f)
      ensures p in Nodes() && Nodes() == old(Nodes())[p := Nodes()[p]] && p != n && p != x && p in old(Nodes()) && Nodes()[p].Node? && old(Nodes())[p].Node?
      ensures Alike(old(Nodes())[p], Nodes()[p])
    {
      hide TreeOk;
      hide Contents;
      hide Bytes;
      hide Kid;
      hide Fits;
      hide CrashSafe;
      ghost var t := Model();
      Link(t, p, c, n);
      InNodes(t, p);
      ChangeChild(p, c, x);
      assert CanFork(t, p, c, Nodes()[p], n, x, b, key, value, f);
      ForkAdded(t, p, c, Nodes()[p], n, x, b, key, value, f);
      ForkedAt(t, p, c, Nodes()[p], n, x, b, key, value, f);
      places := ForkPlaces(places, n, x, b, key, f);
      assert Model() == Forked(t, p, Nodes()[p], n, x, b, key, f);
    }

    /**
     A key that leaves a node's prefix at byte f: a new node above, then the rest of the prefix for the old node. A crash
     between the two leaves the old node's prefix too long.
     */
    method SplitPrefix(n: Addr, p: Addr, c: Byte, key: U64, value: U64, level: nat, nextLevel: nat, nonMatchingKey: Byte, remaining: seq<Byte>)
      requires Valid() && IsParent(Model(), p, c, n) && n in places && n in Nodes() && Nodes()[n].Node? && level == |places[n].path|
      requires PrefixRight(Model(), n) && PartsAt(places[n], Bytes(key), nextLevel, nonMatchingKey, remaining)
      modifies this
      ensures Valid() && Updated(old(Model()), Model(), key, value) && KeptRight(old(Model()), Model())
      ensures old(Quiet(Model())) ==> Quiet(Model())
      ensures CrashSafe(base, old(log), log, Putting(old(Model()), key, value))
    {
      hide TreeOk;
      hide Contents;
      hide Bytes;
      hide Kid;
      hide LayoutOk;
      hide Kept;
      hide KeptRight;
      hide Quiet;
      hide Settled;
      hide CrashSafe;
      hide Putting;
      hide NoWorse;
      hide SameContents;
      ghost var t, l0 := Model(), log;
      NodeAt(t, n);
      Link(t, p, c, n);
      var prefi := Nodes()[n].prefix;
      RightDescribes(prefi, places[n]);
      hide Describes;
      PrefixUpper(places[n], nextLevel);
      PrefixLower(places[n], nextLevel);
      RightPrefix(places[n], prefi);
      hide PrefixFrom;
      var x, b := BuildFork(t, p, c, n, nextLevel, NodePrefix(nextLevel - level, prefi.bytes[..Min(MAX_STORED, nextLevel - level)]),
                            key, value, GetByte(key, nextLevel), nonMatchingKey);
      ghost var t1, l1 := Model(), log;
      LinkFork(p, c, n, x, b, key, value, nextLevel);
      ghost var t2, l2 := Model(), log;
      ForkKept(t, t2, p, n, x, b, key, nextLevel);
      SetPrefix(n, NodePrefix(Nodes()[n].prefix.prefixCount - ((nextLevel - level) + 1), remaining));
      FromDescribes(places[n].full, nextLevel + 1);
      ForkKept(t, Model(), p, n, x, b, key, nextLevel);
      SplitSafe(t, t1, t2, Model(), l0, l1, l2, log, key, value);
    }

    /** A split in three steps: the new node, the pointer to it, the old node's prefix. */
    lemma SplitSafe(t: Tree, t1: Tree, t2: Tree, t3: Tree, l0: seq<Event<Store>>, l1: seq<Event<Store>>, l2: seq<Event<Store>>, l3: seq<Event<Store>>,
                    key: U64, value: U64)
      requires t.root == t1.root == t2.root == t3.root && NoWorse(t, t1) && Updated(t1, t2, key, value) && SameContents(t2, t3)
      requires Kept(t, t2) && Kept(t, t3) && (Quiet(t) ==> Quiet(t2) && Quiet(t3))
      requires CrashSafe(base, l0, l1, Staying(t)) && CrashSafe(base, l1, l2, iset{t1.nodes, t2.nodes}) && CrashSafe(base, l2, l3, iset{t2.nodes, t3.nodes})
      ensures Updated(t, t3, key, value) && CrashSafe(base, l0, l3, Putting(t, key, value))
    {
      hide TreeOk;
      hide Contents;
      hide Kept;
      hide KeptRight;
      hide Quiet;
      hide CrashSafe;
      AllAfter(t, t1, key, value);
      AllAfterToo(t, t2, key, value);
      BuiltSafe(t, t1, l0, l1, key, value);
      PutIn(t, t2, key, value);
      PutIn(t, t3, key, value);
      SafeWord(base, l0, l1, l2, t1.nodes, t2.nodes, Putting(t, key, value));
      SafeWord(base, l0, l2, l3, t2.nodes, t3.nodes, Putting(t, key, value));
    }

    /** Nothing is lost before the link. */
    lemma BuiltSafe(t: Tree, t1: Tree, l0: seq<Event<Store>>, l1: seq<Event<Store>>, key: U64, value: U64)
      requires NoWorse(t, t1) && t1.root == t.root && CrashSafe(base, l0, l1, Staying(t))
      ensures CrashSafe(base, l0, l1, Putting(t, key, value)) && t1.nodes in Putting(t, key, value)
    {
      hide CrashSafe;
      hide NoWorse;
      StayingAll(t, key, value);
      assert t1 == Tree(t.root, t1.nodes, t1.places);
      StayIn(t, t1.nodes, t1.places);
      SafeMore(base, l0, l1, Staying(t), Putting(t, key, value));
    }

    /** put at a leaf: the same key gets its new value in place, another one a new node above both. */
    method PutAtLeaf(n: Addr, p: Addr, c: Byte, key: U64, value: U64, fkey: seq<Byte>, level: nat) returns (existed: bool)
      requires Valid() && IsParent(Model(), p, c, n) && n in places && n in Nodes() && Nodes()[n].Leaf? && level == |places[n].path|
      requires fkey == Bytes(key) && Prefix(places[n].path, fkey)
      modifies this
      ensures Valid() && Updated(old(Model()), Model(), key, value) && KeptRight(old(Model()), Model())
      ensures existed == (key in old(Contents(Model())))
      ensures old(Quiet(Model())) ==> Quiet(Model())
      ensures CrashSafe(base, old(log), log, Putting(old(Model()), key, value))
    {
      hide TreeOk;
      hide Contents;
      hide Bytes;
      hide Kid;
      hide LayoutOk;
      hide Kept;
      hide KeptRight;
      hide Quiet;
      hide CrashSafe;
      ghost var t, l0 := Model(), log;
      Link(t, p, c, n);
      LeafOfPlace(t, n);
      var leafKey := Bytes(Nodes()[n].key);
      var prefixLength := CommonBytes(leafKey, fkey, level);
      if level + prefixLength == KEY_LEN {
        SameLeaf(t, n, key);
        AtLeaf(t, n, key);
        ValueSet(t, n, key, value);
        WordStored(base, l0, StoreValue(n, value));
        Store(StoreValue(n, value));
        LeafKept(t, Model(), n);
        KeptRightKept(t, Model());
        PutIn(t, Model(), key, value);
        BeforePut(t, key, value);
        SafeMore(base, l0, log, iset{t.nodes, Nodes()}, Putting(t, key, value));
        existed := true;
      } else {
        existed := false;
        OtherLeaf(t, n, key, level + prefixLength);
        SplitLeaf(n, p, c, key, value, fkey, level, prefixLength);
      }
    }

    /** A second key under a leaf's path: a new node with both. */
    method SplitLeaf(n: Addr, p: Addr, c: Byte, key: U64, value: U64, fkey: seq<Byte>, level: nat, prefixLength: nat)
      requires Valid() && IsParent(Model(), p, c, n) && n in places && n in Nodes() && Nodes()[n].Leaf? && level == |places[n].path|
      requires fkey == Bytes(key) && Prefix(places[n].path, fkey) && level + prefixLength < KEY_LEN == |places[n].full|
      requires fkey[..level + prefixLength] == places[n].full[..level + prefixLength]
      requires fkey[level + prefixLength] != places[n].full[level + prefixLength]
      modifies this
      ensures Valid() && Updated(old(Model()), Model(), key, value) && KeptRight(old(Model()), Model())
      ensures old(Quiet(Model())) ==> Quiet(Model())
      ensures CrashSafe(base, old(log), log, Putting(old(Model()), key, value))
    {
      hide TreeOk;
      hide Contents;
      hide Bytes;
      hide Kid;
      hide LayoutOk;
      hide Kept;
      hide KeptRight;
      hide Quiet;
      hide Settled;
      hide CrashSafe;
      ghost var t, l0 := Model(), log;
      Link(t, p, c, n);
      LeafOfPlace(t, n);
      InNodes(t, p);
      ghost var f := level + prefixLength;
      PrefixCovers(places[n].full, fkey, level, f);
      var x, b := BuildFork(t, p, c, n, level + prefixLength, NodePrefix(prefixLength, fkey[level..level + Min(MAX_STORED, prefixLength)]),
                            key, value, fkey[level + prefixLength], GetByte(Nodes()[n].key, level + prefixLength));
      ghost var t1, l1 := Model(), log;
      AllAfter(t, t1, key, value);
      BuiltSafe(t, t1, l0, l1, key, value);
      LinkFork(p, c, n, x, b, key, value, f);
      ForkKept(t, Model(), p, n, x, b, key, f);
      PutIn(t, Model(), key, value);
      SafeWord(base, l0, l1, log, t1.nodes, Nodes(), Putting(t, key, value));
    }

    method CommonBytes(a: seq<Byte>, b: seq<Byte>, level: nat) returns (prefixLength: nat)
      requires |a| == |b| && level <= |a|
      ensures level + prefixLength <= |a| && forall i | level <= i < level + prefixLength :: a[i] == b[i]
      ensures level + prefixLength < |a| ==> a[level + prefixLength] != b[level + prefixLength]
    {
      prefixLength := 0;
      while level + prefixLength < |a| && a[level + prefixLength] == b[level + prefixLength]
        invariant level + prefixLength <= |a| && forall i | level <= i < level + prefixLength :: a[i] == b[i]
      {
        prefixLength := prefixLength + 1;
      }
    }

    /** A copy of a node of some kind, and the same with one more child. */
    method GrownCell(cell: Cell, capacity: nat, keyByte: Byte, b: Addr, ghost place: Place) returns (copied: Cell, big: Cell)
      requires cell.Node? && Fits(cell, place, false) && LayoutOk(cell.layout) && Kid(cell, keyByte) == NULL && b != NULL
      requires capacity in {4, 16, 48, 256} && cell.layout.count < capacity
      ensures Fits(copied, place, false) && Twin(cell, copied) && Fits(big, place, false) && CellRepointed(copied, big, keyByte, b)
      ensures big.Node? && big.prefix == cell.prefix && (cell.layout.count + 1 >= FewestOf(capacity) ==> Settled(big.layout))
    {
      hide Bytes;
      hide PrefixShaped;
      var copy := CopyTo(cell.layout, capacity);
      CopyFits(cell, copy, place);
      copied := Node(cell.level, cell.prefix, copy);
      KidIsChild(cell, copied, keyByte);
      var ok, l := Insert(copy, keyByte, b);
      KindHere(l);
      LayoutKept(copied, l, keyByte, b, place, false);
      big := Node(cell.level, cell.prefix, l);
    }

    /** tryInsertOrGrowAndUnlock and compactAndInsertAndUnlock, past the attempt in place: a copy with room takes the node's place. */
    method CopyAndInsert(n: Addr, p: Addr, c: Byte, key: U64, value: U64, keyByte: Byte, b: Addr, capacity: nat)
      requires Valid() && IsParent(Model(), p, c, n) && n in places && n in Nodes() && Nodes()[n].Node?
      requires b != NULL && b !in places && b in Nodes() && Nodes()[b] == Leaf(key, value)
      requires Prefix(places[n].full, Bytes(key)) && |places[n].full| < KEY_LEN && keyByte == Bytes(key)[|places[n].full|]
      requires Kid(Nodes()[n], keyByte) == NULL
      requires capacity in {4, 16, 48, 256} && Nodes()[n].layout.count < capacity
      requires Settled(Nodes()[n].layout) ==> Nodes()[n].layout.count + 1 >= FewestOf(capacity)
      modifies this
      ensures Valid() && Updated(old(Model()), Model(), key, value) && CrashSafe(base, old(log), log, Putting(old(Model()), key, value))
      ensures KeptRight(old(Model()), Model()) && (old(Quiet(Model())) ==> Quiet(Model()))
    {
      hide TreeOk;
      hide Contents;
      hide Bytes;
      hide Kid;
      hide Fits;
      hide LayoutOk;
      hide KeptRight;
      hide Settled;
      hide Alike;
      hide Quiet;
      hide FewestOf;
      hide CrashSafe;
      ghost var t, l0 := Model(), log;
      NodeAt(t, n);
      Link(t, p, c, n);
      InNodes(t, p);
      if Quiet(t) { QuietAt(t, n); }
      var copied, big := GrownCell(Nodes()[n], capacity, keyByte, b, places[n]);
      var moved: Addr := Alloc(big);
      ghost var t1, l1 := Model(), log;
      BuiltSafe(t, t1, l0, l1, key, value);
      assert IsParent(Model(), p, c, n);
      ChangeChild(p, c, moved);
      GrownAdded(t, p, c, Nodes()[p], n, moved, copied, Nodes()[moved], b, key, value);
      places := (places - {n})[moved := places[n]][b := Place(places[n].full + [keyByte], Bytes(key))];
      assert Model() == Grown(t, p, Nodes()[p], n, moved, Nodes()[moved], b, key);
      GrownKept(t, p, Nodes()[p], n, moved, Nodes()[moved], b, key);
      KeptRightKept(t, Model());
      PutIn(t, Model(), key, value);
      SafeWord(base, l0, l1, log, t1.nodes, Nodes(), Putting(t, key, value));
    }

    /**
     The attempt in place: succeeds if a slot is left. If another byte has an index for that slot, which a crash left over, both
     bytes then lead to the new leaf.
     */
    method TryInsert(n: Addr, key: U64, value: U64, keyByte: Byte, b: Addr) returns (ok: bool)
      requires Valid() && n in places && n in Nodes() && Nodes()[n].Node?
      requires b != NULL && b !in places && b in Nodes() && Nodes()[b] == Leaf(key, value)
      requires Prefix(places[n].full, Bytes(key)) && |places[n].full| < KEY_LEN && keyByte == Bytes(key)[|places[n].full|]
      requires Kid(Nodes()[n], keyByte) == NULL && LayoutOk(Nodes()[n].layout)
      modifies this
      ensures ok == !Full(old(Nodes())[n].layout)
      ensures !ok ==> Model() == old(Model()) && log == old(log) && nextAddress == old(nextAddress)
      ensures ok && FreeFor(old(Nodes())[n].layout, keyByte) ==> Updated(old(Model()), Model(), key, value)
      ensures FreeFor(old(Nodes())[n].layout, keyByte) ==> Valid() && KeptRight(old(Model()), Model()) && (old(Quiet(Model())) ==> Quiet(Model()))
      ensures ok && !FreeFor(old(Nodes())[n].layout, keyByte) ==> Collides(old(Model()), Model(), n, b, key, value)
      ensures ok ==> CrashSafe(base, old(log), log, PuttingOr(old(Model()), key, value, FreeFor(old(Nodes())[n].layout, keyByte), Nodes()))
    {
      hide TreeOk;
      hide Contents;
      hide Bytes;
      hide PrefixShaped;
      hide FreeFor;
      hide Quiet;
      hide Kept;
      hide KeptRight;
      hide CrashSafe;
      ghost var t, l0 := Model(), log;
      KeptSelf(t);
      NodeAt(t, n);
      InNodes(t, n);
      var cell := Nodes()[n];
      if Full(cell.layout) {
        return false;
      }
      ok := true;
      InsertStores(Nodes(), n, keyByte, b);
      StoreFirst(n, key, value, keyByte);
      ghost var m1, l1 := Nodes(), log;
      WordStored(base, l1, StoreChild(n, NextSlot(cell.layout, keyByte), b));
      Store(StoreChild(n, NextSlot(cell.layout, keyByte), b));
      ghost var cell' := Node(cell.level, cell.prefix, Inserted(cell.layout, keyByte, b));
      places := places[b := Place(places[n].full + [keyByte], Bytes(key))];
      assert Model() == WithLeaf(t, n, cell', b, key);
      if FreeFor(cell.layout, keyByte) {
        InsertedInPlace(t, n, b, key, value, cell', nextAddress);
        PutIn(t, Model(), key, value);
      } else {
        CollidesHere(t, n, b, key, value);
      }
      SafeTrans(base, l0, l1, log, Putting(t, key, value), iset{m1, Nodes()}, PuttingOr(t, key, value, FreeFor(cell.layout, keyByte), Nodes()));
    }

    lemma InsertedInPlace(t: Tree, n: Addr, b: Addr, key: U64, value: U64, cell': Cell, next: Addr)
      requires TreeOk(t) && IsNode(t, n) && b != NULL && b !in t.places && b in t.nodes && t.nodes[b] == Leaf(key, value)
      requires Prefix(t.places[n].full, Bytes(key)) && |t.places[n].full| < KEY_LEN && LayoutOk(t.nodes[n].layout) && !Full(t.nodes[n].layout)
      requires Kid(t.nodes[n], KeyByte(t, n, key)) == NULL && FreeFor(t.nodes[n].layout, KeyByte(t, n, key))
      requires cell' == Node(t.nodes[n].level, t.nodes[n].prefix, Inserted(t.nodes[n].layout, KeyByte(t, n, key), b))
      ensures Updated(t, WithLeaf(t, n, cell', b, key), key, value) && PutImage(t, WithLeaf(t, n, cell', b, key), key, value)
      ensures KeptRight(t, WithLeaf(t, n, cell', b, key)) && (Quiet(t) ==> Quiet(WithLeaf(t, n, cell', b, key)))
    {
      hide TreeOk;
      hide Contents;
      hide Bytes;
      hide PrefixShaped;
      hide FreeFor;
      hide Quiet;
      hide Kept;
      hide KeptRight;
      var cell, c := t.nodes[n], KeyByte(t, n, key);
      NodeAt(t, n);
      InNodes(t, n);
      InsertedOk(cell.layout, c, b);
      KindOfCapacity(cell.layout, cell'.layout);
      LayoutKept(cell, cell'.layout, c, b, t.places[n], n == t.root);
      assert Alike(cell, cell');
      hide Alike;
      hide Kid;
      hide Fits;
      hide Settled;
      LeafAdded(t, n, cell', b, key, value);
      AddedKept(t, WithLeaf(t, n, cell', b, key), n, b);
      KeptRightKept(t, WithLeaf(t, n, cell', b, key));
    }

    lemma CollidesHere(t: Tree, n: Addr, b: Addr, key: U64, value: U64)
      requires TreeOk(t) && IsNode(t, n) && b != NULL && b !in t.places && b in t.nodes && t.nodes[b] == Leaf(key, value)
      requires Prefix(t.places[n].full, Bytes(key)) && |t.places[n].full| < KEY_LEN && LayoutOk(t.nodes[n].layout) && !Full(t.nodes[n].layout)
      requires Kid(t.nodes[n], KeyByte(t, n, key)) == NULL && !FreeFor(t.nodes[n].layout, KeyByte(t, n, key))
      ensures Collides(t, WithLeaf(t, n, Node(t.nodes[n].level, t.nodes[n].prefix, Inserted(t.nodes[n].layout, KeyByte(t, n, key), b)), b, key), n, b, key, value)
    {
      hide TreeOk;
      hide Bytes;
      hide Kid;
      hide FreeFor;
      hide Shaped;
    }

    /** The first of the two stores of an insertion in place; an N256 needs one only. */
    method StoreFirst(n: Addr, key: U64, ghost value: U64, keyByte: Byte)
      requires Valid() && n in places && n in Nodes() && Nodes()[n].Node? && LayoutOk(Nodes()[n].layout) && !Full(Nodes()[n].layout)
      requires Kid(Nodes()[n], keyByte) == NULL
      modifies this`log
      ensures var cell := old(Nodes())[n]; Nodes() == old(Nodes())[n := Node(cell.level, cell.prefix, HalfInserted(cell.layout, keyByte))]
      ensures Durable(log) && CrashSafe(base, old(log), log, Putting(old(Model()), key, value)) && Nodes() in Putting(old(Model()), key, value)
    {
      hide TreeOk;
      hide Contents;
      hide Bytes;
      hide PrefixShaped;
      hide CrashSafe;
      hide PutImage;
      ghost var t, l0 := Model(), log;
      var cell := Nodes()[n];
      NodeAt(t, n);
      BeforePut(t, key, value);
      SafeNow(base, l0, Putting(t, key, value));
      HalfInsertedSame(cell.layout, keyByte);
      HalfTwin(cell, keyByte, places[n], n == root);
      ghost var half := Node(cell.level, cell.prefix, HalfInserted(cell.layout, keyByte));
      TwinImage(t, n, half, key, value);
      PutIn(t, WithCell(t, n, half), key, value);
      if !cell.layout.Direct? {
        FirstStoreIs(t.nodes, n, keyByte);
        WordStored(base, l0, FirstStore(n, cell.layout, keyByte));
        Store(FirstStore(n, cell.layout, keyByte));
        SafeMore(base, l0, log, iset{t.nodes, Nodes()}, Putting(t, key, value));
      }
    }

    /**
     N::insertAndUnlock: compact, insert, or grow, by the node's kind and how many of its slots are holes. An index left over for
     the next slot is only met in an insertion in place.
     */
    method InsertChild(n: Addr, p: Addr, c: Byte, key: U64, value: U64, keyByte: Byte)
      requires Valid() && n in places && n in Nodes() && Nodes()[n].Node? && (n != root ==> IsParent(Model(), p, c, n))
      requires Prefix(places[n].full, Bytes(key)) && |places[n].full| < KEY_LEN && keyByte == Bytes(key)[|places[n].full|]
      requires Kid(Nodes()[n], keyByte) == NULL && LayoutOk(Nodes()[n].layout)
      modifies this
      ensures FreeFor(old(Nodes())[n].layout, keyByte) ==> Valid() && Updated(old(Model()), Model(), key, value)
      ensures FreeFor(old(Nodes())[n].layout, keyByte) ==> KeptRight(old(Model()), Model()) && (old(Quiet(Model())) ==> Quiet(Model()))
      ensures !FreeFor(old(Nodes())[n].layout, keyByte) ==> Collided(old(Model()), Model(), key, value)
      ensures CrashSafe(base, old(log), log, PuttingOr(old(Model()), key, value, FreeFor(old(Nodes())[n].layout, keyByte), Nodes()))
    {
      hide TreeOk;
      hide Contents;
      hide Bytes;
      hide Kid;
      hide Fits;
      hide Shaped;
      hide Kept;
      hide KeptRight;
      hide Quiet;
      hide Settled;
      hide Collides;
      hide CrashSafe;
      ghost var t, l0 := Model(), log;
      NodeAt(t, n);
      InNodes(t, n);
      var l := Nodes()[n].layout;
      if !FreeFor(l, keyByte) { RoomLeft(l, keyByte); }
      hide FreeFor;
      var b := Alloc(Leaf(key, value));
      ghost var t1, l1 := Model(), log;
      AllAfter(t, t1, key, value);
      AllocKept(t, t1, b);
      BuiltSafe(t, t1, l0, l1, key, value);
      PuttingOn(t, t1, key, value);
      var capacity := Capacity(l);
      var ok := false;
      SlotBounds(l);
      KindHere(l);
      if l.Direct? || l.compactCount < capacity || l.count > Spare(capacity) {
        ok := TryInsert(n, key, value, keyByte, b);
        capacity := if capacity == 4 then 16 else if capacity == 16 then 48 else 256;
      }
      if !ok {
        CopyAndInsert(n, p, c, key, value, keyByte, b, capacity);
        SafeMore(base, l1, log, Putting(t1, key, value), PuttingOr(t1, key, value, FreeFor(l, keyByte), Nodes()));
      }
      SafeTrans(base, l0, l1, log, Putting(t, key, value), PuttingOr(t1, key, value, FreeFor(l, keyByte), Nodes()),
                PuttingOr(t, key, value, FreeFor(l, keyByte), Nodes()));
      if FreeFor(l, keyByte) { KeptBoth(t, t1, Model()); }
    }

    /** Where an index is left over there is a slot for it. */
    lemma RoomLeft(l: Layout, b: Byte)
      requires Shaped(l) && !FreeFor(l, b)
      ensures !Full(l) && l.Indexed? && l.compactCount < Capacity(l)
    {
      var c: Byte :| c != b && Leftover(l, c);
    }

    /** The most children a full node of some kind may have to be compacted rather than grown. */
    function Spare(capacity: nat): nat {
      if capacity == 4 then 3 else if capacity == 16 then 14 else 47
    }

    /**
     ROART::put: the map changes in one key, a lookup then finds it, and every state between stores is the map from before or
     after. It repairs the prefixes on its way, which it tells from right ones by their length. If the insertion ends in a node
     where another byte has an index left over for the same slot, two bytes then lead to the new leaf.
     */
    method Put(key: U64, value: U64) returns (existed: bool)
      requires Valid() && RepairableOn(Model(), key)
      modifies this
      ensures existed == (key in old(Contents(Model())))
      ensures old(SlotFree(Model(), key)) ==> Valid() && Contents(Model()) == old(Contents(Model()))[key := value] && !Turned(Model(), key)
      ensures old(SlotFree(Model(), key)) ==> KeptRight(old(Model()), Model()) && (old(Quiet(Model())) ==> Quiet(Model()))
      ensures !old(SlotFree(Model(), key)) ==> Collided(old(Model()), Model(), key, value)
      ensures old(log) <= log && forall k, im | |old(log)| <= k <= |log| && MayLeave(AfterStore, Parts, base, log[..k], im) ::
        PutLeaves(old(Model()), im, key, value) || (im == Nodes() && !old(SlotFree(Model(), key)))
    {
      hide TreeOk;
      hide Contents;
      hide Bytes;
      hide Has;
      hide Kid;
      hide Shaped;
      hide Live;
      hide PrefixShaped;
      hide TurnsAway;
      hide Turned;
      hide FreeAbove;
      hide Right;
      hide RepairableOn;
      hide SlotFree;
      hide BlockedFrom;
      hide FreeFor;
      hide Alike;
      hide Kept;
      hide KeptRight;
      hide Quiet;
      hide Collides;
      hide CrashSafe;
      hide MayLeave;
      hide PutLeaves;
      hide Replay;
      ghost var t, l0 := Model(), log;
      SameItself(t);
      KeptSelf(t);
      BeforePut(t, key, value);
      SafeNow(base, l0, Putting(t, key, value));
      Root(t);
      RootFree(t, key);
      RootBlocked(t, key);
      var fkey := Fkey(key);
      var level: nat := 0;
      var node, parentNode, parentKey: Byte := root, NULL, 0;
      while true
        invariant Valid() && SameContents(t, Model()) && root == t.root && places == t.places
        invariant KeptRight(t, Model()) && RepairableOn(Model(), key) && (Quiet(t) ==> Quiet(Model())) && FreeAbove(Model(), key, level)
        invariant (SlotFree(t, key) <==> SlotFree(Model(), key)) && BlockedFrom(Model(), key, level)
        invariant CrashSafe(base, l0, log, Putting(t, key, value)) && Nodes() in Putting(t, key, value)
        invariant node in places && node in Nodes() && Nodes()[node].Node? && level == |places[node].path| && Prefix(places[node].path, fkey)
        invariant node != root ==> IsParent(Model(), parentNode, parentKey, node)
        decreases KEY_LEN - level
      {
        ghost var t1, l1 := Model(), log;
        RightByLength(t1, node, key);
        var matched, nextLevel, nonMatchingKey, remaining := CheckPessimistic(node, key, fkey, level);
        ghost var t2, l2 := Model(), log;
        Repaired(t, t1, t2, node, parentNode, parentKey, key, value, level);
        SafeWord(base, l0, l1, l2, t1.nodes, t2.nodes, Putting(t, key, value));
        NodeAt(t2, node);
        RightHonest(Nodes()[node].prefix, places[node]);
        RootIsRight(t2, node);
        Through(t2, node, key);
        if !matched {
          NotHas(t2, key);
          Leaves(places[node], fkey, nextLevel, nonMatchingKey, remaining);
          WayFree(t2, node, key);
          NoneBlocked(t2, node, key);
          existed := false;
          SplitPrefix(node, parentNode, parentKey, key, value, level, nextLevel, nonMatchingKey, remaining);
          EndPut(t, t2, Model(), key);
          SafeEnd(t, l0, l2, log, key, value, true, Putting(t2, key, value));
          return;
        }
        level := nextLevel;
        PrefixNext(places[node].full, fkey);
        var nodeKey := fkey[level];
        var nextNode := GetChild(Nodes()[node].layout, nodeKey);
        if nextNode == NULL {
          NotHas(t2, key);
          WayFree(t2, node, key);
          BlockedHere(t2, node, key);
          existed := false;
          InsertChild(node, parentNode, parentKey, key, value, nodeKey);
          if SlotFree(t, key) { EndPut(t, t2, Model(), key); } else { CollidedAfter(t, t2, Model(), key, value); }
          SafeEnd(t, l0, l2, log, key, value, SlotFree(t, key), PuttingOr(t2, key, value, SlotFree(t, key), Nodes()));
          return;
        }
        NextFree(t2, node, key);
        NextBlocked(t2, node, key);
        KidPlaced(t2, node, nodeKey);
        InNodes(t2, nextNode);
        level := level + 1;
        if Nodes()[nextNode].Leaf? {
          WayFree(t2, nextNode, key);
          NoneBlocked(t2, nextNode, key);
          existed := PutAtLeaf(nextNode, node, nodeKey, key, value, fkey, level);
          EndPut(t, t2, Model(), key);
          SafeEnd(t, l0, l2, log, key, value, true, Putting(t2, key, value));
          return;
        }
        NodeAt(t2, nextNode);
        parentNode, parentKey, node := node, nodeKey, nextNode;
      }
    }

    /** What a repair, or none, keeps. */
    lemma Repaired(t: Tree, t1: Tree, t2: Tree, n: Addr, p: Addr, c: Byte, key: U64, value: U64, level: nat)
      requires TreeOk(t1) && IsNode(t1, n) && n in t2.nodes && t2.nodes[n].Node? && t1.root == t.root && SameContents(t, t1) && SameContents(t1, t2)
      requires t2 == WithCell(t1, n, Node(t1.nodes[n].level, t2.nodes[n].prefix, t1.nodes[n].layout)) && PrefixRight(t2, n)
      requires KeptRight(t, t1) && RepairableOn(t1, key) && (Quiet(t) ==> Quiet(t1)) && FreeAbove(t1, key, level) && BlockedFrom(t1, key, level)
      ensures SameContents(t, t2) && KeptRight(t, t2) && RepairableOn(t2, key) && (Quiet(t) ==> Quiet(t2)) && FreeAbove(t2, key, level)
      ensures (SlotFree(t1, key) <==> SlotFree(t2, key)) && BlockedFrom(t2, key, level)
      ensures IsParent(t1, p, c, n) ==> IsParent(t2, p, c, n)
      ensures Putting(t2, key, value) <= Putting(t, key, value) && t2.nodes in Putting(t, key, value)
    {
      hide TreeOk;
      hide Contents;
      hide Bytes;
      hide Kid;
      hide Right;
      hide RepairableOn;
      hide FreeAbove;
      hide Kept;
      hide KeptRight;
      hide Quiet;
      hide LayoutOk;
      hide FreeFor;
      AllAfter(t, t1, key, value);
      RepairKept(t1, t2, n, p, c);
      RepairSlots(t1, t2, n, key);
      KeptBoth(t, t1, t2);
      PuttingOn(t, t2, key, value);
      BeforePut(t2, key, value);
      RepairableKept(t1, t2, key);
      FreeKept(t1, t2, key, level);
      forall b | Blocked(t2, key, b) ensures level <= |t2.places[b].full| {
        assert Blocked(t1, key, b);
      }
    }

    /** The rest of a put, after what it repaired on its way. */
    lemma SafeEnd(t: Tree, l0: seq<Event<Store>>, l1: seq<Event<Store>>, l2: seq<Event<Store>>, key: U64, value: U64, free: bool, good: iset<Memory>)
      requires CrashSafe(base, l0, l1, Putting(t, key, value)) && CrashSafe(base, l1, l2, good)
      requires good <= PuttingOr(t, key, value, free, Read(base, l2))
      ensures l0 <= l2 && forall k, im | |l0| <= k <= |l2| && MayLeave(AfterStore, Parts, base, l2[..k], im) ::
        PutLeaves(t, im, key, value) || (im == Read(base, l2) && !free)
    {
      hide CrashSafe;
      hide PutLeaves;
      hide MayLeave;
      hide Replay;
      SafeTrans(base, l0, l1, l2, Putting(t, key, value), good, PuttingOr(t, key, value, free, Read(base, l2)));
      SafeMeans(base, l0, l2, PuttingOr(t, key, value, free, Read(base, l2)));
      forall k, im | |l0| <= k <= |l2| && MayLeave(AfterStore, Parts, base, l2[..k], im)
        ensures PutLeaves(t, im, key, value) || (im == Read(base, l2) && !free)
      {
        assert im in PuttingOr(t, key, value, free, Read(base, l2));
      }
    }

    lemma CollidedAfter(t: Tree, t2: Tree, t': Tree, key: U64, value: U64)
      requires SameContents(t, t2) && KeptRight(t, t2) && Collided(t2, t', key, value)
      ensures Collided(t, t', key, value)
    {
      hide TreeOk;
      hide Contents;
      hide KeptRight;
      hide Collides;
      var t1, n, x :| SameContents(t2, t1) && KeptRight(t2, t1) && Collides(t1, t', n, x, key, value);
      KeptRightTrans(t, t2, t1);
    }

    // ----- remove -----

    /** The removal in place; unless forced, it is refused if the node should shrink. */
    method TryRemove(n: Addr, c: Byte, l: Addr, key: U64, force: bool) returns (ok: bool)
      requires Valid() && n in Nodes() && IsParent(Model(), n, c, l) && LeafAt(Model(), l, key)
      requires n != root ==> LayoutOk(Nodes()[n].layout) && Nodes()[n].layout.count > 2
      modifies this
      ensures LayoutOk(old(Nodes())[n].layout) && ok == (force || old(Nodes())[n].layout.count > Threshold(old(Nodes())[n].layout))
      ensures Valid() && (if ok then Removed(old(Model()), Model(), key) else Model() == old(Model()) && log == old(log))
      ensures CrashSafe(base, old(log), log, iset{old(Nodes()), Nodes()})
      ensures ok ==> n in Nodes() && Nodes() == old(Nodes())[n := Nodes()[n]] && places == old(places) - {l} && Nodes()[n].Node?
      ensures ok ==> Nodes()[n].prefix == old(Nodes())[n].prefix && Nodes()[n].layout.count + 1 == old(Nodes())[n].layout.count
      ensures KeptRight(old(Model()), Model()) && (!force || n == root ==> old(Quiet(Model())) ==> Quiet(Model()))
    {
      hide TreeOk;
      hide Contents;
      hide Bytes;
      hide PrefixShaped;
      hide KeptRight;
      hide CrashSafe;
      ghost var t := Model();
      KeptSelf(t);
      NodeAt(t, n);
      var cell := Nodes()[n];
      var i, l';
      ok, i, l' := RoartLayouts.Remove(cell.layout, c, force);
      if !ok {
        SafeNow(base, log, iset{Nodes(), Nodes()});
        return;
      }
      var cell' := Node(cell.level, cell.prefix, l');
      KindHere(cell.layout);
      KindHere(l');
      LayoutKept(cell, l', c, NULL, places[n], n == root);
      hide Kid;
      hide Fits;
      hide LayoutOk;
      Link(t, n, c, l);
      LeafRemoved(t, n, c, cell', l, key);
      WordStored(base, log, StoreChild(n, i, NULL));
      Store(StoreChild(n, i, NULL));
      places := places - {l};
      SwapKept(t, Model(), n, n, n, l);
    }

    /**
     removeAndShrink, past the refusal: the slot is cleared in the linked node, and then a smaller copy takes its place. A
     crash between the two leaves a node with fewer children than its kind otherwise has.
     */
    method Shrink(n: Addr, p: Addr, pc: Byte, c: Byte, l: Addr, key: U64, capacity: nat)
      requires Valid() && n in Nodes() && n != root && IsParent(Model(), p, pc, n) && IsParent(Model(), n, c, l) && LeafAt(Model(), l, key)
      requires LayoutOk(Nodes()[n].layout) && 2 < Nodes()[n].layout.count <= Threshold(Nodes()[n].layout)
      requires capacity == if Nodes()[n].layout.Packed? then 4 else if Nodes()[n].layout.Indexed? then 16 else 48
      modifies this
      ensures Valid() && Removed(old(Model()), Model(), key) && KeptRight(old(Model()), Model())
      ensures old(Quiet(Model())) ==> Quiet(Model())
      ensures CrashSafe(base, old(log), log, Removing(old(Model()), key))
    {
      hide TreeOk;
      hide Contents;
      hide Bytes;
      hide PrefixShaped;
      hide Kid;
      hide Fits;
      hide LayoutOk;
      hide KeptRight;
      hide Quiet;
      hide Settled;
      hide Sealed;
      hide Alike;
      hide Described;
      hide CrashSafe;
      ghost var t, l0 := Model(), log;
      NodeAt(t, n);
      Link(t, p, pc, n);
      Link(t, n, c, l);
      InNodes(t, p);
      KindHere(Nodes()[n].layout);
      var _ := TryRemove(n, c, l, key, true);
      ghost var t1, l1 := Model(), log;
      RemoveImageOf(t, t1, key);
      RemoveIn(t, t1, key);
      BeforeRemove(t, key);
      StayingRemoved(t, t1, key);
      NodeAt(t1, n);
      var copy := CopyTo(Nodes()[n].layout, capacity);
      CopyFits(Nodes()[n], copy, places[n]);
      KindHere(copy);
      var moved: Addr := Alloc(Node(Nodes()[n].level, Nodes()[n].prefix, copy));
      ghost var t2, l2 := Model(), log;
      assert t2 == Tree(t1.root, t2.nodes, t2.places);
      StayIn(t1, t2.nodes, t2.places);
      SafeTrans(base, l0, l1, l2, iset{t.nodes, t1.nodes}, Staying(t1), Removing(t, key));
      assert IsParent(t2, p, pc, n);
      ChangeChild(p, pc, moved);
      NodeMoved(t2, p, pc, Nodes()[p], n, moved);
      places := (places - {n})[moved := places[n]];
      assert Model() == WithCopy(t2, p, Nodes()[p], n, moved);
      AllAfterToo(t, t1, key, 0);
      AllAfter(t1, t2, key, 0);
      ShrunkSettled(t, n, copy);
      ShrunkKept(t, p, Nodes()[p], n, t1.nodes[n], l, moved, Nodes()[moved]);
      RemoveImageOf(t, Model(), key);
      RemoveIn(t, Model(), key);
      SafeWord(base, l0, l2, log, t2.nodes, Nodes(), Removing(t, key));
    }

    /** N::removeAndUnlock */
    method RemoveChild(n: Addr, p: Addr, pc: Byte, c: Byte, l: Addr, key: U64)
      requires Valid() && n in Nodes() && IsParent(Model(), n, c, l) && LeafAt(Model(), l, key)
      requires n != root ==> IsParent(Model(), p, pc, n) && LayoutOk(Nodes()[n].layout) && Nodes()[n].layout.count > 2
      modifies this
      ensures Valid() && Removed(old(Model()), Model(), key) && KeptRight(old(Model()), Model())
      ensures old(Quiet(Model())) ==> Quiet(Model())
      ensures CrashSafe(base, old(log), log, Removing(old(Model()), key))
    {
      hide TreeOk;
      hide Contents;
      hide Bytes;
      hide Kid;
      hide Fits;
      hide LayoutOk;
      hide KeptRight;
      hide Quiet;
      hide Described;
      hide CrashSafe;
      ghost var t, l0 := Model(), log;
      NodeAt(t, n);
      KindHere(Nodes()[n].layout);
      var capacity := Capacity(Nodes()[n].layout);
      var ok := TryRemove(n, c, l, key, n == root);
      if ok {
        RemoveImageOf(t, Model(), key);
        RemoveIn(t, Model(), key);
        BeforeRemove(t, key);
        SafeMore(base, l0, log, iset{t.nodes, Nodes()}, Removing(t, key));
      } else {
        Shrink(n, p, pc, c, l, key, if capacity == 16 then 4 else if capacity == 48 then 16 else 48);
      }
    }

    /** The pointer to a node with two children, one of them a leaf, leads past it to the other. */
    method LinkPast(n: Addr, p: Addr, pc: Byte, ghost c: Byte, ghost l: Addr, secondN: Addr, ghost secondK: Byte, ghost key: U64)
      requires Valid() && n in Nodes() && Nodes()[n].Node? && IsParent(Model(), p, pc, n) && IsParent(Model(), n, c, l) && LeafAt(Model(), l, key)
      requires IsParent(Model(), n, secondK, secondN) && c != secondK && (forall y: Byte | y != c && y != secondK :: Kid(Nodes()[n], y) == NULL)
      modifies this`log, this`places
      ensures Valid() && Removed(old(Model()), Model(), key) && CrashSafe(base, old(log), log, iset{old(Nodes()), Nodes()})
      ensures n in old(places) && secondN in old(places) && p !in {n, l, secondN} && secondN !in {n, l} && n in old(Nodes()) && secondN in old(Nodes())
      ensures places == (old(places) - {n, l})[secondN := Place(old(places)[n].path, old(places)[secondN].full)]
      ensures p in old(Nodes()) && p in Nodes() && p in old(places) && Nodes() == old(Nodes())[p := Nodes()[p]]
      ensures SameElsewhere(old(Model()), Model(), {secondN})
    {
      hide TreeOk;
      hide Contents;
      hide Bytes;
      hide Fits;
      hide Kid;
      hide Alike;
      hide CrashSafe;
      ghost var t := Model();
      Link(t, p, pc, n);
      Link(t, n, secondK, secondN);
      InNodes(t, p);
      InNodes(t, secondN);
      ChangeChild(p, pc, secondN);
      assert CanMerge(t, p, pc, Nodes()[p], n, l, c, secondN, secondK, key);
      MergeRemoved(t, p, pc, Nodes()[p], n, l, c, secondN, secondK, key);
      MergedAt(t, p, pc, Nodes()[p], n, l, c, secondN, secondK, key);
      ghost var full := places[secondN].full;
      places := (places - {n, l})[secondN := Place(places[n].path, full)];
      assert Model() == Merged(t, p, Nodes()[p], n, l, secondN);
      Elsewhere(t, Model(), p, {secondN});
    }

    /**
     The removal from an N4 with two children: the other child takes the node's place, and then the node's prefix in front of
     its own. A crash between the two leaves the child's prefix too short.
     */
    method MergeUp(n: Addr, p: Addr, pc: Byte, c: Byte, l: Addr, key: U64)
      requires Valid() && n in Nodes() && n != root && IsParent(Model(), p, pc, n) && IsParent(Model(), n, c, l) && LeafAt(Model(), l, key)
      requires LayoutOk(Nodes()[n].layout) && Nodes()[n].layout.count == 2 && Capacity(Nodes()[n].layout) == 4
      modifies this
      ensures Valid() && Removed(old(Model()), Model(), key)
      ensures old(Honest(Model())) ==> (Honest(Model()) <==> old(JoinsHonestly(Model(), key)))
      ensures old(Repairable(Model())) ==> (Repairable(Model()) <==> old(JoinsRepairably(Model(), key)))
      ensures old(Described(Model())) && old(JoinsDescribed(Model(), key)) ==> Described(Model())
      ensures (old(Clean(Model())) ==> Clean(Model())) && (old(Quiet(Model())) ==> Quiet(Model()))
      ensures CrashSafe(base, old(log), log, Removing(old(Model()), key) + iset{Nodes()})
    {
      hide TreeOk;
      hide Contents;
      hide Bytes;
      hide PrefixShaped;
      hide Fits;
      hide CrashSafe;
      ghost var t, l0 := Model(), log;
      NodeAt(t, n);
      BeforeRemove(t, key);
      assert c in Live(Nodes()[n].layout);
      var secondN, secondK := SecondChild(Nodes()[n].layout, c);
      OnlyTwo(t, n, c, secondK);
      hide Kid;
      hide LayoutOk;
      hide Live;
      AcrossLink(t, n, secondK, secondN);
      Link(t, n, secondK, secondN);
      LinkPast(n, p, pc, c, l, secondN, secondK, key);
      ghost var t1, l1 := Model(), log;
      AllAfterToo(t, t1, key, 0);
      hide SameElsewhere;
      if Nodes()[secondN].Leaf? {
        LeafUp(t, t1, n, c, l, key, secondN, secondK);
        SafeMore(base, l0, l1, iset{t.nodes, Nodes()}, Removing(t, key) + iset{Nodes()});
      } else {
        NodeUp(t, t1, n, secondK, secondN, key);
        RemoveIn(t, t1, key);
        JoinPlaces(t, n, secondN, secondK);
        SetPrefix(secondN, AddPrefixBefore(Nodes()[secondN].prefix, Nodes()[n].prefix, secondK));
        PrefixUp(t, t1, Model(), n, c, l, key, secondN, secondK);
        SafeTrans(base, l0, l1, log, iset{t.nodes, t1.nodes}, iset{t1.nodes, Nodes()}, Removing(t, key) + iset{Nodes()});
      }
    }

    /**
     ROART::remove: the map loses exactly the key, if it is found. The program stops instead if the key sits in a node with two
     children that is not an N4.
     */
    method Remove(key: U64) returns (result: RemoveResult)
      requires Valid()
      modifies this
      ensures Valid() && (result == NotFound <==> key !in old(Contents(Model())) || old(Turned(Model(), key)))
      ensures result != NotFound ==> (result == Stopped <==> old(Stops(Model(), key)))
      ensures Contents(Model()) == if result == Success then old(Contents(Model())) - {key} else old(Contents(Model()))
      ensures result != Success ==> Model() == old(Model())
      ensures old(Honest(Model())) ==> (Honest(Model()) <==> result != Success || old(JoinsHonestly(Model(), key)))
      ensures old(Repairable(Model())) ==> (Repairable(Model()) <==> result != Success || old(JoinsRepairably(Model(), key)))
      ensures old(Described(Model())) && (result != Success || old(JoinsDescribed(Model(), key))) ==> Described(Model())
      ensures (old(Clean(Model())) ==> Clean(Model())) && (old(Quiet(Model())) ==> Quiet(Model()) && result != Stopped)
      ensures old(log) <= log && forall k, im | |old(log)| <= k <= |log| && MayLeave(AfterStore, Parts, base, log[..k], im) ::
        RemoveLeaves(old(Model()), im, key) || im == Nodes()
    {
      hide TreeOk;
      hide Contents;
      hide Bytes;
      hide Kid;
      hide Has;
      hide Turned;
      hide Stops;
      hide Honest;
      hide Repairable;
      hide JoinsHonestly;
      hide JoinsRepairably;
      hide JoinsDescribed;
      hide Described;
      hide Clean;
      hide Quiet;
      hide KeptRight;
      hide CrashSafe;
      hide MayLeave;
      hide RemoveLeaves;
      hide Replay;
      ghost var t, l0 := Model(), log;
      SameItself(t);
      KeptSelf(t);
      SafeNow(base, l0, iset{Nodes()});
      var leaf, node, nodeKey, parentNode, parentKey := Descend(key);
      if leaf == NULL || Nodes()[leaf].key != key {
        RemoveEnds(t, l0, log, key, iset{Nodes()});
        return NotFound;
      }
      AtLeaf(t, leaf, key);
      NodeAt(t, node);
      var count := CountToThree(Nodes()[node].layout);
      StopsHere(t, key, leaf, node, nodeKey);
      if Quiet(t) { QuietNeverStops(t, key); }
      if count == 2 && node != root {
        if Capacity(Nodes()[node].layout) != 4 {
          RemoveEnds(t, l0, log, key, iset{Nodes()});
          return Stopped;
        }
        MergeUp(node, parentNode, parentKey, nodeKey, leaf, key);
        RemoveEnds(t, l0, log, key, Removing(t, key) + iset{Nodes()});
      } else {
        RemoveChild(node, parentNode, parentKey, nodeKey, leaf, key);
        RemoveEnds(t, l0, log, key, Removing(t, key));
        KeptRightKeeps(t, Model());
        KeptKeeps(t, Model());
        NoneGivesWay(t, leaf, node, nodeKey, key);
      }
      return Success;
    }

    lemma RemoveEnds(t: Tree, l0: seq<Event<Store>>, l1: seq<Event<Store>>, key: U64, good: iset<Memory>)
      requires CrashSafe(base, l0, l1, good) && good <= Removing(t, key) + iset{Read(base, l1)}
      ensures l0 <= l1 && forall k, im | |l0| <= k <= |l1| && MayLeave(AfterStore, Parts, base, l1[..k], im) ::
        RemoveLeaves(t, im, key) || im == Read(base, l1)
    {
      hide CrashSafe;
      hide RemoveLeaves;
      hide MayLeave;
      hide Replay;
      SafeMeans(base, l0, l1, good);
      forall k, im | |l0| <= k <= |l1| && MayLeave(AfterStore, Parts, base, l1[..k], im) ensures RemoveLeaves(t, im, key) || im == Read(base, l1) {
        assert im in good;
      }
    }

    function GetByte(key: U64, i: nat): Byte
      requires i < KEY_LEN
    {
      Bytes(key)[i]
    }
  }
}
