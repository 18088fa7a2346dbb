/**
 The tree over 64-bit keys. Pointers stored in slots are 48-bit addresses; the objects they stand for
 are looked up in the maps nodes and records.
 */
module Wrerts {
  import opened Bits
  import opened Options
  import opened Slots
  import opened Headers
  import opened WrertNodes
  import opened NodeMemory
  import opened WrertModel

  const FAILED: U64 := 0xFFFF_FFFF_FFFF_FFFF   // (uint64_t)OperationResults::Failed

  function OrFailed(found: Option<U64>): U64 {
    if found.Some? then found.value else FAILED
  }

  /** The root's entry for a high half is a child node. */
  ghost predicate LeadsTo(t: Tree, h: U32, a: U48)
    requires t.root in t.nodes
  {
    var r := t.nodes[t.root];
    r.header.prefixLength == 0 && h in r.entries && r.entries[h].nodeFlag && r.entries[h].value == a
  }

  /** What a search finds in one node for a key read from a byte position on. */
  ghost function Seen(v: NodeView, key: U64, position: nat): Option<Entry>
    requires position <= 4
  {
    var p := v.header.prefixLength;
    if p == 0 then EntryIn(v.entries, SubKeyAt(key, position * 8))
    else if p == 1 && position == 0 && PrefixBits(v.header.prefixArray) == SubKeyAt(key, 0) then EntryIn(v.entries, SubKeyAt(key, 32))
    else None
  }

  ghost predicate Disjoint(own: map<U48, set<object>>) {
    forall a, b | a in own && b in own && a != b :: own[a] !! own[b]
  }

  /** map m with what is at a replaced by v at a' */
  function Moved<V>(m: map<U48, V>, a: U48, a': U48, v: V): (r: map<U48, V>)
    ensures r.Keys == m.Keys - {a} + {a'} && r[a'] == v
    ensures forall b | b in r && b != a' :: b in m && b != a && r[b] == m[b]
  {
    (m - {a})[a' := v]
  }

  lemma DisjointSwap(own: map<U48, set<object>>, a: U48, a': U48, m: set<object>)
    requires Disjoint(own) && forall b | b in own && b != a :: own[b] !! m
    ensures Disjoint(Moved(own, a, a', m))
  {
  }

  lemma ApartOf(own: map<U48, set<object>>, a: U48, b: U48)
    requires Disjoint(own) && a in own && b in own && a != b
    ensures own[a] !! own[b]
  {
  }

  // ----- the tree's memory, on values: so that a step of it is a fact of one heap -----

  /** Every node is well-formed in memory of its own. */
  ghost predicate Owned(nodes: map<U48, Node>, own: map<U48, set<object>>, repr: set<object>)
    reads repr
  {
    own.Keys == nodes.Keys && Disjoint(own) && forall a | a in nodes :: own[a] <= repr && NodeOk(nodes[a], own[a])
  }

  /** What the nodes hold. */
  ghost function Views(nodes: map<U48, Node>, own: map<U48, set<object>>, repr: set<object>): map<U48, NodeView>
    requires Owned(nodes, own, repr)
    reads repr
  {
    map a | a in nodes :: ViewOf(nodes[a], own[a])
  }

  lemma OwnedAlso(nodes: map<U48, Node>, own: map<U48, set<object>>, repr: set<object>, a: U48, n: Node, m: set<object>)
    requires Owned(nodes, own, repr) && a !in nodes && NodeOk(n, m) && m !! repr
    ensures Owned(nodes[a := n], own[a := m], repr + m)
    ensures Views(nodes[a := n], own[a := m], repr + m) == Views(nodes, own, repr)[a := ViewOf(n, m)]
  {
    hide NodeOk;
    hide ViewOf;
  }

  /** Every node but the one at a is well-formed in memory of its own, apart from m. */
  ghost predicate Apart(nodes: map<U48, Node>, own: map<U48, set<object>>, repr: set<object>, a: U48, m: set<object>)
    reads repr
  {
    && own.Keys == nodes.Keys && Disjoint(own)
    && (forall b | b in nodes :: own[b] <= repr)
    && (forall b | b in nodes && b != a :: NodeOk(nodes[b], own[b]) && own[b] !! m)
  }

  /** What the nodes other than the one at a hold. */
  ghost function ViewsBut(nodes: map<U48, Node>, own: map<U48, set<object>>, repr: set<object>, a: U48, m: set<object>): map<U48, NodeView>
    requires Apart(nodes, own, repr, a, m)
    reads repr
  {
    map b | b in nodes && b != a :: ViewOf(nodes[b], own[b])
  }

  lemma ApartMoved(nodes: map<U48, Node>, own: map<U48, set<object>>, repr: set<object>, a: U48, m: set<object>, a': U48, n: Node)
    requires Apart(nodes, own, repr, a, m) && a in nodes && (a' == a || a' !in nodes)
    ensures Apart(Moved(nodes, a, a', n), Moved(own, a, a', m), repr + m, a', m)
    ensures ViewsBut(Moved(nodes, a, a', n), Moved(own, a, a', m), repr + m, a', m) == ViewsBut(nodes, own, repr, a, m)
  {
    hide NodeOk;
    hide ViewOf;
    hide Disjoint;
    hide Moved;
    DisjointSwap(own, a, a', m);
    assert Apart(Moved(nodes, a, a', n), Moved(own, a, a', m), repr + m, a', m);
  }

  class Wrert {
    var root: U48
    var nodes: map<U48, Node>
    var records: map<U48, KeyValue>
    var nextAddress: nat
    ghost var own: map<U48, set<object>>   // the memory of each node
    ghost var Repr: set<object>

    /** Every node is well-formed in memory of its own. */
    ghost predicate Shell()
      reads this, Repr
    {
      && this !in Repr && Owned(nodes, own, Repr)
      && (forall a | a in nodes :: a < nextAddress)
      && (forall a | a in records :: a < nextAddress)
    }

    ghost function Model(): Tree
      requires Shell()
      reads this, Repr
    {
      Tree(root, Views(nodes, own, Repr), records)
    }

    ghost predicate Valid()
      reads this, Repr
    {
      Shell() && TreeOk(Model())
    }

    constructor ()
      ensures Valid() && fresh(Repr)
      ensures forall k: U64 :: WrertModel.Find(Model(), k) == None
    {
      hide NodeOk;
      hide ViewOf;
      var node, m := NewIn(InitHeader([0, 0, 0, 0, 0, 0], INIT_PREFIX_LENGTH, 0));
      root, nodes, records, nextAddress := 0, map[0 := node], map[], 1;
      own, Repr := map[0 := m], m;
    }

    lemma TreeAt(h: U32)
      requires Valid()
      ensures TreeOk(Model()) && nodes.Keys == Model().nodes.Keys && records == Model().records && root == Model().root
      ensures var r := Model().nodes[root];
        r.header.prefixLength == 0 && h in r.entries ==> RootEntryOk(Model(), h, r.entries[h])
    {
    }

    // ----- search -----

    /** One node on the way down: its prefix, then its slot for the next subkey. None ends a search. */
    method Visit(a: U48, key: U64, position: nat) returns (slot: Option<Entry>, next: nat)
      requires Valid() && a in nodes && position <= 4 && (a != root || position == 0)
      ensures Valid() && Model() == old(Model()) && a in Model().nodes
      ensures slot == Seen(Model().nodes[a], key, position)
      ensures slot.Some? ==> next == position + 4 + (if Model().nodes[a].header.prefixLength == 1 then 4 else 0)
    {
      hide SubKeyAt;
      hide PrefixBits;
      hide NodeOk;
      hide ViewOf;
      next := position;
      var node := nodes[a];
      ViewHeader(node, own[a]);
      assert ViewOf(node, own[a]) == Model().nodes[a];
      assert a != root ==> ChildOk(Model().nodes[a]);
      if node.header.prefixLength > 0 {
        var prefixMatchLength := ComputePrefix(node.header, key, position * 8);
        if node.header.prefixLength == prefixMatchLength {
          next := next + node.header.prefixLength * 4;
        } else {
          return None, next;
        }
      }
      slot := GetIn(node, own[a], SubKeyAt(key, next * 8));
      next := next + if node.header.prefixLength == 0 then 4 else node.header.prefixLength * 4;
    }

    /** WRERT::search from the root: what the tree's map holds, or the failure value, which no value below 2^48 is. */
    method Search(key: U64) returns (value: U64)
      requires Valid()
      ensures Valid() && value == OrFailed(WrertModel.Find(Model(), key))
      ensures WrertModel.Find(Model(), key).Some? ==> value == WrertModel.Find(Model(), key).value
      ensures (forall k: U64 | WrertModel.Find(Model(), k).Some? :: WrertModel.Find(Model(), k).value < U48_LIMIT) ==>
        (value == FAILED <==> WrertModel.Find(Model(), key) == None)
    {
      hide Shell;
      var currentNode := root;
      var currentKeyPosition := 0;
      SubKeysSplit(key);
      TreeAt(High(key));
      ghost var t := Model();
      while currentKeyPosition < 8
        invariant currentKeyPosition == 0 || currentKeyPosition == 4
        invariant Valid() && Model() == t
        invariant currentKeyPosition == 0 ==> currentNode == root
        invariant currentKeyPosition == 4 ==> LeadsTo(t, High(key), currentNode)
        decreases 8 - currentKeyPosition
      {
        TreeAt(High(key));
        var slot, next := Visit(currentNode, key, currentKeyPosition);
        if slot == None {
          return FAILED;
        }
        currentKeyPosition := next;
        if !slot.value.nodeFlag {
          if currentKeyPosition == 8 {
            return slot.value.value;
          } else {
            var kv := records[slot.value.value];
            return if key == kv.key then kv.value else FAILED;
          }
        } else {
          currentNode := slot.value.value;
        }
      }
    }

    // ----- writing nodes -----

    /** Shell() but for the node at a, which is being replaced by one in memory m. */
    ghost predicate ShellBut(a: U48, m: set<object>)
      reads this, Repr
    {
      && this !in Repr && this !in m && a in nodes && Apart(nodes, own, Repr, a, m)
      && (forall b | b in nodes :: b < nextAddress)
      && (forall b | b in records :: b < nextAddress)
    }

    /** What the nodes other than the one at a hold. */
    ghost function Others(a: U48, m: set<object>): map<U48, NodeView>
      requires ShellBut(a, m)
      reads this, Repr
    {
      ViewsBut(nodes, own, Repr, a, m)
    }

    /** The put into a node, before the node that takes its place is linked. */
    method PutNode(a: U48, k: U32, value: U64, slot: Option<SlotRef>, isMain: bool, nodeFlag: bool) returns (newNode: Node, ghost m: set<object>)
      requires Shell() && a in nodes && RoomOk(nodes[a], own[a], slot, isMain, k)
      modifies own[a]
      ensures ShellBut(a, m) && Others(a, m) == old(Model()).nodes - {a}
      ensures NodeOk(newNode, m) && fresh(m - own[a]) && (newNode == nodes[a] || fresh(newNode))
      ensures HeaderKept(old(nodes[a].header), newNode.header)
      ensures ViewOf(newNode, m) == NodeView(newNode.header, old(Model()).nodes[a].entries[k := Stored(value, nodeFlag)])
    {
      hide NodeOk;
      hide ViewOf;
      hide RoomOk;
      hide HeaderKept;
      newNode, m := PutIn(nodes[a], own[a], k, value, slot, isMain, nodeFlag);
      forall b | b in nodes && b != a
        ensures NodeOk(nodes[b], own[b]) && ViewOf(nodes[b], own[b]) == old(ViewOf(nodes[b], own[b])) && own[b] !! m
      {
        assert own[a] !! own[b] && old(NodeOk(nodes[b], own[b]));
      }
    }

    /** Links a node in place of the one at a; a new object gets a new address. */
    method Attach(a: U48, newNode: Node, ghost m: set<object>) returns (a': U48)
      requires ShellBut(a, m) && NodeOk(newNode, m) && nextAddress < U48_LIMIT
      modifies this`nodes, this`nextAddress, this`own, this`Repr
      ensures Shell() && a' in nodes && NodeOk(newNode, m) && Repr == old(Repr) + m
      ensures Model() == Tree(root, old(Others(a, m))[a' := ViewOf(newNode, m)], records)
      ensures (a' == a || a' !in old(nodes)) && nodes == Moved(old(nodes), a, a', newNode) && own == Moved(old(own), a, a', m)
      ensures old(nextAddress) <= nextAddress <= old(nextAddress) + 1
    {
      hide NodeOk;
      hide ViewOf;
      hide Apart;
      hide ViewsBut;
      hide Moved;
      a' := if newNode == nodes[a] then a else nextAddress;
      ApartMoved(nodes, own, Repr, a, m, a', newNode);
      nodes, own, Repr, nextAddress := Moved(nodes, a, a', newNode), Moved(own, a, a', m), Repr + m,
                                       if newNode == nodes[a] then nextAddress else nextAddress + 1;
      Attached(a', m, Others(a', m));
    }

    lemma Attached(a: U48, m: set<object>, others: map<U48, NodeView>)
      requires ShellBut(a, m) && own[a] == m && NodeOk(nodes[a], m) && Others(a, m) == others
      ensures Shell() && a in nodes && Model() == Tree(root, others[a := ViewOf(nodes[a], m)], records)
    {
      hide NodeOk;
      hide ViewOf;
      hide Disjoint;
    }

    /** Puts a subkey into the node at an address; a node that doubled its directory gets a new address. */
    method PutAt(a: U48, k: U32, value: U64, slot: Option<SlotRef>, isMain: bool, nodeFlag: bool) returns (a': U48)
      requires Shell() && a in nodes && nextAddress < U48_LIMIT
      requires RoomOk(nodes[a], own[a], slot, isMain, k)
      modifies this`nodes, this`nextAddress, this`own, this`Repr, own[a]
      ensures Shell() && fresh(Repr - old(Repr))
      ensures (a' == a || a' !in old(nodes)) && a' in nodes && nodes == Moved(old(nodes), a, a', nodes[a'])
      ensures own == Moved(old(own), a, a', own[a'])
      ensures old(nextAddress) <= nextAddress <= old(nextAddress) + 1
      ensures HeaderKept(old(nodes[a].header), nodes[a'].header)
      ensures Model() == Rewritten(old(Model()), a, a', nodes[a'].header, k, Stored(value, nodeFlag))
    {
      hide NodeOk;
      hide ViewOf;
      hide Stored;
      hide Disjoint;
      hide RoomOk;
      hide HeaderKept;
      ghost var t := Model();
      assert a in t.nodes && a in own && this !in own[a] && NodeOk(nodes[a], own[a]);
      hide Rewritten;
      hide Owned;
      hide Views;
      hide Moved;
      hide ShellBut;
      hide Others;
      var newNode, m := PutNode(a, k, value, slot, isMain, nodeFlag);
      a' := Attach(a, newNode, m);
      RewrittenSteps(t, a, a', newNode.header, k, Stored(value, nodeFlag));
    }

    /** Overwrites the slot of a subkey in the node at an address. */
    method OverwriteAt(a: U48, k: U32, r: SlotRef, value: U64, nodeFlag: bool)
      requires Shell() && a in nodes && RefOk(nodes[a], own[a], r, k)
      modifies own[a]
      ensures Shell() && nodes[a].header == old(nodes[a].header)
      ensures Model() == Rewritten(old(Model()), a, a, nodes[a].header, k, Stored(value, nodeFlag))
    {
      hide NodeOk;
      hide ViewOf;
      hide RefOk;
      hide Disjoint;
      OverwriteIn(nodes[a], own[a], k, r, value, nodeFlag);
      ghost var m := own[a];
      assert ShellBut(a, m) && Others(a, m) == old(Model()).nodes - {a} by {
        forall b | b in nodes && b != a
          ensures NodeOk(nodes[b], own[b]) && ViewOf(nodes[b], own[b]) == old(ViewOf(nodes[b], own[b])) && own[b] !! m
        {
          ApartOf(own, a, b);
          assert old(NodeOk(nodes[b], own[b]));
        }
      }
      hide ShellBut;
      hide Others;
      Attached(a, m, Others(a, m));
    }

    /** Overwrites the header of the node at an address. */
    method SetHeaderAt(a: U48, h: Header)
      requires Shell() && a in nodes
      modifies nodes[a]
      ensures Shell() && nodes[a].header == h
      ensures Model() == old(Model()).(nodes := old(Model()).nodes[a := old(Model()).nodes[a].(header := h)])
    {
      hide NodeOk;
      hide ViewOf;
      hide Disjoint;
      ViewHeader(nodes[a], own[a]);
      SetHeaderIn(nodes[a], own[a], h);
      ghost var m := own[a];
      assert ShellBut(a, m) && Others(a, m) == old(Model()).nodes - {a} by {
        forall b | b in nodes && b != a
          ensures NodeOk(nodes[b], own[b]) && ViewOf(nodes[b], own[b]) == old(ViewOf(nodes[b], own[b])) && own[b] !! m
        {
          ApartOf(own, a, b);
          assert old(NodeOk(nodes[b], own[b]));
        }
      }
      hide ShellBut;
      hide Others;
      Attached(a, m, Others(a, m));
    }

    /** Takes a node that was built aside into the tree's memory. */
    method Adopt(n: Node, ghost m: set<object>) returns (a: U48)
      requires Shell() && NodeOk(n, m) && m !! Repr && this !in m && nextAddress < U48_LIMIT
      modifies this`nodes, this`nextAddress, this`own, this`Repr
      ensures Shell() && Repr == old(Repr) + m
      ensures a !in old(nodes) && a in nodes && nodes == old(nodes)[a := n] && own == old(own)[a := m]
      ensures nextAddress == old(nextAddress) + 1
      ensures Model() == old(Model()).(nodes := old(Model()).nodes[a := ViewOf(n, m)])
    {
      hide NodeOk;
      hide ViewOf;
      hide Owned;
      hide Views;
      a := nextAddress;
      OwnedAlso(nodes, own, Repr, a, n, m);
      nodes, own, Repr, nextAddress := nodes[a := n], own[a := m], Repr + m, nextAddress + 1;
    }

    /** NewWRERTKeyValue */
    method NewRecord(key: U64, value: U64) returns (rec: U48)
      requires Shell() && nextAddress < U48_LIMIT
      modifies this`records, this`nextAddress
      ensures Shell() && rec !in old(records) && nextAddress == old(nextAddress) + 1
      ensures records == old(records)[rec := KeyValue(key, value)]
      ensures Model() == old(Model()).(records := records)
    {
      hide Owned;
      hide Views;
      rec := nextAddress;
      records, nextAddress := records[rec := KeyValue(key, value)], nextAddress + 1;
    }

    // ----- insertion, case by case -----

    /** Case 0: the first key gives the root its prefix. */
    method AssignRootPrefix(key: U64)
      requires Valid() && nodes[root].header.prefixLength == INIT_PREFIX_LENGTH
      modifies nodes[root]
      ensures Valid() && nodes[root].header.prefixLength == 1
      ensures SameMap(old(Model()), Model())
    {
      hide Shell;
      hide TreeOk;
      hide SameMap;
      RootView();
      ghost var t := Model();
      SubKeysSplit(key);
      var h := AssignPrefix(nodes[root].header.(prefixLength := 1), key, 0);
      SetHeaderAt(root, h);
      PrefixAssigned(t, key, h);
      SameMapOk(t, Model());
    }

    lemma RootView()
      requires Valid()
      ensures root in nodes && root in own && root in Model().nodes && Model().nodes[root].header == nodes[root].header
      ensures nodes[root].header.nodeHeaderDepth == 0 && NodeOk(nodes[root], own[root]) && Model().root == root
      ensures Model().nodes[root] == ViewOf(nodes[root], own[root])
    {
      hide NodeOk;
      ViewHeader(nodes[root], own[root]);
    }

    /**
     A put into the root, or into the child node that before points to. When the directory doubled, the new
     node is linked where its header depth says: in the slot of the parent, or as the root.
     */
    method PutLinked(before: Option<SlotRef>, h: U32, a: U48, k: U32, value: U64, slot: Option<SlotRef>, isMain: bool, nodeFlag: bool)
      returns (a': U48)
      requires Shell() && root in nodes && a in nodes && nextAddress < U48_LIMIT
      requires RoomOk(nodes[a], own[a], slot, isMain, k)
      requires nodes[a].header.prefixLength <= 1 && nodes[a].header.nodeHeaderDepth == if a == root then 0 else 1
      requires a != root ==> before.Some? && RefOk(nodes[root], own[root], before.value, h)
      modifies this`root, this`nodes, this`nextAddress, this`own, this`Repr, own[a], own[root]
      ensures Shell() && fresh(Repr - old(Repr)) && old(nextAddress) <= nextAddress <= old(nextAddress) + 1
      ensures (a' == a || a' !in old(nodes)) && a' in nodes && HeaderKept(old(nodes[a].header), nodes[a'].header)
      ensures Model() == Relinked(Rewritten(old(Model()), a, a', nodes[a'].header, k, Stored(value, nodeFlag)), a, a', nodes[a'].header, h)
    {
      hide Shell;
      hide RoomOk;
      hide NodeOk;
      hide Rewritten;
      hide RefOk;
      hide ViewOf;
      hide HeaderKept;
      NodesApart(a, root);
      a' := PutAt(a, k, value, slot, isMain, nodeFlag);
      KeptHeader(old(nodes[a].header), nodes[a'].header);
      if a' != a {
        if nodes[a'].header.nodeHeaderDepth != 0 {
          NodesApart(a', root);
          OverwriteAt(root, h, before.value, a', true);
        } else {
          SetRoot(a');
        }
      }
    }

    method SetRoot(a: U48)
      requires Shell()
      modifies this`root
      ensures Shell() && root == a && Model() == old(Model()).(root := a)
    {
      hide NodeOk;
      hide ViewOf;
      root := a;
    }

    lemma NodesApart(a: U48, b: U48)
      requires Shell() && a in nodes && b in nodes
      ensures NodeOk(nodes[a], own[a]) && NodeOk(nodes[b], own[b]) && this !in own[a] && this !in own[b]
      ensures a in own && b in own && own[a] <= Repr && own[b] <= Repr
      ensures nodes[a] in own[a] && nodes[b] in own[b]
      ensures a != b ==> own[a] !! own[b]
      ensures Model().root == root && Model().records == records
      ensures a in Model().nodes && Model().nodes[a] == ViewOf(nodes[a], own[a]) && Model().nodes[a].header == nodes[a].header
      ensures b in Model().nodes && Model().nodes[b] == ViewOf(nodes[b], own[b]) && Model().nodes[b].header == nodes[b].header
    {
      ViewHeader(nodes[a], own[a]);
      ViewHeader(nodes[b], own[b]);
    }

    /** Where an insertion ends: the key's low half in the root or in the child node before points to. */
    ghost predicate EndsAt(before: Option<SlotRef>, a: U48, key: U64)
      requires Valid()
      reads this, Repr
    {
      RootView();
      if a == root then nodes[root].header.prefixLength == 1 && PrefixBits(nodes[root].header.prefixArray) == High(key)
      else a in nodes && LeadsTo(Model(), High(key), a) && before.Some? && RefOk(nodes[root], own[root], before.value, High(key))
    }

    /** Case 2.1: a new key, or a new value, in the node where the key ends. */
    method EndHere(before: Option<SlotRef>, a: U48, key: U64, value: U64, found: bool, slot: Option<SlotRef>, isMain: bool)
      requires Valid() && a in nodes && nextAddress < U48_LIMIT && EndsAt(before, a, key)
      requires NodeOk(nodes[a], own[a])
      requires found ==> slot.Some? && RefOk(nodes[a], own[a], slot.value, Low(key))
      requires !found ==> RoomOk(nodes[a], own[a], slot, isMain, Low(key))
      modifies this, own[a], own[root]
      ensures Valid() && fresh(Repr - old(Repr)) && Inserted(old(Model()), Model(), key, value)
      ensures nextAddress <= old(nextAddress) + 2
    {
      hide Shell;
      hide RoomOk;
      hide RefOk;
      hide NodeOk;
      hide ViewOf;
      hide Rewritten;
      hide Relinked;
      hide HeaderKept;
      hide WithRoot;
      hide WithChild;
      RootView();
      NodesApart(a, root);
      ghost var t := Model();
      ghost var h := nodes[a].header;
      assert a != root ==> ChildOk(t.nodes[a]) && t.nodes[root].entries[High(key)].value == a;
      if !found {
        var a' := PutLinked(before, High(key), a, Low(key), value, slot, isMain, false);
        KeptHeader(h, nodes[a'].header);
        EndedAt(t, a, a', nodes[a'].header, key, value);
      } else {
        RefFlag(nodes[a], own[a], slot.value, Low(key));
        var nodeFlag := slot.value.segment[slot.value.position][slot.value.index].nodeFlag;
        assert !nodeFlag by { assert Leafy(t.nodes[a].entries) && Low(key) in t.nodes[a].entries; }
        OverwriteAt(a, Low(key), slot.value, value, nodeFlag);
        NotMoved(Model(), a, h, High(key));
        EndedAt(t, a, a, h, key, value);
      }
    }

    /** Case 2.2.1: a new record for the first key of a high half, in the root. */
    method AddRecord(key: U64, value: U64, slot: Option<SlotRef>, isMain: bool)
      requires Valid() && nextAddress + 1 < U48_LIMIT
      requires nodes[root].header.prefixLength == 0 && NodeOk(nodes[root], own[root])
      requires RoomOk(nodes[root], own[root], slot, isMain, High(key))
      modifies this, own[root]
      ensures Valid() && fresh(Repr - old(Repr)) && Inserted(old(Model()), Model(), key, value)
      ensures nextAddress <= old(nextAddress) + 2
    {
      hide Shell;
      hide RoomOk;
      hide NodeOk;
      hide ViewOf;
      hide Rewritten;
      hide Relinked;
      hide HeaderKept;
      hide WithRoot;
      RootView();
      ghost var t, h, a := Model(), nodes[root].header, root;
      RoomMeansNew(nodes[root], own[root], slot, isMain, High(key));
      var rec := NewRecord(key, value);
      ghost var t1 := Model();
      NodesApart(root, root);
      var a' := PutLinked(None, High(key), root, High(key), rec, slot, isMain, false);
      KeptHeader(h, nodes[a'].header);
      RootMoved(t1, a', nodes[a'].header, High(key), Stored(rec, false), High(key));
      RecordAdded(t, key, value, rec, a', nodes[a'].header);
    }

    /** Case 2.2.3: a new value in a key's record. */
    method UpdateRecord(rec: U48, key: U64, value: U64)
      requires Valid() && rec in records && records[rec].key == key
      requires var r := Model().nodes[root]; r.header.prefixLength == 0 && High(key) in r.entries && r.entries[High(key)] == Entry(rec, false)
      modifies this`records
      ensures Valid() && Inserted(old(Model()), Model(), key, value)
    {
      hide NodeOk;
      hide ViewOf;
      ghost var t := Model();
      records := records[rec := records[rec].(value := value)];
      assert Model() == t.(records := records);
      hide Shell;
      RecordUpdated(t, key, value);
    }

    /** Case 2.2.4: two keys under one high half move to a new child node. */
    method PushDown(key: U64, value: U64, r: SlotRef, rec: U48)
      requires Valid() && nextAddress < U48_LIMIT && NodeOk(nodes[root], own[root])
      requires RefOk(nodes[root], own[root], r, High(key)) && rec in records && records[rec].key != key
      requires var v := Model().nodes[root]; v.header.prefixLength == 0 && High(key) in v.entries && v.entries[High(key)] == Entry(rec, false)
      modifies this, own[root]
      ensures Valid() && fresh(Repr - old(Repr)) && Inserted(old(Model()), Model(), key, value)
      ensures nextAddress <= old(nextAddress) + 1
    {
      hide Shell;
      hide Inserted;
      hide WithPushed;
      hide NodeOk;
      hide RefOk;
      hide ViewOf;
      RootView();
      ghost var t := Model();
      var kv := records[rec];
      hide TreeOk;
      var header := InitHeader(nodes[root].header.prefixArray, 0, 1);
      var n, m := BuildPair(header, kv, key, value);
      var a := Adopt(n, m);
      NodesApart(root, a);
      OverwriteAt(root, High(key), r, a, true);
      PushedSteps(t, key, value, a, header);
      PushedDown(t, key, value, a, header);
      InsertedOk(t, Model(), key, value);
    }

    /** The new child node, built aside: the old record's key first, then the new key. */
    method BuildPair(header: Header, kv: KeyValue, key: U64, value: U64) returns (n: Node, ghost m: set<object>)
      requires Low(kv.key) != Low(key)
      ensures NodeOk(n, m) && fresh(m)
      ensures ViewOf(n, m) == NodeView(header, map[Low(kv.key) := Stored(kv.value, false)][Low(key) := Stored(value, false)])
    {
      hide NodeOk;
      hide Stored;
      hide FewKeys;
      n, m := NewIn(header);
      m := InsertLeaf(n, m, Low(kv.key), kv.value);
      FewWithOne(n, m, Low(kv.key), Stored(kv.value, false));
      m := InsertLeaf(n, m, Low(key), value);
    }

    /** Case 3: a new root above the old one, which loses its prefix. */
    method SplitRootPrefix(key: U64, value: U64)
      requires Valid() && nextAddress + 1 < U48_LIMIT
      requires nodes[root].header.prefixLength == 1 && PrefixBits(nodes[root].header.prefixArray) != High(key)
      modifies this, nodes[root]
      ensures Valid() && fresh(Repr - old(Repr)) && Inserted(old(Model()), Model(), key, value)
      ensures nextAddress <= old(nextAddress) + 2
    {
      hide PrefixBits;
      hide Stored;
      hide SubKeyAt;
      hide Shell;
      hide Inserted;
      hide WithNewRoot;
      hide NodeOk;
      hide ViewOf;
      RootView();
      ghost var t := Model();
      var old' := nodes[root].header;
      hide TreeOk;
      var header := InitHeader(old'.prefixArray, 0, old'.nodeHeaderDepth);
      var rec := NewRecord(key, value);
      NodesApart(root, root);
      var header' := Header(header.prefixLength + header.nodeHeaderDepth + 1,
                            old'.prefixLength - (0 + header.nodeHeaderDepth + 1), ShiftPrefix(old'.prefixArray));
      var n, m := BuildRoot(header, High(key), rec, PrefixBits(old'.prefixArray), root);
      var a := PutRootAbove(n, m, header');
      NewRootSteps(t, key, value, rec, a, header, header',
                   NodeView(header, map[High(key) := Entry(rec, false)][PrefixBits(old'.prefixArray) := Entry(t.root, true)]));
      PrefixSplit(t, key, value, rec, a, header, header');
      InsertedOk(t, Model(), key, value);
    }

    /** Links a node built aside as the new root; the old root gets another header. */
    method PutRootAbove(n: Node, ghost m: set<object>, header': Header) returns (a: U48)
      requires Shell() && root in nodes && nextAddress < U48_LIMIT && NodeOk(n, m) && m !! Repr && this !in m
      modifies this, nodes[root]
      ensures Shell() && Repr == old(Repr) + m && a !in old(nodes) && nextAddress == old(nextAddress) + 1
      ensures Model() == RootAbove(old(Model()), a, header', old(ViewOf(n, m)))
    {
      hide NodeOk;
      hide ViewOf;
      NodesApart(root, root);
      ghost var v := ViewOf(n, m);
      SetHeaderAt(root, header');
      assert NodeOk(n, m) && ViewOf(n, m) == v;
      a := Adopt(n, m);
      SetRoot(a);
    }

    /** The new root, built aside: the new record under the key's high half, the old root under its prefix. */
    method BuildRoot(header: Header, h: U32, rec: U48, prefix: U32, oldRoot: U48) returns (n: Node, ghost m: set<object>)
      requires h != prefix
      ensures NodeOk(n, m) && fresh(m)
      ensures ViewOf(n, m) == NodeView(header, map[h := Entry(rec, false)][prefix := Entry(oldRoot, true)])
    {
      hide NodeOk;
      hide Stored;
      hide FewKeys;
      StoredSmall(rec, false);
      StoredSmall(oldRoot, true);
      n, m := NewIn(header);
      m := PutSegIn(n, m, h, rec, false);
      FewWithOne(n, m, h, Entry(rec, false));
      m := PutSegIn(n, m, prefix, oldRoot, true);
    }

    /** What an insertion knows when it reaches a node: it is the root, or the child before points to. */
    ghost predicate At(before: Option<SlotRef>, a: U48, position: nat, key: U64)
      reads this, Repr
    {
      Valid() && a in nodes && a in own && (position == 0 || position == 4)
      && (position == 0 ==> a == root) && (position == 4 ==> a != root && EndsAt(before, a, key))
    }

    /** Cases 2.2.2 to 2.2.4: the high half has an entry in the root. */
    method AtEntry(key: U64, value: U64, slot: SlotRef) returns (next: Option<U48>)
      requires Valid() && nextAddress < U48_LIMIT && root in nodes && root in own && NodeOk(nodes[root], own[root])
      requires nodes[root].header.prefixLength == 0 && RefOk(nodes[root], own[root], slot, High(key))
      modifies this, Repr
      ensures Valid() && fresh(Repr - old(Repr))
      ensures next == None ==> Inserted(old(Model()), Model(), key, value)
      ensures next.Some? ==> unchanged(this) && unchanged(Repr) && At(Some(slot), next.value, 4, key)
      ensures nextAddress <= old(nextAddress) + 2
    {
      hide Shell;
      hide NodeOk;
      hide ViewOf;
      hide RefOk;
      hide Inserted;
      RootView();
      TreeAt(High(key));
      NodesApart(root, root);
      RefFlag(nodes[root], own[root], slot, High(key));
      var s := slot.segment[slot.position][slot.index];
      next := None;
      if s.nodeFlag {
        next := Some(s.value);
        NodesApart(root, s.value);
      } else if records[s.value].key == key {
        UpdateRecord(s.value, key, value);
      } else {
        PushDown(key, value, slot, s.value);
      }
    }

    /** Case 2: the key matches the node's prefix. */
    method Matched(before: Option<SlotRef>, a: U48, position: nat, key: U64, value: U64) returns (next: Option<U48>, slot: Option<SlotRef>)
      requires At(before, a, position, key) && nextAddress + 1 < U48_LIMIT
      requires nodes[a].header.prefixLength == 0
        || (nodes[a].header.prefixLength == 1 && a == root && PrefixBits(nodes[a].header.prefixArray) == High(key))
      modifies this, Repr
      ensures Valid() && fresh(Repr - old(Repr))
      ensures next == None ==> Inserted(old(Model()), Model(), key, value)
      ensures next.Some? ==> position == 0 && unchanged(this) && unchanged(Repr) && At(slot, next.value, 4, key)
      ensures nextAddress <= old(nextAddress) + 2
    {
      hide Shell;
      hide NodeOk;
      hide ViewOf;
      hide RefOk;
      hide RoomOk;
      hide Inserted;
      hide SubKeyAt;
      SubKeysSplit(key);
      RootView();
      NodesApart(a, root);
      var currentKeyPosition := position + nodes[a].header.prefixLength * 4;
      assert a != root ==> ChildOk(Model().nodes[a]);
      var subKey := SubKeyAt(key, currentKeyPosition * 8);
      var found, isMain;
      found, slot, isMain := FindIn(nodes[a], own[a], subKey);
      currentKeyPosition := currentKeyPosition + 4;
      next := None;
      if currentKeyPosition == 8 {
        EndHere(before, a, key, value, found, slot, isMain);
      } else if !found {
        AddRecord(key, value, slot, isMain);
      } else {
        next := AtEntry(key, value, slot.value);
      }
    }

    /** WRERT::insert: the tree's map gets the key, and nothing else changes. */
    method Insert(key: U64, value: U64)
      requires Valid() && nextAddress + 1 < U48_LIMIT
      modifies this, Repr
      ensures Valid() && fresh(Repr - old(Repr)) && Inserted(old(Model()), Model(), key, value)
      ensures nextAddress <= old(nextAddress) + 2
    {
      hide Shell;
      hide TreeOk;
      hide EndsAt;
      hide SameMap;
      hide Inserted;
      hide PrefixBits;
      hide SubKeyAt;
      SubKeysSplit(key);
      RootView();
      ghost var t := Model();
      SameMapRefl(t);
      var currentNode, currentKeyPosition := root, 0;
      var beforeAddress: Option<SlotRef> := None;
      while currentKeyPosition < 8
        invariant At(beforeAddress, currentNode, currentKeyPosition, key)
        invariant Repr == old(Repr) && nextAddress == old(nextAddress) && SameMap(t, Model())
        decreases 8 - currentKeyPosition, if currentNode in nodes && nodes[currentNode].header.prefixLength == INIT_PREFIX_LENGTH then 1 else 0
      {
        ghost var t1 := Model();
        HeaderAt(currentNode);
        var header := nodes[currentNode].header;
        var prefixMatchLength := ComputePrefix(header, key, currentKeyPosition * 4);
        if prefixMatchLength == -1 {
          AssignRootPrefix(key);
          SameMapTrans(t, t1, Model());
        } else if header.prefixLength == prefixMatchLength {
          var next, slot := Matched(beforeAddress, currentNode, currentKeyPosition, key, value);
          if next == None {
            InsertedAfter(t, t1, Model(), key, value);
            return;
          }
          currentNode, beforeAddress, currentKeyPosition := next.value, slot, 4;
        } else {
          SplitRootPrefix(key, value);
          InsertedAfter(t, t1, Model(), key, value);
          return;
        }
      }
    }

    /** The headers of a valid tree: only the root may have a prefix. */
    lemma HeaderAt(a: U48)
      requires Valid() && a in nodes
      ensures nodes[a] in Repr && (nodes[a].header.prefixLength <= 1 || nodes[a].header.prefixLength == INIT_PREFIX_LENGTH)
      ensures a != root ==> nodes[a].header.prefixLength == 0
    {
      NodesApart(a, a);
      assert a != root ==> ChildOk(Model().nodes[a]);
    }
  }

  lemma SameMapRefl(t: Tree)
    requires TreeOk(t)
    ensures SameMap(t, t)
  {
  }

  /** A put where the key ends, whatever the node's new address, inserts the key. */
  lemma EndedAt(t: Tree, a: U48, a': U48, h: Header, key: U64, value: U64)
    requires TreeOk(t) && a in t.nodes && (a' == a || a' !in t.nodes) && SameHeader(t.nodes[a].header, h)
    requires a == t.root ==> t.nodes[a].header.prefixLength == 1 && PrefixBits(t.nodes[a].header.prefixArray) == High(key)
    requires a != t.root ==> LeadsTo(t, High(key), a)
    ensures Inserted(t, Relinked(Rewritten(t, a, a', h, Low(key), Stored(value, false)), a, a', h, High(key)), key, value)
  {
    hide Inserted;
    hide Rewritten;
    hide Relinked;
    hide WithChild;
    hide WithRoot;
    if a == t.root {
      RootMoved(t, a', h, Low(key), Stored(value, false), High(key));
      RootPut(t, key, value, a', h);
    } else {
      assert ChildOk(t.nodes[a]);
      ChildMoved(t, High(key), a', h, Low(key), Stored(value, false));
      ChildPut(t, key, value, a', h);
    }
  }

  lemma SameMapOk(t: Tree, t': Tree)
    requires SameMap(t, t')
    ensures TreeOk(t')
  {
  }
}
