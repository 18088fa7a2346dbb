/**
 The two-level tree on values: node addresses, what each node holds, and the key-value records. Each
 structural step of an insertion is a lemma about the map the tree stands for.
 */
module WrertModel {
  import opened Bits
  import opened Options
  import opened Slots
  import opened Headers

  datatype KeyValue = KeyValue(key: U64, value: U64)

  datatype NodeView = NodeView(header: Header, entries: map<U32, Entry>)

  datatype Tree = Tree(root: U48, nodes: map<U48, NodeView>, records: map<U48, KeyValue>)

  /** What a slot keeps of a value: 48 bits. */
  function Stored(value: U64, nodeFlag: bool): Entry {
    Entry(value % U48_LIMIT, nodeFlag)
  }

  lemma StoredSmall(value: U48, nodeFlag: bool)
    ensures Stored(value, nodeFlag) == Entry(value, nodeFlag)
  {
  }

  ghost predicate Leafy(entries: map<U32, Entry>) {
    forall k | k in entries :: !entries[k].nodeFlag
  }

  ghost predicate ChildOk(v: NodeView) {
    v.header.prefixLength == 0 && v.header.nodeHeaderDepth == 1 && Leafy(v.entries)
  }

  /** An entry of a root without prefix: a child node of its own, or a record under the entry's subkey. */
  ghost predicate RootEntryOk(t: Tree, h: U32, e: Entry) {
    if e.nodeFlag then e.value in t.nodes && e.value != t.root
    else e.value in t.records && High(t.records[e.value].key) == h
  }

  ghost predicate ChildrenApart(entries: map<U32, Entry>) {
    forall h, h' | h in entries && h' in entries && h != h' && entries[h].nodeFlag && entries[h'].nodeFlag ::
      entries[h].value != entries[h'].value
  }

  ghost predicate TreeOk(t: Tree) {
    && t.root in t.nodes
    && var r := t.nodes[t.root];
    && r.header.nodeHeaderDepth == 0
    && (forall a | a in t.nodes && a != t.root :: ChildOk(t.nodes[a]))
    && (r.header.prefixLength == INIT_PREFIX_LENGTH || r.header.prefixLength <= 1)
    && (r.header.prefixLength != 0 ==> t.nodes.Keys == {t.root})
    && (r.header.prefixLength == INIT_PREFIX_LENGTH ==> r.entries == map[])
    && (r.header.prefixLength == 1 ==> Leafy(r.entries))
    && (r.header.prefixLength == 0 ==>
          ChildrenApart(r.entries) && forall h | h in r.entries :: RootEntryOk(t, h, r.entries[h]))
  }

  ghost function ValueIn(entries: map<U32, Entry>, k: U32): Option<U64> {
    if k in entries then Some(entries[k].value) else None
  }

  /** The map from keys to values that the tree stands for. */
  ghost function Find(t: Tree, key: U64): Option<U64>
    requires TreeOk(t)
  {
    var r := t.nodes[t.root];
    if r.header.prefixLength == INIT_PREFIX_LENGTH then None
    else if r.header.prefixLength == 1 then (if PrefixBits(r.header.prefixArray) == High(key) then ValueIn(r.entries, Low(key)) else None)
    else if High(key) !in r.entries then None
    else
      var e := r.entries[High(key)];
      assert RootEntryOk(t, High(key), e);
      if e.nodeFlag then ValueIn(t.nodes[e.value].entries, Low(key))
      else if t.records[e.value].key == key then Some(t.records[e.value].value) else None
  }

  /** A slot keeps 48 bits of a value: equal for values that fit, and equal in those bits always. */
  ghost predicate Agree(found: Option<U64>, wanted: Option<U64>) {
    && (found.Some? <==> wanted.Some?)
    && (wanted.Some? ==> found.value % U48_LIMIT == wanted.value % U48_LIMIT)
    && (wanted.Some? && wanted.value < U48_LIMIT ==> found == wanted)
  }

  /** t' is t with key set to value, and nothing else changed. */
  ghost predicate Inserted(t: Tree, t': Tree, key: U64, value: U64) {
    && TreeOk(t) && TreeOk(t')
    && forall k: U64 :: Agree(Find(t', k), if k == key then Some(value) else Find(t, k))
  }

  lemma InsertedOk(t: Tree, t': Tree, key: U64, value: U64)
    requires Inserted(t, t', key, value)
    ensures TreeOk(t) && TreeOk(t')
  {
  }

  ghost predicate SameMap(t: Tree, t': Tree) {
    TreeOk(t) && TreeOk(t') && forall k: U64 :: Find(t', k) == Find(t, k)
  }

  lemma SameMapTrans(t: Tree, t1: Tree, t2: Tree)
    requires SameMap(t, t1) && SameMap(t1, t2)
    ensures SameMap(t, t2)
  {
  }

  lemma InsertedAfter(t: Tree, t1: Tree, t2: Tree, key: U64, value: U64)
    requires SameMap(t, t1) && Inserted(t1, t2, key, value)
    ensures Inserted(t, t2, key, value)
  {
  }

  /** The value last inserted under a key. */
  function LastOf(ops: seq<(U64, U64)>, k: U64): Option<U64> {
    if ops == [] then None
    else if ops[|ops| - 1].0 == k then Some(ops[|ops| - 1].1)
    else LastOf(ops[..|ops| - 1], k)
  }

  /** Any run of insertions from an empty tree: the tree holds the last value of every key, and no other key. */
  lemma {:induction false} RunHolds(trees: seq<Tree>, ops: seq<(U64, U64)>)
    requires |trees| == |ops| + 1 && TreeOk(trees[0]) && forall k: U64 :: Find(trees[0], k) == None
    requires forall i | 0 <= i < |ops| :: Inserted(trees[i], trees[i + 1], ops[i].0, ops[i].1)
    ensures TreeOk(trees[|ops|])
    ensures forall k: U64 :: Agree(Find(trees[|ops|], k), LastOf(ops, k))
  {
    hide TreeOk;
    hide Find;
    if ops != [] {
      var n := |ops| - 1;
      RunHolds(trees[..|ops|], ops[..n]);
      assert Inserted(trees[n], trees[n + 1], ops[n].0, ops[n].1);
    }
  }

  lemma SameKey(k: U64, key: U64)
    requires High(k) == High(key) && Low(k) == Low(key)
    ensures k == key
  {
    SubKeysSplit(k);
    SubKeysSplit(key);
  }

  /** A header that says the same about keys. */
  ghost predicate SameHeader(h: Header, h': Header) {
    && h'.nodeHeaderDepth == h.nodeHeaderDepth && h'.prefixLength == h.prefixLength
    && (h.prefixLength == 1 ==> PrefixBits(h'.prefixArray) == PrefixBits(h.prefixArray))
  }

  lemma InitHeaderSame(h: Header)
    requires h.prefixLength <= 1
    ensures SameHeader(h, InitHeader(h.prefixArray, h.prefixLength, h.nodeHeaderDepth))
  {
  }

  /** The root replaced by another node, possibly at another address. */
  function WithRoot(t: Tree, a: U48, v: NodeView): Tree {
    t.(root := a, nodes := (t.nodes - {t.root})[a := v])
  }

  /** The node at address a, moved to address a' with header h, holds e for k. */
  ghost function Rewritten(t: Tree, a: U48, a': U48, h: Header, k: U32, e: Entry): Tree {
    if a in t.nodes then t.(nodes := (t.nodes - {a})[a' := NodeView(h, t.nodes[a].entries[k := e])]) else t
  }

  lemma RewrittenSteps(t: Tree, a: U48, a': U48, h: Header, k: U32, e: Entry)
    requires a in t.nodes
    ensures Tree(t.root, (t.nodes - {a})[a' := NodeView(h, t.nodes[a].entries[k := e])], t.records) == Rewritten(t, a, a', h, k, e)
  {
  }

  /** A node that was moved by a doubling is linked in the slot of its parent, or as the root. */
  ghost function Relinked(t: Tree, a: U48, a': U48, header: Header, h: U32): Tree {
    if a' == a then t
    else if header.nodeHeaderDepth == 0 then t.(root := a')
    else if t.root in t.nodes then Rewritten(t, t.root, t.root, t.nodes[t.root].header, h, Entry(a', true))
    else t
  }

  /** Case 0: the first key gives the root its prefix. */
  lemma PrefixAssigned(t: Tree, key: U64, h: Header)
    requires TreeOk(t) && t.nodes[t.root].header.prefixLength == INIT_PREFIX_LENGTH
    requires h.prefixLength == 1 && h.nodeHeaderDepth == 0 && PrefixBits(h.prefixArray) == High(key)
    ensures SameMap(t, t.(nodes := t.nodes[t.root := t.nodes[t.root].(header := h)]))
  {
  }

  /** Case 2.1: a key under the root's prefix ends in the root. */
  lemma RootPut(t: Tree, key: U64, value: U64, a: U48, h: Header)
    requires TreeOk(t) && t.nodes[t.root].header.prefixLength == 1
    requires PrefixBits(t.nodes[t.root].header.prefixArray) == High(key)
    requires SameHeader(t.nodes[t.root].header, h)
    ensures Inserted(t, WithRoot(t, a, NodeView(h, t.nodes[t.root].entries[Low(key) := Stored(value, false)])), key, value)
  {
    var t' := WithRoot(t, a, NodeView(h, t.nodes[t.root].entries[Low(key) := Stored(value, false)]));
    forall k: U64 ensures Agree(Find(t', k), if k == key then Some(value) else Find(t, k)) {
      if High(k) == High(key) && Low(k) == Low(key) {
        SameKey(k, key);
      }
    }
  }

  /** Case 2.2.1: the first key of a high half becomes a record in the root. */
  lemma RecordAdded(t: Tree, key: U64, value: U64, rec: U48, a: U48, h: Header)
    requires TreeOk(t) && t.nodes[t.root].header.prefixLength == 0 && High(key) !in t.nodes[t.root].entries
    requires rec !in t.records && (a == t.root || a !in t.nodes)
    requires SameHeader(t.nodes[t.root].header, h)
    ensures Inserted(t, WithRoot(t.(records := t.records[rec := KeyValue(key, value)]), a,
                                 NodeView(h, t.nodes[t.root].entries[High(key) := Entry(rec, false)])), key, value)
  {
    var t' := WithRoot(t.(records := t.records[rec := KeyValue(key, value)]), a,
                       NodeView(h, t.nodes[t.root].entries[High(key) := Entry(rec, false)]));
    forall x | x in t'.nodes[a].entries ensures RootEntryOk(t', x, t'.nodes[a].entries[x]) {
      if x != High(key) { assert RootEntryOk(t, x, t.nodes[t.root].entries[x]); }
    }
    assert TreeOk(t');
    forall k: U64 ensures Agree(Find(t', k), if k == key then Some(value) else Find(t, k)) {
      if High(k) != High(key) && High(k) in t.nodes[t.root].entries {
        assert RootEntryOk(t, High(k), t.nodes[t.root].entries[High(k)]);
      }
    }
  }

  /** Case 2.2.3: a key that has a record gets a new value there. */
  lemma RecordUpdated(t: Tree, key: U64, value: U64)
    requires TreeOk(t) && t.nodes[t.root].header.prefixLength == 0 && High(key) in t.nodes[t.root].entries
    requires var e := t.nodes[t.root].entries[High(key)]; !e.nodeFlag && e.value in t.records && t.records[e.value].key == key
    ensures var rec := t.nodes[t.root].entries[High(key)].value;
      Inserted(t, t.(records := t.records[rec := KeyValue(key, value)]), key, value)
  {
    var rec := t.nodes[t.root].entries[High(key)].value;
    var t' := t.(records := t.records[rec := KeyValue(key, value)]);
    var entries := t.nodes[t.root].entries;
    forall x | x in entries ensures RootEntryOk(t', x, entries[x]) {
      assert RootEntryOk(t, x, entries[x]);
    }
    assert TreeOk(t');
    forall k: U64 ensures Agree(Find(t', k), if k == key then Some(value) else Find(t, k)) {
      if High(k) in entries {
        assert RootEntryOk(t, High(k), entries[High(k)]);
      }
    }
  }

  /** The root's entry for h now points to the child node at a, which is new or was h's before. */
  lemma EntryReplaced(t: Tree, t': Tree, h: U32, a: U48)
    requires TreeOk(t) && t.nodes[t.root].header.prefixLength == 0 && h in t.nodes[t.root].entries
    requires var e := t.nodes[t.root].entries[h]; (e.nodeFlag && a == e.value) || a !in t.nodes
    requires t'.root == t.root && t'.records == t.records && a != t.root && a in t'.nodes && t.root in t'.nodes
    requires t'.nodes[t.root] == t.nodes[t.root].(entries := t.nodes[t.root].entries[h := Entry(a, true)])
    requires forall b | b in t'.nodes && b != t.root :: ChildOk(t'.nodes[b])
    requires forall b | b in t.nodes :: b in t'.nodes || t.nodes[t.root].entries[h] == Entry(b, true)
    ensures TreeOk(t')
  {
    var r, entries := t.nodes[t.root], t'.nodes[t.root].entries;
    forall x | x in entries ensures RootEntryOk(t', x, entries[x]) {
      assert x in r.entries && RootEntryOk(t, x, r.entries[x]);
    }
    forall x, y | x in entries && y in entries && x != y && entries[x].nodeFlag && entries[y].nodeFlag
      ensures entries[x].value != entries[y].value
    {
      assert RootEntryOk(t, x, r.entries[x]) && RootEntryOk(t, y, r.entries[y]);
    }
  }

  /** Case 2.1 one level down: a key ends in a child node, which may have moved to a new address. */
  lemma ChildPut(t: Tree, key: U64, value: U64, a: U48, h: Header)
    requires TreeOk(t) && t.nodes[t.root].header.prefixLength == 0 && High(key) in t.nodes[t.root].entries
    requires t.nodes[t.root].entries[High(key)].nodeFlag
    requires a == t.nodes[t.root].entries[High(key)].value || a !in t.nodes
    requires h.prefixLength == 0 && h.nodeHeaderDepth == 1
    ensures t.nodes[t.root].entries[High(key)].value in t.nodes
    ensures Inserted(t, WithChild(t, High(key), a, h, Low(key), Stored(value, false)), key, value)
  {
    var r := t.nodes[t.root];
    var c := r.entries[High(key)].value;
    assert RootEntryOk(t, High(key), r.entries[High(key)]);
    var t' := WithChild(t, High(key), a, h, Low(key), Stored(value, false));
    assert ChildOk(t.nodes[c]);
    EntryReplaced(t, t', High(key), a);
    forall k: U64 ensures Agree(Find(t', k), if k == key then Some(value) else Find(t, k)) {
      ChildPutFind(t, key, value, a, h, k);
    }
  }

  lemma ChildPutFind(t: Tree, key: U64, value: U64, a: U48, h: Header, k: U64)
    requires TreeOk(t) && t.nodes[t.root].header.prefixLength == 0 && High(key) in t.nodes[t.root].entries
    requires t.nodes[t.root].entries[High(key)].nodeFlag && t.nodes[t.root].entries[High(key)].value in t.nodes
    requires a == t.nodes[t.root].entries[High(key)].value || a !in t.nodes
    requires h.prefixLength == 0 && h.nodeHeaderDepth == 1
    requires TreeOk(WithChild(t, High(key), a, h, Low(key), Stored(value, false)))
    ensures Agree(Find(WithChild(t, High(key), a, h, Low(key), Stored(value, false)), k), if k == key then Some(value) else Find(t, k))
  {
    var r := t.nodes[t.root];
    assert RootEntryOk(t, High(key), r.entries[High(key)]);
    if High(k) in r.entries { assert RootEntryOk(t, High(k), r.entries[High(k)]); }
    hide TreeOk;
    if High(k) == High(key) && Low(k) == Low(key) { SameKey(k, key); }
  }

  /** A child node with one more entry, at address a, and the root's entry for it re-linked. */
  ghost function WithChild(t: Tree, h: U32, a: U48, header: Header, l: U32, e: Entry): Tree
    requires t.root in t.nodes && h in t.nodes[t.root].entries && t.nodes[t.root].entries[h].value in t.nodes
  {
    var c, r := t.nodes[t.root].entries[h].value, t.nodes[t.root];
    t.(nodes := (t.nodes - {c})[a := NodeView(header, t.nodes[c].entries[l := e])][t.root := r.(entries := r.entries[h := Entry(a, true)])])
  }

  lemma NotMoved(t: Tree, a: U48, header: Header, h: U32)
    ensures Relinked(t, a, a, header, h) == t
  {
  }

  lemma RootMoved(t: Tree, a: U48, h: Header, k: U32, e: Entry, x: U32)
    requires t.root in t.nodes && h.nodeHeaderDepth == 0
    ensures Relinked(Rewritten(t, t.root, a, h, k, e), t.root, a, h, x) == WithRoot(t, a, NodeView(h, t.nodes[t.root].entries[k := e]))
  {
  }

  lemma ChildMoved(t: Tree, h: U32, a: U48, header: Header, l: U32, e: Entry)
    requires TreeOk(t) && t.nodes[t.root].header.prefixLength == 0 && h in t.nodes[t.root].entries
    requires t.nodes[t.root].entries[h].nodeFlag && header.nodeHeaderDepth == 1
    requires a == t.nodes[t.root].entries[h].value || a !in t.nodes
    ensures t.nodes[t.root].entries[h].value in t.nodes
    ensures var c := t.nodes[t.root].entries[h].value;
      Relinked(Rewritten(t, c, a, header, l, e), c, a, header, h) == WithChild(t, h, a, header, l, e)
  {
    assert RootEntryOk(t, h, t.nodes[t.root].entries[h]);
    var c, r := t.nodes[t.root].entries[h].value, t.nodes[t.root];
    if a == c {
      assert r.entries[h := Entry(a, true)] == r.entries;
    }
  }

  /** Case 2.2.4: a second key under the same high half pushes the record down into a new child node. */
  lemma PushedDown(t: Tree, key: U64, value: U64, a: U48, h: Header)
    requires TreeOk(t) && t.nodes[t.root].header.prefixLength == 0 && High(key) in t.nodes[t.root].entries
    requires var e := t.nodes[t.root].entries[High(key)]; !e.nodeFlag && e.value in t.records && t.records[e.value].key != key
    requires a !in t.nodes && h.prefixLength == 0 && h.nodeHeaderDepth == 1
    ensures Inserted(t, WithPushed(t, key, value, a, h), key, value)
  {
    var r := t.nodes[t.root];
    var kv := t.records[r.entries[High(key)].value];
    assert RootEntryOk(t, High(key), r.entries[High(key)]);
    if Low(kv.key) == Low(key) {
      SameKey(kv.key, key);
    }
    var t' := WithPushed(t, key, value, a, h);
    EntryReplaced(t, t', High(key), a);
    hide TreeOk;
    forall k: U64 ensures Agree(Find(t', k), if k == key then Some(value) else Find(t, k)) {
      if High(k) == High(key) {
        if Low(k) == Low(key) { SameKey(k, key); }
        if Low(k) == Low(kv.key) { SameKey(k, kv.key); }
      } else if High(k) in r.entries {
        assert RootEntryOk(t, High(k), r.entries[High(k)]);
      }
    }
  }

  ghost function WithPushed(t: Tree, key: U64, value: U64, a: U48, h: Header): Tree
    requires t.root in t.nodes && High(key) in t.nodes[t.root].entries && t.nodes[t.root].entries[High(key)].value in t.records
  {
    var r := t.nodes[t.root];
    var kv := t.records[r.entries[High(key)].value];
    t.(nodes := t.nodes[a := NodeView(h, map[Low(kv.key) := Stored(kv.value, false)][Low(key) := Stored(value, false)])]
                       [t.root := r.(entries := r.entries[High(key) := Entry(a, true)])])
  }

  /** The new child is linked first, then the root's entry for it is rewritten. */
  lemma PushedSteps(t: Tree, key: U64, value: U64, a: U48, h: Header)
    requires t.root in t.nodes && High(key) in t.nodes[t.root].entries && t.nodes[t.root].entries[High(key)].value in t.records
    requires a !in t.nodes
    ensures var kv := t.records[t.nodes[t.root].entries[High(key)].value];
      var v := NodeView(h, map[Low(kv.key) := Stored(kv.value, false)][Low(key) := Stored(value, false)]);
      Rewritten(t.(nodes := t.nodes[a := v]), t.root, t.root, t.nodes[t.root].header, High(key), Stored(a, true))
      == WithPushed(t, key, value, a, h)
  {
  }

  /** Case 3: a key outside the root's prefix puts a new root above the old one. */
  lemma PrefixSplit(t: Tree, key: U64, value: U64, rec: U48, a: U48, h: Header, h': Header)
    requires TreeOk(t) && t.nodes[t.root].header.prefixLength == 1
    requires PrefixBits(t.nodes[t.root].header.prefixArray) != High(key)
    requires rec !in t.records && a !in t.nodes
    requires h.prefixLength == 0 && h.nodeHeaderDepth == 0 && h'.prefixLength == 0 && h'.nodeHeaderDepth == 1
    ensures Inserted(t, WithNewRoot(t, key, value, rec, a, h, h'), key, value)
  {
    var t' := WithNewRoot(t, key, value, rec, a, h, h');
    assert TreeOk(t');
    forall k: U64 ensures Agree(Find(t', k), if k == key then Some(value) else Find(t, k)) {
      assert High(k) in t'.nodes[a].entries ==> RootEntryOk(t', High(k), t'.nodes[a].entries[High(k)]);
    }
  }

  ghost function WithNewRoot(t: Tree, key: U64, value: U64, rec: U48, a: U48, h: Header, h': Header): Tree
    requires t.root in t.nodes
  {
    var r := t.nodes[t.root];
    Tree(a, t.nodes[a := NodeView(h, map[High(key) := Entry(rec, false)][PrefixBits(r.header.prefixArray) := Entry(t.root, true)])]
                   [t.root := r.(header := h')],
         t.records[rec := KeyValue(key, value)])
  }

  /** A node as the new root, and another header for the old one. */
  ghost function RootAbove(t: Tree, a: U48, h': Header, v: NodeView): Tree {
    if t.root in t.nodes then Tree(a, t.nodes[t.root := t.nodes[t.root].(header := h')][a := v], t.records) else t
  }

  /** The record, the old root's header, the new root's node, and the root pointer are written in this order. */
  lemma NewRootSteps(t: Tree, key: U64, value: U64, rec: U48, a: U48, h: Header, h': Header, v: NodeView)
    requires t.root in t.nodes && a !in t.nodes
    requires v == NodeView(h, map[High(key) := Entry(rec, false)][PrefixBits(t.nodes[t.root].header.prefixArray) := Entry(t.root, true)])
    ensures var t1 := t.(records := t.records[rec := KeyValue(key, value)]);
      var t2 := t1.(nodes := t1.nodes[t.root := t.nodes[t.root].(header := h')]);
      t2.(nodes := t2.nodes[a := v]).(root := a) == WithNewRoot(t, key, value, rec, a, h, h')
    ensures RootAbove(t.(records := t.records[rec := KeyValue(key, value)]), a, h', v) == WithNewRoot(t, key, value, rec, a, h, h')
  {
  }
}
