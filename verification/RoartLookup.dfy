/** get as a function of memory, and what it answers: in a well-formed tree, and where the way of a key leads. */
module RoartLookups {
  import opened Bits
  import opened Options
  import opened Addresses
  import opened Prefixes
  import opened RoartKeys
  import opened RoartLayouts
  import opened RoartModel
  import opened RoartPrefixes
  import opened RoartStates

  ghost predicate Readable(nodes: map<Addr, Cell>, n: Addr, level: nat) {
    n in nodes && nodes[n].Node? && level <= nodes[n].level < KEY_LEN && PrefixShaped(nodes[n].prefix) && Shaped(nodes[n].layout)
  }

  /** A node's prefix, reached at a level, does not match a key. */
  ghost predicate Refuses(p: NodePrefix, nodeLevel: nat, fkey: seq<Byte>, level: nat)
    requires level <= nodeLevel <= |fkey|
  {
    p.prefixCount + level >= nodeLevel && StoredMismatch(p, nodeLevel, fkey, level)
  }

  /** A match there does not cover all bytes: the leaf's key has to be compared. */
  predicate Skips(p: NodePrefix, nodeLevel: nat, level: nat) {
    p.prefixCount + level < nodeLevel || p.prefixCount > MAX_STORED
  }

  /** The rest of get from a node on. */
  ghost function AnswerFrom(nodes: map<Addr, Cell>, key: U64, n: Addr, level: nat, optimistic: bool): Option<U64>
    decreases KEY_LEN - level
  {
    if !Readable(nodes, n, level) || Refuses(nodes[n].prefix, nodes[n].level, Bytes(key), level) then None
    else
      var nowOptimistic := optimistic || Skips(nodes[n].prefix, nodes[n].level, level);
      var child := Child(nodes[n].layout, Bytes(key)[nodes[n].level]);
      if child == NULL || child !in nodes then None
      else if nodes[child].Leaf? then
        if (nodes[n].level < KEY_LEN - 1 || nowOptimistic) && nodes[child].key != key then None else Some(nodes[child].value)
      else AnswerFrom(nodes, key, child, nodes[n].level + 1, nowOptimistic)
  }

  /** What get answers. */
  ghost function Answer(t: Tree, key: U64): Option<U64> {
    AnswerFrom(t.nodes, key, t.root, 0, false)
  }

  /** All that get reads on the way is in order. */
  ghost predicate WalkOk(nodes: map<Addr, Cell>, key: U64, n: Addr, level: nat)
    decreases KEY_LEN - level
  {
    && Readable(nodes, n, level)
    && (Refuses(nodes[n].prefix, nodes[n].level, Bytes(key), level) ||
        var child := Child(nodes[n].layout, Bytes(key)[nodes[n].level]);
        child == NULL || (child in nodes && (nodes[child].Leaf? || WalkOk(nodes, key, child, nodes[n].level + 1))))
  }

  lemma {:induction false} TreeWalks(t: Tree, key: U64, n: Addr)
    requires TreeOk(t) && IsNode(t, n)
    ensures WalkOk(t.nodes, key, n, |t.places[n].path|)
    decreases KEY_LEN - |t.places[n].path|
  {
    hide TreeOk;
    hide Bytes;
    hide Refuses;
    NodeAt(t, n);
    hide Shaped;
    var b := Bytes(key)[t.nodes[n].level];
    if Kid(t.nodes[n], b) != NULL {
      KidPlaced(t, n, b);
      var s := Kid(t.nodes[n], b);
      Link(t, n, b, s);
      InNodes(t, s);
      if t.nodes[s].Node? { TreeWalks(t, key, s); }
    }
  }

  // ----- the way to a place -----

  /** Node m lies above what sits at a path. */
  ghost predicate Passes(t: Tree, m: Addr, path: seq<Byte>) {
    IsNode(t, m) && Prefix(t.places[m].full, path) && |t.places[m].full| < |path| <= KEY_LEN && |t.places[m].path| <= |t.places[m].full|
  }

  /** The lookup of a key goes on at node m towards a path. */
  ghost predicate Takes(t: Tree, m: Addr, key: U64, path: seq<Byte>)
    requires Passes(t, m, path)
  {
    var level := |t.places[m].full|;
    !Refuses(t.nodes[m].prefix, level, Bytes(key), |t.places[m].path|) && Bytes(key)[level] == path[level]
  }

  ghost predicate LedTo(t: Tree, key: U64, path: seq<Byte>) {
    forall m | Passes(t, m, path) :: Takes(t, m, key, path)
  }

  /** Some node above skips bytes. */
  ghost predicate Blind(t: Tree, path: seq<Byte>) {
    exists m :: Passes(t, m, path) && Skips(t.nodes[m].prefix, |t.places[m].full|, |t.places[m].path|)
  }

  /** The lookup of a key ends at a leaf without a look at the leaf's key. */
  ghost predicate Spells(t: Tree, l: Addr, key: U64) {
    && l in t.places && l in t.nodes && t.nodes[l].Leaf? && |t.places[l].path| == KEY_LEN
    && LedTo(t, key, t.places[l].path) && !Blind(t, t.places[l].path)
  }

  lemma Passing(t: Tree, n: Addr, b: Byte, s: Addr)
    requires TreeOk(t) && IsParent(t, n, b, s)
    ensures s in t.places && Passes(t, n, t.places[s].path) && t.places[s].path[|t.places[n].full|] == b
  {
    hide TreeOk;
    hide Kid;
    Link(t, n, b, s);
  }

  /** What lies above a child: what lies above its parent, and the parent. */
  lemma PassesStep(t: Tree, n: Addr, b: Byte, s: Addr, m: Addr)
    requires TreeOk(t) && IsParent(t, n, b, s) && s in t.places && n in t.places
    ensures Passes(t, m, t.places[s].path) <==> Passes(t, m, t.places[n].path) || m == n
    ensures Passes(t, m, t.places[n].path) ==> t.places[s].path[|t.places[m].full|] == t.places[n].path[|t.places[m].full|]
  {
    hide TreeOk;
    hide Kid;
    hide LayoutOk;
    hide Bytes;
    Passing(t, n, b, s);
    Link(t, n, b, s);
    var path := t.places[s].path;
    if Passes(t, m, t.places[n].path) {
      PrefixTrans(t.places[m].full, t.places[n].path, path);
      PrefixAt(t.places[n].path, path);
    }
    if Passes(t, m, path) && m != n {
      NodeAt(t, m);
      PrefixTrans(t.places[m].path, t.places[m].full, path);
      if |t.places[n].path| <= |t.places[m].path| {
        PrefixChain(t.places[n].path, t.places[m].path, path);
        Descends(t, n, m);
      } else {
        PrefixChain(t.places[m].path, t.places[n].path, path);
        Descends(t, m, n);
      }
    }
  }

  lemma LedStep(t: Tree, n: Addr, b: Byte, s: Addr, key: U64)
    requires TreeOk(t) && IsParent(t, n, b, s) && s in t.places && n in t.places && IsNode(t, n)
    ensures Passes(t, n, t.places[s].path)
    ensures LedTo(t, key, t.places[s].path) <==> LedTo(t, key, t.places[n].path) && Takes(t, n, key, t.places[s].path)
    ensures Blind(t, t.places[s].path) <==> Blind(t, t.places[n].path) || Skips(t.nodes[n].prefix, |t.places[n].full|, |t.places[n].path|)
  {
    hide TreeOk;
    hide Kid;
    hide Bytes;
    hide Refuses;
    hide Skips;
    Passing(t, n, b, s);
    forall m ensures Passes(t, m, t.places[s].path) <==> Passes(t, m, t.places[n].path) || m == n
      ensures Passes(t, m, t.places[n].path) ==> t.places[s].path[|t.places[m].full|] == t.places[n].path[|t.places[m].full|]
    {
      PassesStep(t, n, b, s, m);
    }
  }

  /** Memory that is the tree's above a place. */
  ghost predicate SameAbove(t: Tree, nodes: map<Addr, Cell>, path: seq<Byte>) {
    forall m | Passes(t, m, path) :: m in nodes && nodes[m] == t.nodes[m]
  }

  /** A lookup that is led to a node gets there, and knows whether bytes were skipped. */
  lemma {:induction false} Reach(t: Tree, nodes: map<Addr, Cell>, key: U64, n: Addr)
    requires TreeOk(t) && IsNode(t, n) && LedTo(t, key, t.places[n].path) && SameAbove(t, nodes, t.places[n].path)
    requires n in nodes && nodes[n].Node?
    ensures AnswerFrom(nodes, key, t.root, 0, false) == AnswerFrom(nodes, key, n, |t.places[n].path|, Blind(t, t.places[n].path))
    decreases |t.places[n].path|
  {
    hide TreeOk;
    hide Kid;
    hide Bytes;
    hide Refuses;
    hide Skips;
    hide LedTo;
    hide Blind;
    Root(t);
    if n == t.root {
      RootBlind(t);
    } else {
      var p, c := Parent(t, n);
      Link(t, p, c, n);
      LedStep(t, p, c, n, key);
      forall m | Passes(t, m, t.places[p].path) ensures m in nodes && nodes[m] == t.nodes[m] {
        PassesStep(t, p, c, n, m);
      }
      Reach(t, nodes, key, p);
      TakesIt(t, p, key, t.places[n].path);
      StepOn(t, nodes, p, c, n, key, Blind(t, t.places[p].path));
    }
  }

  lemma TakesIt(t: Tree, m: Addr, key: U64, path: seq<Byte>)
    requires LedTo(t, key, path) && Passes(t, m, path)
    ensures Takes(t, m, key, path)
  {
  }

  lemma RootBlind(t: Tree)
    requires TreeOk(t)
    ensures t.root in t.places && t.places[t.root].path == [] && !Blind(t, [])
  {
    Root(t);
  }

  /** One step of a lookup to a node. */
  lemma StepOn(t: Tree, nodes: map<Addr, Cell>, p: Addr, c: Byte, n: Addr, key: U64, optimistic: bool)
    requires TreeOk(t) && IsNode(t, p) && IsParent(t, p, c, n) && IsNode(t, n) && Passes(t, p, t.places[n].path) && Takes(t, p, key, t.places[n].path)
    requires p in nodes && nodes[p] == t.nodes[p] && n in nodes && nodes[n].Node?
    ensures AnswerFrom(nodes, key, p, |t.places[p].path|, optimistic) ==
      AnswerFrom(nodes, key, n, |t.places[n].path|, optimistic || Skips(t.nodes[p].prefix, |t.places[p].full|, |t.places[p].path|))
  {
    hide TreeOk;
    hide Bytes;
    hide Refuses;
    hide Skips;
    NodeAt(t, p);
    Link(t, p, c, n);
    hide Shaped;
  }

  /** What a lookup that is led to a leaf answers. */
  lemma ReachLeaf(t: Tree, key: U64, l: Addr)
    requires TreeOk(t) && l in t.places && l in t.nodes && t.nodes[l].Leaf? && LedTo(t, key, t.places[l].path)
    ensures Answer(t, key) ==
      if (|t.places[l].path| < KEY_LEN || Blind(t, t.places[l].path)) && t.nodes[l].key != key then None else Some(t.nodes[l].value)
  {
    hide TreeOk;
    hide Bytes;
    hide Refuses;
    hide Skips;
    hide LedTo;
    hide Blind;
    LeafOfPlace(t, l);
    var p, c := Parent(t, l);
    Link(t, p, c, l);
    LedStep(t, p, c, l, key);
    NodeAt(t, p);
    Reach(t, t.nodes, key, p);
    hide Shaped;
  }

  /** A lookup that is not led to a node does not see what is in it. */
  lemma {:induction false} NotLed(t: Tree, nodes: map<Addr, Cell>, key: U64, n: Addr, m: Addr, optimistic: bool)
    requires TreeOk(t) && IsNode(t, n) && !LedTo(t, key, t.places[n].path) && n in nodes && nodes[n].Node?
    requires forall a | a in t.nodes && a != n :: a in nodes && nodes[a] == t.nodes[a]
    requires IsNode(t, m) && LedTo(t, key, t.places[m].path)
    ensures AnswerFrom(nodes, key, m, |t.places[m].path|, optimistic) == AnswerFrom(t.nodes, key, m, |t.places[m].path|, optimistic)
    decreases KEY_LEN - |t.places[m].path|
  {
    hide TreeOk;
    hide Bytes;
    hide Refuses;
    hide Skips;
    hide LedTo;
    NodeAt(t, m);
    hide Shaped;
    var b := Bytes(key)[|t.places[m].full|];
    var s := Kid(t.nodes[m], b);
    if s != NULL {
      KidPlaced(t, m, b);
      Link(t, m, b, s);
      InNodes(t, s);
      LedStep(t, m, b, s, key);
      if t.nodes[s].Node? && Takes(t, m, key, t.places[s].path) {
        NotLed(t, nodes, key, n, s, optimistic || Skips(t.nodes[m].prefix, |t.places[m].full|, |t.places[m].path|));
      }
    }
  }

  // ----- what get answers in a well-formed tree -----

  /** A present key is found exactly if no node on its way turns it away. */
  lemma {:induction false} AnswerHas(t: Tree, key: U64, n: Addr, optimistic: bool)
    requires TreeOk(t) && IsNode(t, n) && Has(t, key) && Prefix(t.places[n].path, Bytes(key)) && FreeAbove(t, key, |t.places[n].path|)
    ensures key in Contents(t)
    ensures AnswerFrom(t.nodes, key, n, |t.places[n].path|, optimistic) == if Turned(t, key) then None else Some(Contents(t)[key])
    decreases KEY_LEN - |t.places[n].path|
  {
    hide TreeOk;
    hide Contents;
    hide Bytes;
    hide StoredMismatch;
    hide TurnsAway;
    hide Turned;
    hide FreeAbove;
    hide Has;
    NodeAt(t, n);
    Through(t, n, key);
    HasIn(t, key);
    if t.nodes[n].prefix.prefixCount + |t.places[n].path| < |t.places[n].full| {
      ShortHonest(t.nodes[n].prefix, t.places[n]);
    } else {
      BelowMatches(t.nodes[n].prefix, t.places[n], Bytes(key));
    }
    hide Shaped;
    if TurnsAway(t.nodes[n].prefix, t.places[n]) {
      Missed(t, n, key);
    } else {
      NextFree(t, n, key);
      var b := Bytes(key)[|t.places[n].full|];
      var s := Kid(t.nodes[n], b);
      KidPlaced(t, n, b);
      Link(t, n, b, s);
      InNodes(t, s);
      if t.nodes[s].Leaf? {
        LeafOfPlace(t, s);
        if t.nodes[s].key != key { OtherKey(t, s, key); }
        LeafAnswers(t, s, key);
      } else {
        AnswerHas(t, key, s, optimistic || Skips(t.nodes[n].prefix, |t.places[n].full|, |t.places[n].path|));
      }
    }
  }

  lemma HasIn(t: Tree, key: U64)
    requires TreeOk(t) && Has(t, key)
    ensures key in Contents(t)
  {
    var a :| LeafAt(t, a, key);
    AtLeaf(t, a, key);
  }

  /** A lookup that finds something, though the key is absent, ends at a leaf that it does not look at. */
  lemma {:induction false} Lands(t: Tree, key: U64, n: Addr) returns (l: Addr)
    requires TreeOk(t) && IsNode(t, n) && !Has(t, key) && LedTo(t, key, t.places[n].path)
    requires AnswerFrom(t.nodes, key, n, |t.places[n].path|, Blind(t, t.places[n].path)).Some?
    ensures Spells(t, l, key)
    decreases KEY_LEN - |t.places[n].path|
  {
    hide TreeOk;
    hide Bytes;
    hide Refuses;
    hide Skips;
    hide LedTo;
    hide Blind;
    hide Has;
    NodeAt(t, n);
    hide Shaped;
    var b := Bytes(key)[|t.places[n].full|];
    var s := Kid(t.nodes[n], b);
    KidPlaced(t, n, b);
    Link(t, n, b, s);
    InNodes(t, s);
    LedStep(t, n, b, s, key);
    if t.nodes[s].Leaf? {
      NotItsKey(t, s, key);
      l := s;
    } else {
      l := Lands(t, key, s);
    }
  }

  lemma NotItsKey(t: Tree, l: Addr, key: U64)
    requires TreeOk(t) && !Has(t, key) && l in t.places && l in t.nodes && t.nodes[l].Leaf?
    ensures t.nodes[l].key != key
  {
    hide TreeOk;
    assert !LeafAt(t, l, key);
  }

  /**
   get, exactly: a present key is found unless a node on its way turns it away; an absent one finds the value of a leaf if and
   only if the bytes that the way to the leaf compares, and no others lie on it, are the key's.
   */
  lemma AnswerExactly(t: Tree, key: U64)
    requires TreeOk(t)
    ensures key in Contents(t) ==> Answer(t, key) == if Turned(t, key) then None else Some(Contents(t)[key])
    ensures key !in Contents(t) ==> (Answer(t, key) == None <==> forall l :: !Spells(t, l, key))
    ensures key !in Contents(t) ==> forall l | Spells(t, l, key) :: Answer(t, key) == Some(t.nodes[l].value)
  {
    hide TreeOk;
    hide Contents;
    hide Bytes;
    hide AnswerFrom;
    hide Turned;
    hide FreeAbove;
    hide LedTo;
    hide Blind;
    hide Has;
    Root(t);
    RootFree(t, key);
    RootBlind(t);
    if key in Contents(t) {
      HasKey(t, key);
      AnswerHas(t, key, t.root, false);
    } else {
      if Has(t, key) { HasIn(t, key); }
      forall l | Spells(t, l, key) ensures Answer(t, key) == Some(t.nodes[l].value) {
        ReachLeaf(t, key, l);
      }
      if Answer(t, key).Some? {
        LedRoot(t, key);
        var l := Lands(t, key, t.root);
      }
    }
  }

  lemma LedRoot(t: Tree, key: U64)
    ensures LedTo(t, key, [])
  {
  }

  /** A lookup that skips no byte, in a tree whose nodes turn nobody away, is led to its own bytes only. */
  lemma {:induction false} LedSame(t: Tree, key: U64, n: Addr)
    requires TreeOk(t) && Honest(t) && n in t.places && LedTo(t, key, t.places[n].path) && !Blind(t, t.places[n].path)
    ensures Prefix(t.places[n].path, Bytes(key))
    decreases |t.places[n].path|
  {
    hide TreeOk;
    hide Kid;
    hide Bytes;
    hide LedTo;
    hide Blind;
    hide StoredMismatch;
    hide TurnsAway;
    InNodes(t, n);
    if n == t.root {
      RootBlind(t);
    } else {
      var p, c := Parent(t, n);
      Link(t, p, c, n);
      LedStep(t, p, c, n, key);
      NodeAt(t, p);
      LedSame(t, key, p);
      MatchWhole(t.nodes[p].prefix, t.places[p], Bytes(key));
      PrefixNext(t.places[p].full, Bytes(key));
    }
  }

  lemma MatchWhole(p: NodePrefix, place: Place, fkey: seq<Byte>)
    requires PrefixShaped(p) && Prefix(place.path, place.full) && |place.full| < |fkey| && Prefix(place.path, fkey) && !TurnsAway(p, place)
    requires !Skips(p, |place.full|, |place.path|) && !Refuses(p, |place.full|, fkey, |place.path|)
    ensures Prefix(place.full, fkey)
  {
    hide TurnsAway;
    hide StoredMismatch;
    MatchMeans(p, place, fkey);
    var full, level := place.full, |place.path|;
    assert fkey[..|full|] == fkey[..level] + fkey[level..|full|] == full[..level] + full[level..] == full;
  }

  /** So get is right for all keys in such a tree. */
  lemma HonestAnswers(t: Tree, key: U64)
    requires TreeOk(t) && Honest(t)
    ensures Answer(t, key) == Lookup(Contents(t), key)
  {
    hide TreeOk;
    hide Contents;
    hide Bytes;
    hide Answer;
    hide LedTo;
    hide Blind;
    hide Honest;
    AnswerExactly(t, key);
    HonestExactly(t);
    forall l ensures Spells(t, l, key) ==> key in Contents(t) {
      if Spells(t, l, key) {
        LedSame(t, key, l);
        LeafOfPlace(t, l);
        WholeKey(t, l, key);
        AtLeaf(t, l, key);
      }
    }
  }
}
