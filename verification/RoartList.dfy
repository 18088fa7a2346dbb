/** Sorted lists of a ROART tree's entries: what a range lookup gathers, subtree by subtree, cut off at a size. */
module RoartLists {
  import opened Bits
  import opened Addresses
  import opened Prefixes
  import opened RoartKeys
  import opened RoartLayouts
  import opened RoartModel

  type Entries = seq<(U64, U64)>

  ghost predicate Ascending(kvs: Entries) {
    forall i, j | 0 <= i < j < |kvs| :: kvs[i].0 < kvs[j].0
  }

  /** An entry of the tree with key in ks under a path. */
  ghost predicate Listed(t: Tree, path: seq<Byte>, ks: iset<U64>, key: U64)
    requires TreeOk(t)
  {
    key in Contents(t) && Prefix(path, Bytes(key)) && key in ks
  }

  /** kvs holds exactly these entries, in strictly ascending order. */
  ghost predicate Lists(t: Tree, path: seq<Byte>, ks: iset<U64>, kvs: Entries)
    requires TreeOk(t)
  {
    && Ascending(kvs)
    && (forall i | 0 <= i < |kvs| :: Listed(t, path, ks, kvs[i].0) && Contents(t)[kvs[i].0] == kvs[i].1)
    && (forall key | Listed(t, path, ks, key) :: (key, Contents(t)[key]) in kvs)
  }

  /** As Lists, for the keys whose byte after full is below c. */
  ghost predicate ListsBelow(t: Tree, full: seq<Byte>, c: nat, ks: iset<U64>, kvs: Entries)
    requires TreeOk(t) && |full| < KEY_LEN
  {
    && Ascending(kvs)
    && (forall i | 0 <= i < |kvs| ::
          Listed(t, full, ks, kvs[i].0) && Bytes(kvs[i].0)[|full|] < c && Contents(t)[kvs[i].0] == kvs[i].1)
    && (forall key | Listed(t, full, ks, key) && Bytes(key)[|full|] < c :: (key, Contents(t)[key]) in kvs)
  }

  /** Where entries that qualify stop being those that were asked for. */
  function Taken(all: Entries, limit: nat): Entries {
    if |all| <= limit then all else all[..limit]
  }

  /** The state of a lookup that met the entries of all. */
  ghost predicate Emitted(all: Entries, limit: nat, res: Entries, more: bool) {
    res == Taken(all, limit) && (more <==> |all| > limit)
  }

  /** The same keys under a path, by other bounds. */
  lemma Widened(t: Tree, path: seq<Byte>, ks: iset<U64>, ks': iset<U64>, kvs: Entries)
    requires TreeOk(t) && Lists(t, path, ks, kvs)
    requires forall key | key in Contents(t) && Prefix(path, Bytes(key)) :: key in ks <==> key in ks'
    ensures Lists(t, path, ks', kvs)
  {
    hide TreeOk;
    hide Contents;
    hide Bytes;
    forall key | Listed(t, path, ks', key) ensures (key, Contents(t)[key]) in kvs {
      assert Listed(t, path, ks, key);
    }
  }

  lemma ListsNothing(t: Tree, path: seq<Byte>, ks: iset<U64>)
    requires TreeOk(t) && forall key | key in Contents(t) && Prefix(path, Bytes(key)) :: !(key in ks)
    ensures Lists(t, path, ks, [])
  {
  }

  /** The entries below the next child follow all entries below the earlier ones. */
  lemma ListsNext(t: Tree, n: Addr, c: nat, b: Byte, ks: iset<U64>, before: Entries, more: Entries)
    requires TreeOk(t) && n in t.places && n in t.nodes && t.nodes[n].Node? && |t.places[n].full| < KEY_LEN
    requires ListsBelow(t, t.places[n].full, c, ks, before) && c <= b
    requires forall y: Byte | c <= y < b :: Kid(t.nodes[n], y) == NULL
    requires Lists(t, t.places[n].full + [b], ks, more)
    ensures ListsBelow(t, t.places[n].full, b + 1, ks, before + more)
  {
    hide TreeOk;
    hide Contents;
    hide Bytes;
    hide Kid;
    var full, kvs := t.places[n].full, before + more;
    forall i | 0 <= i < |more| ensures Prefix(full, Bytes(more[i].0)) && Bytes(more[i].0)[|full|] == b && Listed(t, full, ks, more[i].0) {
      assert Listed(t, full + [b], ks, more[i].0);
      PrefixLast(full, b, Bytes(more[i].0));
    }
    forall i, j | 0 <= i < j < |kvs| ensures kvs[i].0 < kvs[j].0 {
      if i < |before| <= j {
        assert Listed(t, full, ks, before[i].0);
        BytesOrder(before[i].0, more[j - |before|].0, |full|);
      }
    }
    forall key | Listed(t, full, ks, key) && Bytes(key)[|full|] < b + 1 ensures (key, Contents(t)[key]) in kvs {
      BelowHasKid(t, n, key);
      if Bytes(key)[|full|] == b {
        PrefixNext(full, Bytes(key));
        assert Listed(t, full + [b], ks, key);
      }
    }
  }

  lemma BelowHasKid(t: Tree, n: Addr, key: U64)
    requires TreeOk(t) && n in t.places && n in t.nodes && t.nodes[n].Node?
    requires key in Contents(t) && Prefix(t.places[n].full, Bytes(key))
    ensures |t.places[n].full| < KEY_LEN && Kid(t.nodes[n], Bytes(key)[|t.places[n].full|]) != NULL
  {
    hide TreeOk;
    hide Contents;
    hide Bytes;
    HasKey(t, key);
    PathPrefix(t, n);
    PrefixTrans(t.places[n].path, t.places[n].full, Bytes(key));
    Through(t, n, key);
  }

  lemma ListsAll(t: Tree, n: Addr, c: nat, ks: iset<U64>, kvs: Entries)
    requires TreeOk(t) && n in t.places && n in t.nodes && t.nodes[n].Node? && |t.places[n].full| < KEY_LEN
    requires ListsBelow(t, t.places[n].full, c, ks, kvs)
    requires forall b: Byte | b >= c && Kid(t.nodes[n], b) != NULL :: NoneWith(t, t.places[n].full + [b], ks)
    ensures Lists(t, t.places[n].path, ks, kvs)
  {
    hide TreeOk;
    hide Contents;
    hide Bytes;
    hide Kid;
    var p := t.places[n];
    PathPrefix(t, n);
    forall i | 0 <= i < |kvs| ensures Listed(t, p.path, ks, kvs[i].0) {
      assert Listed(t, p.full, ks, kvs[i].0);
      PrefixTrans(p.path, p.full, Bytes(kvs[i].0));
    }
    forall key | Listed(t, p.path, ks, key) ensures (key, Contents(t)[key]) in kvs {
      HasKey(t, key);
      Through(t, n, key);
      assert Listed(t, p.full, ks, key);
      BelowHasKid(t, n, key);
      PrefixNext(p.full, Bytes(key));
    }
  }

  /** No key under a path lies between the bounds. */
  ghost predicate NoneWith(t: Tree, path: seq<Byte>, ks: iset<U64>)
    requires TreeOk(t)
  {
    forall key | key in Contents(t) && Prefix(path, Bytes(key)) :: !(key in ks)
  }

  lemma ListsLeaf(t: Tree, n: Addr, ks: iset<U64>)
    requires TreeOk(t) && n in t.places && n in t.nodes && t.nodes[n].Leaf?
    ensures Lists(t, t.places[n].path, ks, if t.nodes[n].key in ks then [(t.nodes[n].key, t.nodes[n].value)] else [])
  {
    hide TreeOk;
    hide Contents;
    hide Bytes;
    LeafOfPlace(t, n);
    AtLeaf(t, n, t.nodes[n].key);
    forall key | key in Contents(t) && Prefix(t.places[n].path, Bytes(key)) ensures key == t.nodes[n].key {
      HasKey(t, key);
      if key != t.nodes[n].key { OtherKey(t, n, key); }
    }
  }

  lemma EmittedStart(met: Entries, limit: nat, res: Entries)
    requires Emitted(met, limit, res, false)
    ensures Emitted(met + [], limit, res, false)
  {
    assert met + [] == met;
  }

  lemma EmittedOne(met: Entries, limit: nat, res: Entries, e: (U64, U64))
    requires Emitted(met, limit, res, false)
    ensures |res| == limit ==> Emitted(met + [e], limit, res, true)
    ensures |res| != limit ==> Emitted(met + [e], limit, res + [e], false)
  {
    assert |res| == limit ==> (met + [e])[..limit] == met;
  }

  lemma EmittedNext(met: Entries, got: Entries, next: Entries, limit: nat, res: Entries, more: bool)
    requires Emitted(met + got + next, limit, res, more)
    ensures Emitted(met + (got + next), limit, res, more)
  {
    assert met + got + next == met + (got + next);
  }

  // ----- lists exist -----

  lemma {:induction false} Greatest(s: set<U64>) returns (m: U64)
    requires s != {}
    ensures m in s && forall k | k in s :: k <= m
  {
    m :| m in s;
    if s != {m} {
      var m' := Greatest(s - {m});
      assert forall k | k in s :: k == m || k in s - {m};
      m := if m' > m then m' else m;
    }
  }

  lemma {:induction false} SortedOf(m: map<U64, U64>, s: set<U64>) returns (kvs: Entries)
    requires s <= m.Keys
    ensures Ascending(kvs)
    ensures forall i | 0 <= i < |kvs| :: kvs[i].0 in s && m[kvs[i].0] == kvs[i].1
    ensures forall key | key in s :: (key, m[key]) in kvs
  {
    if s == {} {
      kvs := [];
    } else {
      var k := Greatest(s);
      kvs := SortedOf(m, s - {k});
      kvs := kvs + [(k, m[k])];
    }
  }

  lemma SomeList(t: Tree, path: seq<Byte>, ks: iset<U64>) returns (kvs: Entries)
    requires TreeOk(t)
    ensures Lists(t, path, ks, kvs)
  {
    hide TreeOk;
    hide Bytes;
    var s := set key | key in Contents(t) && Prefix(path, Bytes(key)) && key in ks;
    kvs := SortedOf(Contents(t), s);
    hide Contents;
  }

  /** What comes after the children below byte c. */
  lemma {:induction false} Rest(t: Tree, n: Addr, c: nat, ks: iset<U64>, got: Entries) returns (rest: Entries)
    requires TreeOk(t) && n in t.places && n in t.nodes && t.nodes[n].Node? && |t.places[n].full| < KEY_LEN && c <= 256
    requires ListsBelow(t, t.places[n].full, c, ks, got)
    ensures ListsBelow(t, t.places[n].full, 256, ks, got + rest)
    decreases 256 - c
  {
    hide TreeOk;
    hide Contents;
    hide Bytes;
    hide ListsBelow;
    hide Lists;
    if c == 256 {
      assert got + [] == got;
      return [];
    }
    var next := SomeList(t, t.places[n].full + [c], ks);
    ListsNext(t, n, c, c, ks, got, next);
    rest := Rest(t, n, c + 1, ks, got + next);
    assert got + next + rest == got + (next + rest);
    rest := next + rest;
  }

  /** Once a lookup is full it stays as it is. */
  lemma EmittedFull(all: Entries, limit: nat, res: Entries, rest: Entries)
    requires Emitted(all, limit, res, true)
    ensures Emitted(all + rest, limit, res, true)
  {
    assert (all + rest)[..limit] == all[..limit];
  }

  // ----- the children of a node, one after another -----

  lemma Ordered(children: Children, j: nat, i: nat)
    requires InOrder(children) && j < |children| && i <= |children|
    ensures j < i ==> children[j].0 <= children[i - 1].0
    ensures i <= j ==> children[i].0 <= children[j].0
  {
  }

  /** What getChildren returned for a node. */
  ghost predicate ChildrenOf(t: Tree, n: Addr, lo: Byte, hi: Byte, children: Children) {
    n in t.places && n in t.nodes && t.nodes[n].Node? && |t.places[n].full| < KEY_LEN && LayoutOk(t.nodes[n].layout)
    && InOrder(children) && Holds(t.nodes[n].layout, lo, hi, Live(t.nodes[n].layout), children)
  }

  /** The first byte behind the children met so far. */
  function Behind(lo: Byte, children: Children, i: nat): nat
    requires i <= |children|
  {
    if i == 0 then lo as nat else children[i - 1].0 as nat + 1
  }

  /** Between two neighbours that getChildren returns there is no child. */
  lemma Gap(t: Tree, n: Addr, lo: Byte, hi: Byte, children: Children, i: nat)
    requires TreeOk(t) && ChildrenOf(t, n, lo, hi, children) && i <= |children|
    ensures forall y: Byte | lo <= y <= hi && (i == 0 || children[i - 1].0 < y) && (i == |children| || y < children[i].0) :: Kid(t.nodes[n], y) == NULL
    ensures i < |children| ==> lo <= children[i].0 <= hi && Kid(t.nodes[n], children[i].0) == children[i].1 != NULL
  {
    hide TreeOk;
    NodeAt(t, n);
    var l := t.nodes[n].layout;
    forall y: Byte | lo <= y <= hi && (i == 0 || children[i - 1].0 < y) && (i == |children| || y < children[i].0) ensures Kid(t.nodes[n], y) == NULL {
      if y in Live(l) {
        var j :| 0 <= j < |children| && children[j].0 == y;
        Ordered(children, j, i);
      }
    }
  }

  lemma ListsStart(t: Tree, full: seq<Byte>, c: nat, ks: iset<U64>)
    requires TreeOk(t) && |full| < KEY_LEN && forall key | Listed(t, full, ks, key) :: Bytes(key)[|full|] >= c
    ensures ListsBelow(t, full, c, ks, [])
  {
  }

  /** One child of the loop over children. */
  lemma Step(t: Tree, n: Addr, lo: Byte, hi: Byte, children: Children, i: nat, ks: iset<U64>, got: Entries, next: Entries)
    requires TreeOk(t) && ChildrenOf(t, n, lo, hi, children) && i < |children|
    requires ListsBelow(t, t.places[n].full, Behind(lo, children, i), ks, got)
    requires Lists(t, t.places[n].full + [children[i].0], ks, next)
    ensures ListsBelow(t, t.places[n].full, Behind(lo, children, i + 1), ks, got + next)
  {
    hide TreeOk;
    hide Contents;
    hide Bytes;
    hide Kid;
    hide LayoutOk;
    hide ListsBelow;
    hide Lists;
    Gap(t, n, lo, hi, children, i);
    hide ChildrenOf;
    ListsNext(t, n, Behind(lo, children, i), children[i].0, ks, got, next);
  }

  /** The end of the loop over children, early or not. */
  lemma Finish(t: Tree, n: Addr, c: nat, ks: iset<U64>, got: Entries, met: Entries, limit: nat, res: Entries, more: bool) returns (all: Entries)
    requires TreeOk(t) && n in t.places && n in t.nodes && t.nodes[n].Node? && |t.places[n].full| < KEY_LEN && c <= 256
    requires ListsBelow(t, t.places[n].full, c, ks, got) && Emitted(met + got, limit, res, more)
    requires !more ==> forall b: Byte | b >= c && Kid(t.nodes[n], b) != NULL :: NoneWith(t, t.places[n].full + [b], ks)
    ensures Lists(t, t.places[n].path, ks, all) && Emitted(met + all, limit, res, more)
  {
    hide TreeOk;
    hide Contents;
    hide Bytes;
    hide Kid;
    hide ListsBelow;
    hide NoneWith;
    if more {
      var rest := Rest(t, n, c, ks, got);
      ListsAll(t, n, 256, ks, got + rest);
      EmittedFull(met + got, limit, res, rest);
      assert met + got + rest == met + (got + rest);
      all := got + rest;
    } else {
      ListsAll(t, n, c, ks, got);
      all := got;
    }
  }

  // ----- the first entries, and how many -----

  ghost function KeysOf(kvs: Entries): set<U64> {
    set i | 0 <= i < |kvs| :: kvs[i].0
  }

  lemma {:induction false} KeysCount(kvs: Entries)
    requires Ascending(kvs)
    ensures |KeysOf(kvs)| == |kvs|
  {
    if kvs != [] {
      var n := |kvs| - 1;
      KeysCount(kvs[..n]);
      forall k | k in KeysOf(kvs) ensures k in KeysOf(kvs[..n]) + {kvs[n].0} {
        var i :| 0 <= i < |kvs| && kvs[i].0 == k;
        if i < n { assert kvs[..n][i].0 == k; }
      }
      forall k | k in KeysOf(kvs[..n]) ensures k in KeysOf(kvs) && k != kvs[n].0 {
        var i :| 0 <= i < n && kvs[..n][i].0 == k;
        assert kvs[i].0 == k;
      }
      assert KeysOf(kvs) == KeysOf(kvs[..n]) + {kvs[n].0};
    }
  }

  /**
   The first entries of ks, limit of them at most, in ascending order; more tells whether there are others,
   and then those are greater than all that were returned.
   */
  ghost predicate FirstEntries(t: Tree, ks: iset<U64>, limit: nat, result: Entries, more: bool)
    requires TreeOk(t)
  {
    && Ascending(result) && |result| <= limit
    && (forall i | 0 <= i < |result| :: Listed(t, [], ks, result[i].0) && Contents(t)[result[i].0] == result[i].1)
    && (forall key | Listed(t, [], ks, key) ::
          (key, Contents(t)[key]) in result || (more && forall i | 0 <= i < |result| :: result[i].0 < key))
    && (more ==> |result| == limit && exists key :: Listed(t, [], ks, key) && (key, Contents(t)[key]) !in result)
  }

  lemma FirstOf(t: Tree, ks: iset<U64>, limit: nat, all: Entries, result: Entries, more: bool)
    requires TreeOk(t) && Lists(t, [], ks, all) && result == Taken(all, limit) && (more <==> |all| > limit)
    ensures FirstEntries(t, ks, limit, result, more)
  {
    hide TreeOk;
    hide Contents;
    hide Bytes;
    assert forall x | 0 <= x < |result| :: result[x] in result && result[x] == all[x];
    forall key | Listed(t, [], ks, key) && (key, Contents(t)[key]) !in result ensures more && forall i | 0 <= i < |result| :: result[i].0 < key {
      var j :| 0 <= j < |all| && all[j] == (key, Contents(t)[key]);
    }
    if more {
      var e := all[limit];
      assert Listed(t, [], ks, e.0);
      forall i | 0 <= i < |result| ensures result[i] != e {
        assert all[i].0 < all[limit].0;
      }
    }
  }

  lemma NothingYet(limit: nat)
    ensures Emitted([], limit, [], false)
  {
  }

  lemma EmittedMeans(all: Entries, limit: nat, res: Entries, more: bool)
    requires Emitted(all, limit, res, more)
    ensures res == Taken(all, limit) && (more <==> |all| > limit)
  {
  }

  lemma EmittedCount(met: Entries, got: Entries, limit: nat, res: Entries, more: bool)
    requires Emitted(met + got, limit, res, more)
    ensures more <==> |got| > limit - |met|
  {
  }

  lemma EmittedFits(met: Entries, limit: nat, res: Entries)
    requires Emitted(met, limit, res, false)
    ensures |met| <= limit
  {
  }

  /** No child in between: the same list. */
  lemma ListsUpTo(t: Tree, n: Addr, c: nat, b: Byte, ks: iset<U64>, got: Entries)
    requires TreeOk(t) && n in t.places && n in t.nodes && t.nodes[n].Node? && |t.places[n].full| < KEY_LEN && c <= b
    requires ListsBelow(t, t.places[n].full, c, ks, got) && forall y: Byte | c <= y < b :: Kid(t.nodes[n], y) == NULL
    ensures ListsBelow(t, t.places[n].full, b, ks, got)
  {
    hide TreeOk;
    hide Contents;
    hide Bytes;
    hide Kid;
    var full := t.places[n].full;
    forall key | Listed(t, full, ks, key) && Bytes(key)[|full|] < b ensures (key, Contents(t)[key]) in got {
      BelowHasKid(t, n, key);
    }
  }

  /** A list of all that qualifies below a cell is a list of all that qualifies, if the rest does not. */
  lemma FirstBelow(t: Tree, path: seq<Byte>, ks: iset<U64>, ks': iset<U64>, limit: nat, all: Entries, result: Entries, more: bool)
    requires TreeOk(t) && Lists(t, path, ks, all) && Emitted(all, limit, result, more)
    requires forall key :: Listed(t, [], ks', key) <==> Listed(t, path, ks, key)
    ensures FirstEntries(t, ks', limit, result, more)
  {
    hide TreeOk;
    hide Contents;
    hide Bytes;
    hide Listed;
    assert Lists(t, [], ks', all);
    hide Lists;
    EmittedMeans(all, limit, result, more);
    FirstOf(t, ks', limit, all, result, more);
  }
}
