/**
 The way of a range's bound through a ROART tree, right prefixes or not: which bytes of a key a walk sees, where a bound leads, and
 where it meets a prefix that is too short.
 */
module RoartWays {
  import opened Counting
  import opened Bits
  import opened Addresses
  import opened Prefixes
  import opened RoartKeys
  import opened RoartLayouts
  import opened RoartModel
  import opened RoartPrefixes
  import opened RoartStates
  import opened RoartLookups
  import opened RoartLists

  /** A node whose prefix is too short, left over from a merge that stopped half-way. */
  ghost predicate Short(t: Tree, n: Addr) {
    IsNode(t, n) && t.nodes[n].prefix.prefixCount + |t.places[n].path| < |t.places[n].full|
  }

  /** A node whose bytes a walk compares with a bound. */
  ghost predicate Compared(t: Tree, n: Addr) {
    && IsNode(t, n) && PrefixShaped(t.nodes[n].prefix) && |t.places[n].path| <= |t.places[n].full| < KEY_LEN
    && |t.places[n].full| <= t.nodes[n].prefix.prefixCount + |t.places[n].path|
  }

  /** What it compares of them. */
  ghost function SeenPart(t: Tree, n: Addr): (s: seq<Byte>)
    requires Compared(t, n)
    ensures |s| == |t.places[n].full| - |t.places[n].path|
  {
    Seen(t.nodes[n].prefix, t.places[n])[|t.places[n].path|..]
  }

  lemma ComparedOrShort(t: Tree, n: Addr)
    requires TreeOk(t) && IsNode(t, n)
    ensures Compared(t, n) <==> !Short(t, n)
    ensures |t.places[n].path| <= |t.places[n].full| < KEY_LEN
  {
    hide TreeOk;
    NodeAt(t, n);
  }

  ghost predicate Steps(t: Tree, n: Addr, b: Byte, c: Addr) {
    IsParent(t, n, b, c) && c in t.places && c in t.nodes && |t.places[c].path| == |t.places[n].full| + 1 <= KEY_LEN
  }

  lemma ParentSteps(t: Tree, n: Addr, b: Byte, c: Addr)
    requires TreeOk(t) && IsParent(t, n, b, c)
    ensures Steps(t, n, b, c)
  {
    hide TreeOk;
    hide Kid;
    Link(t, n, b, c);
    InNodes(t, c);
  }

  /** The bytes of a key from a cell on, as a walk sees them. */
  ghost function SeenFrom(t: Tree, n: Addr, key: U64): (s: seq<Byte>)
    requires n in t.places && n in t.nodes && |t.places[n].path| <= KEY_LEN
    ensures |s| == KEY_LEN - |t.places[n].path|
    decreases KEY_LEN - |t.places[n].path|
  {
    if Compared(t, n) && Steps(t, n, Bytes(key)[|t.places[n].full|], Kid(t.nodes[n], Bytes(key)[|t.places[n].full|])) then
      var b := Bytes(key)[|t.places[n].full|];
      SeenPart(t, n) + [b] + SeenFrom(t, Kid(t.nodes[n], b), key)
    else Bytes(key)[|t.places[n].path|..]
  }

  lemma SeenStep(t: Tree, n: Addr, key: U64, c: Addr)
    requires TreeOk(t) && Compared(t, n) && IsParent(t, n, Bytes(key)[|t.places[n].full|], c)
    ensures c in t.places && c in t.nodes && |t.places[c].path| == |t.places[n].full| + 1 <= KEY_LEN
    ensures SeenFrom(t, n, key) == SeenPart(t, n) + [Bytes(key)[|t.places[n].full|]] + SeenFrom(t, c, key)
  {
    hide TreeOk;
    hide Kid;
    hide Bytes;
    hide SeenPart;
    ParentSteps(t, n, Bytes(key)[|t.places[n].full|], c);
  }

  /** A walk sees a key's own bytes, if no node on the key's way turns it away. */
  lemma {:induction false} SeenRight(t: Tree, n: Addr, key: U64)
    requires TreeOk(t) && n in t.places && n in t.nodes && Prefix(t.places[n].path, Bytes(key)) && key in Contents(t) && !Turned(t, key)
    ensures SeenFrom(t, n, key) == Bytes(key)[|t.places[n].path|..]
    decreases KEY_LEN - |t.places[n].path|
  {
    hide TreeOk;
    hide Contents;
    hide Bytes;
    hide Kid;
    hide TurnsAway;
    var fkey, p := Bytes(key), t.places[n];
    if Compared(t, n) && Steps(t, n, fkey[|p.full|], Kid(t.nodes[n], fkey[|p.full|])) {
      var c := Kid(t.nodes[n], fkey[|p.full|]);
      HasKey(t, key);
      Through(t, n, key);
      Link(t, n, fkey[|p.full|], c);
      PrefixNext(p.full, fkey);
      SeenRight(t, c, key);
      SeenWhole(t, n, key);
      var L := |p.full|;
      assert fkey[|p.path|..] == fkey[|p.path|..L] + [fkey[L]] + fkey[L + 1..];
    }
  }

  /** A node that does not turn a key below it away is seen with the key's bytes. */
  lemma SeenWhole(t: Tree, n: Addr, key: U64)
    requires Compared(t, n) && Prefix(t.places[n].full, Bytes(key)) && !Turned(t, key)
    ensures SeenPart(t, n) == Bytes(key)[|t.places[n].path|..|t.places[n].full|] == t.places[n].full[|t.places[n].path|..]
  {
    hide Bytes;
    hide TurnsAway;
    assert !TurnsAt(t, key, n);
    SeenExactly(t.nodes[n].prefix, t.places[n]);
    var full, fkey := t.places[n].full, Bytes(key);
    assert fkey[|t.places[n].path|..|full|] == fkey[..|full|][|t.places[n].path|..] == full[|t.places[n].path|..];
  }

  // ----- on which side of a bound -----

  /** The keys that a walk along a bound takes for ones from it on. */
  ghost function FromOn(t: Tree, n: Addr, start: U64): iset<U64>
    requires n in t.places && n in t.nodes && |t.places[n].path| <= KEY_LEN
  {
    iset key: U64 | !Less(SeenFrom(t, n, key), Bytes(start)[|t.places[n].path|..])
  }

  /** And for ones before it. */
  ghost function UpTo(t: Tree, n: Addr, end: U64): iset<U64>
    requires n in t.places && n in t.nodes && |t.places[n].path| <= KEY_LEN
  {
    iset key: U64 | Less(SeenFrom(t, n, key), Bytes(end)[|t.places[n].path|..])
  }

  /** A bound's bytes for a node. */
  function Part(t: Tree, n: Addr, bound: U64): (s: seq<Byte>)
    requires n in t.places && |t.places[n].path| <= |t.places[n].full| < KEY_LEN
    ensures |s| == |t.places[n].full| - |t.places[n].path|
  {
    Bytes(bound)[|t.places[n].path|..|t.places[n].full|]
  }

  /** The side of a key below a node: the node's bytes decide, then the byte behind them, then what comes below. */
  lemma SideOf(t: Tree, n: Addr, key: U64, bound: U64)
    requires TreeOk(t) && Compared(t, n) && key in Contents(t) && Prefix(t.places[n].path, Bytes(key))
    ensures Prefix(t.places[n].full, Bytes(key))
    ensures var b := Bytes(key)[|t.places[n].full|]; Steps(t, n, b, Kid(t.nodes[n], b)) && Prefix(t.places[n].full + [b], Bytes(key))
    ensures var b, c := Bytes(key)[|t.places[n].full|], Kid(t.nodes[n], Bytes(key)[|t.places[n].full|]);
      Less(SeenFrom(t, n, key), Bytes(bound)[|t.places[n].path|..]) <==>
        Less(SeenPart(t, n), Part(t, n, bound)) || (SeenPart(t, n) == Part(t, n, bound) &&
          (b < Bytes(bound)[|t.places[n].full|] ||
           (b == Bytes(bound)[|t.places[n].full|] && Less(SeenFrom(t, c, key), Bytes(bound)[|t.places[n].full| + 1..]))))
  {
    hide TreeOk;
    hide Contents;
    hide Bytes;
    hide Kid;
    hide Less;
    hide SeenPart;
    hide SeenFrom;
    var L, x := |t.places[n].full|, Bytes(bound);
    HasKey(t, key);
    Through(t, n, key);
    var b := Bytes(key)[L];
    var c := Kid(t.nodes[n], b);
    ParentSteps(t, n, b, c);
    SeenStep(t, n, key, c);
    LessParts(SeenPart(t, n) + [b], SeenFrom(t, c, key), Part(t, n, bound) + [x[L]], x[L + 1..]);
    LessParts(SeenPart(t, n), [b], Part(t, n, bound), [x[L]]);
    LessOne(b, x[L]);
    assert x[|t.places[n].path|..] == Part(t, n, bound) + [x[L]] + x[L + 1..];
    LastSame(SeenPart(t, n), b, Part(t, n, bound), x[L]);
  }

  lemma LessOne(a: Byte, b: Byte)
    ensures Less([a], [b]) <==> a < b
  {
  }

  lemma LastSame(a: seq<Byte>, x: Byte, b: seq<Byte>, y: Byte)
    ensures a + [x] == b + [y] <==> a == b && x == y
  {
    if a + [x] == b + [y] {
      assert (a + [x])[|a|] == x && (b + [y])[|b|] == y;
      assert (a + [x])[..|a|] == a && (b + [y])[..|b|] == b;
    }
  }

  /** The bytes that are compared, one by one. */
  lemma ComparedByte(t: Tree, n: Addr, bound: U64, at: nat)
    requires Compared(t, n) && |t.places[n].path| <= at < |t.places[n].full|
    ensures SeenPart(t, n)[at - |t.places[n].path|] == SeenAt(t.nodes[n].prefix, t.places[n], at)
    ensures Part(t, n, bound)[at - |t.places[n].path|] == Bytes(bound)[at]
  {
    hide Bytes;
    hide SeenAt;
  }

  // ----- where a bound leads -----

  /** At node p a bound's way goes on towards a path. */
  ghost predicate LeadsOn(t: Tree, p: Addr, key: U64, path: seq<Byte>)
    requires Passes(t, p, path)
  {
    Compared(t, p) && SeenPart(t, p) == Part(t, p, key) && Bytes(key)[|t.places[p].full|] == path[|t.places[p].full|]
  }

  ghost predicate Follows(t: Tree, n: Addr, key: U64, path: seq<Byte>)
    requires n in t.places
  {
    forall p | Passes(t, p, path) && |t.places[n].path| <= |t.places[p].path| :: LeadsOn(t, p, key, path)
  }

  /** Followed from cell n, a bound's way meets a prefix that is too short. */
  ghost predicate Meets(t: Tree, n: Addr, key: U64, m: Addr) {
    n in t.places && Short(t, m) && Prefix(t.places[n].path, t.places[m].path) && Follows(t, n, key, t.places[m].path)
  }

  ghost predicate MeetsShort(t: Tree, n: Addr, key: U64) {
    exists m :: Meets(t, n, key, m)
  }

  lemma MeetsHere(t: Tree, n: Addr, key: U64)
    requires Short(t, n)
    ensures Meets(t, n, key, n) && MeetsShort(t, n, key)
  {
    hide Bytes;
    PrefixWhole(t.places[n].path);
  }

  /** What the way meets, it meets at the node or below the child for the bound's next byte. */
  lemma MeetsStep(t: Tree, n: Addr, key: U64, m: Addr)
    requires TreeOk(t) && n in t.nodes && Meets(t, n, key, m) && !Short(t, n)
    ensures Compared(t, n) && SeenPart(t, n) == Part(t, n, key)
    ensures var b := Bytes(key)[|t.places[n].full|]; IsParent(t, n, b, Kid(t.nodes[n], b)) && Meets(t, Kid(t.nodes[n], b), key, m)
  {
    hide TreeOk;
    hide Bytes;
    hide Kid;
    hide SeenPart;
    var path := t.places[m].path;
    Descends(t, n, m);
    NodeAt(t, m);
    NodeAt(t, n);
    assert Passes(t, n, path);
    assert LeadsOn(t, n, key, path);
    var b := Bytes(key)[|t.places[n].full|];
    var c := Kid(t.nodes[n], b);
    KidPlaced(t, n, b);
    Link(t, n, b, c);
    PrefixNext(t.places[n].full, path);
    FollowsDown(t, n, key, b, c, path);
  }

  lemma FollowsDown(t: Tree, n: Addr, key: U64, b: Byte, c: Addr, path: seq<Byte>)
    requires n in t.places && c in t.places && Follows(t, n, key, path) && |t.places[n].path| <= |t.places[c].path|
    ensures Follows(t, c, key, path)
  {
  }

  lemma MeetsUp(t: Tree, n: Addr, key: U64, c: Addr, m: Addr)
    requires TreeOk(t) && Compared(t, n) && SeenPart(t, n) == Part(t, n, key) && IsParent(t, n, Bytes(key)[|t.places[n].full|], c) && Meets(t, c, key, m)
    ensures Meets(t, n, key, m)
  {
    hide TreeOk;
    hide Bytes;
    hide Kid;
    hide SeenPart;
    ComparedNode(t, n);
    hide Compared;
    var L, path := |t.places[n].full|, t.places[m].path;
    Link(t, n, Bytes(key)[L], c);
    PrefixTrans(t.places[n].path, t.places[c].path, path);
    PrefixLast(t.places[n].full, Bytes(key)[L], t.places[c].path);
    PrefixAt(t.places[c].path, path);
    forall p | Passes(t, p, path) && |t.places[n].path| <= |t.places[p].path| ensures LeadsOn(t, p, key, path) {
      if |t.places[p].path| <= L {
        NodeAt(t, p);
        PrefixTrans(t.places[p].path, t.places[p].full, path);
        PrefixChain(t.places[n].path, t.places[p].path, path);
        Descends(t, n, p);
      }
    }
  }

  /** Where the way ends it meets nothing. */
  lemma MeetsNone(t: Tree, n: Addr, key: U64)
    requires TreeOk(t) && n in t.places && n in t.nodes
    requires t.nodes[n].Leaf? || (Compared(t, n) && (SeenPart(t, n) != Part(t, n, key) || Kid(t.nodes[n], Bytes(key)[|t.places[n].full|]) == NULL))
    ensures !MeetsShort(t, n, key)
  {
    hide TreeOk;
    hide Bytes;
    hide Kid;
    hide SeenPart;
    hide Meets;
    forall m ensures !Meets(t, n, key, m) {
      if Meets(t, n, key, m) { MeetsStep(t, n, key, m); }
    }
  }

  lemma MeetsBelow(t: Tree, n: Addr, key: U64, c: Addr)
    requires TreeOk(t) && Compared(t, n) && SeenPart(t, n) == Part(t, n, key) && IsParent(t, n, Bytes(key)[|t.places[n].full|], c)
    ensures forall m :: Meets(t, n, key, m) <==> Meets(t, c, key, m)
    ensures MeetsShort(t, n, key) <==> MeetsShort(t, c, key)
  {
    hide TreeOk;
    hide Bytes;
    hide Kid;
    hide SeenPart;
    hide Meets;
    hide Compared;
    forall m ensures Meets(t, n, key, m) <==> Meets(t, c, key, m) {
      if Meets(t, n, key, m) {
        ComparedNode(t, n);
        MeetsStep(t, n, key, m);
      }
      if Meets(t, c, key, m) { MeetsUp(t, n, key, c, m); }
    }
  }

  lemma ComparedNode(t: Tree, n: Addr)
    requires Compared(t, n)
    ensures IsNode(t, n) && !Short(t, n) && |t.places[n].path| <= |t.places[n].full| < KEY_LEN
  {
  }

  // ----- how many entries come before -----

  /** The present keys of ks below a path, but for those below another. */
  ghost function Before(t: Tree, path: seq<Byte>, ks: iset<U64>, at: seq<Byte>): set<U64>
    requires TreeOk(t)
  {
    set key | key in Contents(t) && Listed(t, path, ks, key) && !Prefix(at, Bytes(key))
  }

  /** A bound's way from cell n meets a prefix that is too short, and no more of ks than so many entries come before it. */
  ghost predicate Stuck(t: Tree, n: Addr, ks: iset<U64>, key: U64, room: int)
    requires TreeOk(t) && n in t.places
  {
    exists m :: Meets(t, n, key, m) && |Before(t, t.places[n].path, ks, t.places[m].path)| <= room
  }

  /** The same for its way from node n's child for a byte. */
  ghost predicate StuckVia(t: Tree, n: Addr, b: Byte, ks: iset<U64>, key: U64, room: int)
    requires TreeOk(t) && n in t.places && n in t.nodes
  {
    exists m :: Meets(t, Kid(t.nodes[n], b), key, m) && |Before(t, t.places[n].path, ks, t.places[m].path)| <= room
  }

  lemma StuckHere(t: Tree, n: Addr, ks: iset<U64>, key: U64, room: nat)
    requires TreeOk(t) && Short(t, n)
    ensures Stuck(t, n, ks, key, room)
  {
    hide TreeOk;
    hide Bytes;
    MeetsHere(t, n, key);
    assert Before(t, t.places[n].path, ks, t.places[n].path) == {};
  }

  lemma StuckNone(t: Tree, n: Addr, ks: iset<U64>, key: U64, room: int)
    requires TreeOk(t) && n in t.places && !MeetsShort(t, n, key)
    ensures !Stuck(t, n, ks, key, room)
  {
  }

  lemma ViaNone(t: Tree, n: Addr, b: Byte, ks: iset<U64>, key: U64, room: int)
    requires TreeOk(t) && n in t.places && n in t.nodes && Kid(t.nodes[n], b) == NULL
    ensures !StuckVia(t, n, b, ks, key, room) && !MeetsShort(t, NULL, key)
  {
    if NULL in t.places { InNodes(t, NULL); }
  }

  lemma StuckNext(t: Tree, n: Addr, ks: iset<U64>, key: U64, room: int)
    requires TreeOk(t) && Compared(t, n) && SeenPart(t, n) == Part(t, n, key)
    ensures Stuck(t, n, ks, key, room) <==> StuckVia(t, n, Bytes(key)[|t.places[n].full|], ks, key, room)
  {
    hide TreeOk;
    hide Bytes;
    hide Kid;
    hide SeenPart;
    hide Meets;
    hide Before;
    var b := Bytes(key)[|t.places[n].full|];
    if Kid(t.nodes[n], b) == NULL {
      MeetsNone(t, n, key);
      ViaNone(t, n, b, ks, key, room);
    } else {
      KidPlaced(t, n, b);
      MeetsBelow(t, n, key, Kid(t.nodes[n], b));
    }
  }

  /** The entries met in front of a child, and those below it. */
  lemma BeforeSplit(t: Tree, n: Addr, b: Byte, c: Addr, ks: iset<U64>, ks': iset<U64>, at: seq<Byte>, got: Entries)
    requires TreeOk(t) && IsNode(t, n) && IsParent(t, n, b, c) && c in t.places && Prefix(t.places[c].path, at) && |t.places[n].full| < KEY_LEN
    requires ListsBelow(t, t.places[n].full, b, ks, got) && forall key | Listed(t, t.places[n].full, ks, key) :: Bytes(key)[|t.places[n].full|] <= b
    requires forall key :: Listed(t, t.places[c].path, ks, key) <==> Listed(t, t.places[c].path, ks', key)
    ensures |Before(t, t.places[n].path, ks, at)| == |got| + |Before(t, t.places[c].path, ks', at)|
  {
    hide TreeOk;
    hide Contents;
    hide Bytes;
    hide Kid;
    var full := t.places[n].full;
    var x, y := KeysOf(got), Before(t, t.places[c].path, ks, at);
    assert y == Before(t, t.places[c].path, ks', at) by { hide Listed; }
    KeysCount(got);
    Link(t, n, b, c);
    forall key ensures key in Before(t, t.places[n].path, ks, at) <==> key in x || key in y
      ensures key in x ==> key !in y
    {
      if key in Before(t, t.places[n].path, ks, at) { BeforeIn(t, n, b, c, ks, at, got, key); }
      if key in x { GotBefore(t, n, b, ks, at, got, key); }
      if key in y { BelowBefore(t, n, b, c, ks, at, key); }
    }
    assert Before(t, t.places[n].path, ks, at) == x + y;
  }

  lemma BeforeIn(t: Tree, n: Addr, b: Byte, c: Addr, ks: iset<U64>, at: seq<Byte>, got: Entries, key: U64)
    requires TreeOk(t) && IsNode(t, n) && c in t.places && t.places[c].path == t.places[n].full + [b] && |t.places[n].full| < KEY_LEN
    requires ListsBelow(t, t.places[n].full, b, ks, got) && forall key | Listed(t, t.places[n].full, ks, key) :: Bytes(key)[|t.places[n].full|] <= b
    requires key in Before(t, t.places[n].path, ks, at)
    ensures key in KeysOf(got) || key in Before(t, t.places[c].path, ks, at)
  {
    hide TreeOk;
    hide Contents;
    hide Bytes;
    hide Kid;
    var full := t.places[n].full;
    HasKey(t, key);
    Through(t, n, key);
    assert Listed(t, full, ks, key);
    if Bytes(key)[|full|] < b {
      var i :| 0 <= i < |got| && got[i] == (key, Contents(t)[key]);
      assert got[i].0 == key;
    }
  }

  lemma GotBefore(t: Tree, n: Addr, b: Byte, ks: iset<U64>, at: seq<Byte>, got: Entries, key: U64)
    requires TreeOk(t) && IsNode(t, n) && |t.places[n].full| < KEY_LEN && Prefix(t.places[n].full + [b], at)
    requires ListsBelow(t, t.places[n].full, b, ks, got) && key in KeysOf(got)
    ensures key in Before(t, t.places[n].path, ks, at) && !Prefix(t.places[n].full + [b], Bytes(key))
  {
    hide TreeOk;
    hide Contents;
    hide Bytes;
    hide Kid;
    var full := t.places[n].full;
    var i :| 0 <= i < |got| && got[i].0 == key;
    assert Listed(t, full, ks, key);
    PathPrefix(t, n);
    PrefixTrans(t.places[n].path, full, Bytes(key));
    if Prefix(full + [b], Bytes(key)) { PrefixLast(full, b, Bytes(key)); }
    if Prefix(at, Bytes(key)) { PrefixTrans(full + [b], at, Bytes(key)); }
  }

  lemma BelowBefore(t: Tree, n: Addr, b: Byte, c: Addr, ks: iset<U64>, at: seq<Byte>, key: U64)
    requires TreeOk(t) && IsNode(t, n) && c in t.places && t.places[c].path == t.places[n].full + [b]
    requires key in Before(t, t.places[c].path, ks, at)
    ensures key in Before(t, t.places[n].path, ks, at)
  {
    hide TreeOk;
    hide Contents;
    hide Bytes;
    hide Kid;
    var full := t.places[n].full;
    PathPrefix(t, n);
    PrefixLast(full, b, Bytes(key));
    PrefixTrans(t.places[n].path, full, Bytes(key));
  }

  lemma ViaDown(t: Tree, n: Addr, b: Byte, c: Addr, ks: iset<U64>, ks': iset<U64>, key: U64, got: Entries, room: int)
    requires TreeOk(t) && IsNode(t, n) && IsParent(t, n, b, c) && c in t.places && |t.places[n].full| < KEY_LEN
    requires ListsBelow(t, t.places[n].full, b, ks, got) && forall k | Listed(t, t.places[n].full, ks, k) :: Bytes(k)[|t.places[n].full|] <= b
    requires forall k :: Listed(t, t.places[c].path, ks, k) <==> Listed(t, t.places[c].path, ks', k)
    ensures StuckVia(t, n, b, ks, key, room) <==> Stuck(t, c, ks', key, room - |got|)
  {
    hide TreeOk;
    hide Contents;
    hide Bytes;
    hide ListsBelow;
    hide Listed;
    hide Before;
    hide Follows;
    forall m | Meets(t, c, key, m)
      ensures |Before(t, t.places[n].path, ks, t.places[m].path)| == |got| + |Before(t, t.places[c].path, ks', t.places[m].path)|
    {
      BeforeSplit(t, n, b, c, ks, ks', t.places[m].path, got);
    }
  }

  /** A lookup that is full before it comes to the child is not stuck. */
  lemma ViaNever(t: Tree, n: Addr, b: Byte, ks: iset<U64>, key: U64, c: nat, got: Entries, room: int)
    requires TreeOk(t) && IsNode(t, n) && |t.places[n].full| < KEY_LEN && c <= b && ListsBelow(t, t.places[n].full, c, ks, got) && |got| > room
    ensures !StuckVia(t, n, b, ks, key, room)
  {
    hide TreeOk;
    hide Contents;
    hide Bytes;
    hide Kid;
    hide Before;
    hide Follows;
    hide ListsBelow;
    var s := Kid(t.nodes[n], b);
    forall m | Meets(t, s, key, m) ensures |Before(t, t.places[n].path, ks, t.places[m].path)| > room {
      if s == NULL { ViaNone(t, n, b, ks, key, room); }
      KidPlaced(t, n, b);
      Link(t, n, b, s);
      ManyBefore(t, n, b, ks, c, got, t.places[m].path);
      SubsetCard(KeysOf(got), Before(t, t.places[n].path, ks, t.places[m].path));
    }
  }

  lemma ManyBefore(t: Tree, n: Addr, b: Byte, ks: iset<U64>, c: nat, got: Entries, at: seq<Byte>)
    requires TreeOk(t) && IsNode(t, n) && |t.places[n].full| < KEY_LEN && c <= b && Prefix(t.places[n].full + [b], at)
    requires ListsBelow(t, t.places[n].full, c, ks, got)
    ensures KeysOf(got) <= Before(t, t.places[n].path, ks, at) && |KeysOf(got)| == |got|
  {
    hide TreeOk;
    hide Contents;
    hide Bytes;
    hide Kid;
    var full := t.places[n].full;
    KeysCount(got);
    forall key | key in KeysOf(got) ensures key in Before(t, t.places[n].path, ks, at) {
      var i :| 0 <= i < |got| && got[i].0 == key;
      assert Listed(t, full, ks, key);
      PathPrefix(t, n);
      PrefixTrans(t.places[n].path, full, Bytes(key));
      if Prefix(at, Bytes(key)) {
        PrefixTrans(full + [b], at, Bytes(key));
        PrefixLast(full, b, Bytes(key));
      }
    }
  }
}
