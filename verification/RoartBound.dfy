/**
 When a range lookup is right: which verdicts on a node's bytes are, for all keys below it, and what the lookup lists in a tree where
 all on its way are.
 */
module RoartBounds {
  import opened Bits
  import opened Addresses
  import opened Prefixes
  import opened RoartKeys
  import opened RoartLayouts
  import opened RoartModel
  import opened RoartPrefixes
  import opened RoartStates
  import opened RoartLookups
  import opened RoartLists
  import opened RoartWays
  import opened RoartVerdicts

  // ----- bytes -----

  function FromBytes(s: seq<Byte>): (x: nat)
    ensures x < Pow256(|s|)
  {
    if s == [] then 0 else FromBytes(s[..|s| - 1]) * 256 + s[|s| - 1]
  }

  lemma {:induction false} BytesBack(s: seq<Byte>)
    ensures LowBytes(FromBytes(s), |s|) == s
  {
    if s != [] {
      var r := s[..|s| - 1];
      BytesBack(r);
      assert FromBytes(s) / 256 == FromBytes(r) && FromBytes(s) % 256 == s[|s| - 1];
      assert s == r + [s[|s| - 1]];
    }
  }

  /** Any eight bytes are those of a key. */
  lemma KeyWith(s: seq<Byte>) returns (key: U64)
    requires |s| == KEY_LEN
    ensures Bytes(key) == s
  {
    AllBytes();
    BytesBack(s);
    key := FromBytes(s);
  }

  predicate Zeros(s: seq<Byte>) {
    forall i | 0 <= i < |s| :: s[i] == 0
  }

  lemma {:induction false} NoneUnderZeros(x: seq<Byte>, z: seq<Byte>)
    requires |x| == |z|
    ensures Zeros(z) ==> !Less(x, z)
    ensures Zeros(x) ==> (Less(x, z) <==> !Zeros(z))
  {
    if |x| > 0 {
      NoneUnderZeros(x[1..], z[1..]);
      assert Zeros(z) <==> z[0] == 0 && Zeros(z[1..]) by { assert z == [z[0]] + z[1..]; }
    }
  }

  lemma {:induction false} NoneOverMost(x: seq<Byte>, z: seq<Byte>)
    requires |x| == |z| && forall i | 0 <= i < |x| :: x[i] == 255
    ensures !Less(x, z)
  {
    if |x| > 0 { NoneOverMost(x[1..], z[1..]); }
  }

  /** No byte smaller before, and one that is greater. */
  lemma {:induction false} PointLess(a: seq<Byte>, b: seq<Byte>, k: nat)
    requires |a| == |b| && k < |a| && a[k] < b[k] && forall i | 0 <= i < k :: a[i] <= b[i]
    ensures Less(a, b)
  {
    if a[0] == b[0] { PointLess(a[1..], b[1..], k - 1); }
  }

  lemma {:induction false} PointLeast(a: seq<Byte>, b: seq<Byte>)
    requires |a| == |b| && forall i | 0 <= i < |a| :: a[i] <= b[i]
    ensures !Less(b, a)
  {
    if |a| > 0 { PointLeast(a[1..], b[1..]); }
  }

  // ----- a range and the keys below a node -----

  /** Bytes that stand for a node, between those of two bounds as far as a comparison that found no difference says. */
  predicate Hugs(full: seq<Byte>, s: seq<Byte>, e: seq<Byte>, j: nat)
    requires j <= |full| <= |s| && |s| == |e|
  {
    forall i | 0 <= i < j :: s[i] <= full[i] <= e[i]
  }

  /** A key with these bytes and then others lies in the range. */
  lemma InRange(full: seq<Byte>, start: U64, end: U64, key: U64)
    requires |full| <= KEY_LEN && Prefix(full, Bytes(key))
    ensures var L, s, e := |full|, Bytes(start), Bytes(end); start <= key < end <==>
      && !Less(full, s[..L]) && (full == s[..L] ==> !Less(Bytes(key)[L..], s[L..]))
      && (Less(full, e[..L]) || (full == e[..L] && Less(Bytes(key)[L..], e[L..])))
  {
    hide Bytes;
    hide Less;
    var L, s, e, k := |full|, Bytes(start), Bytes(end), Bytes(key);
    KeyOrder(key, start);
    KeyOrder(key, end);
    assert k == full + k[L..] && s == s[..L] + s[L..] && e == e[..L] + e[L..];
    LessParts(full, k[L..], s[..L], s[L..]);
    LessParts(full, k[L..], e[..L], e[L..]);
  }

  lemma KeyBehind(full: seq<Byte>, x: seq<Byte>) returns (key: U64)
    requires |full| + |x| == KEY_LEN
    ensures Prefix(full, Bytes(key)) && Bytes(key)[|full|..] == x
  {
    hide Bytes;
    key := KeyWith(full + x);
    assert (full + x)[..|full|] == full && (full + x)[|full|..] == x;
  }

  /** No key below is in the range: the bytes come before start's where they first differ, or after end's, or end is the least key below. */
  predicate NoneIn(full: seq<Byte>, start: U64, end: U64)
    requires |full| <= KEY_LEN
  {
    var L, s, e := |full|, Bytes(start), Bytes(end);
    Less(full, s[..L]) || Less(e[..L], full) || (full == e[..L] && Zeros(e[L..]))
  }

  lemma NoneInExactly(full: seq<Byte>, start: U64, end: U64)
    requires start < end && |full| <= KEY_LEN
    ensures (forall key: U64 | Prefix(full, Bytes(key)) :: !(start <= key < end)) <==> NoneIn(full, start, end)
  {
    hide Bytes;
    hide Less;
    hide Zeros;
    var L, s, e := |full|, Bytes(start), Bytes(end);
    LessTotal(full, s[..L]);
    LessTotal(full, e[..L]);
    if NoneIn(full, start, end) {
      forall key: U64 | Prefix(full, Bytes(key)) ensures !(start <= key < end) {
        InRange(full, start, end, key);
        NoneUnderZeros(Bytes(key)[L..], e[L..]);
      }
    } else {
      var x := if full == s[..L] then s[L..] else seq(KEY_LEN - L, _ => 0);
      var key := KeyBehind(full, x);
      InRange(full, start, end, key);
      LessTotal(x, s[L..]);
      if full != s[..L] { ZerosLess(x, e[L..]); }
      KeyOrder(start, end);
      assert s == s[..L] + s[L..] && e == e[..L] + e[L..];
      LessParts(s[..L], s[L..], e[..L], e[L..]);
      assert start <= key < end;
    }
  }

  lemma ZerosLess(x: seq<Byte>, z: seq<Byte>)
    requires |x| == |z| && forall i | 0 <= i < |x| :: x[i] == 0
    ensures Less(x, z) <==> !Zeros(z)
  {
    hide Less;
    NoneUnderZeros(x, z);
  }

  /** The rest of a key lies between the rests of the bounds. */
  predicate RestIn(key: U64, start: U64, end: U64, L: nat)
    requires L <= KEY_LEN
  {
    !Less(Bytes(key)[L..], Bytes(start)[L..]) && Less(Bytes(key)[L..], Bytes(end)[L..])
  }

  /** Whether the rest decides for all keys below: the bytes are end's, and start's too, unless the rest of one bound is zeros. */
  predicate RestDecides(full: seq<Byte>, start: U64, end: U64)
    requires |full| <= KEY_LEN
  {
    var L, s, e := |full|, Bytes(start), Bytes(end);
    full == e[..L] && (full == s[..L] || Zeros(s[L..]) || Zeros(e[L..]))
  }

  lemma RestExactly(full: seq<Byte>, start: U64, end: U64)
    requires start < end && |full| <= KEY_LEN && Hugs(full, Bytes(start), Bytes(end), |full|)
    ensures (forall key: U64 | Prefix(full, Bytes(key)) :: start <= key < end <==> RestIn(key, start, end, |full|)) <==> RestDecides(full, start, end)
  {
    hide Bytes;
    hide Less;
    hide Zeros;
    var L, s, e := |full|, Bytes(start), Bytes(end);
    PointLeast(s[..L], full);
    PointLeast(full, e[..L]);
    LessTotal(full, s[..L]);
    LessTotal(full, e[..L]);
    if RestDecides(full, start, end) {
      forall key: U64 | Prefix(full, Bytes(key)) ensures start <= key < end <==> RestIn(key, start, end, L) {
        InRange(full, start, end, key);
        NoneUnderZeros(Bytes(key)[L..], s[L..]);
        NoneUnderZeros(Bytes(key)[L..], e[L..]);
      }
    } else {
      var x := seq(KEY_LEN - L, _ => if full == e[..L] then 0 else 255);
      var key := KeyBehind(full, x);
      InRange(full, start, end, key);
      if full == e[..L] {
        ZerosLess(x, s[L..]);
        ZerosLess(x, e[L..]);
      } else {
        NoneOverMost(x, s[L..]);
        NoneOverMost(x, e[L..]);
      }
      assert !(start <= key < end <==> RestIn(key, start, end, L));
    }
  }

  // ----- verdicts -----

  lemma {:induction false} HugsOn(full: seq<Byte>, s: seq<Byte>, e: seq<Byte>, j: nat)
    requires j <= |full| <= |s| && |s| == |e| && Hugs(full, s, e, j) && Verdict(full, s, e, j) == BothMatch
    ensures Hugs(full, s, e, |full|)
    decreases |full| - j
  {
    if j < |full| { HugsOn(full, s, e, j + 1); }
  }

  lemma {:induction false} ContainedIn(full: seq<Byte>, s: seq<Byte>, e: seq<Byte>, j: nat)
    requires j <= |full| <= |s| && |s| == |e| && Hugs(full, s, e, j) && Verdict(full, s, e, j) == Contained
    ensures Less(s[..|full|], full) && Less(full, e[..|full|])
    decreases |full| - j
  {
    if s[j] < full[j] < e[j] {
      PointLess(s[..|full|], full, j);
      PointLess(full, e[..|full|], j);
    } else {
      ContainedIn(full, s, e, j + 1);
    }
  }

  /** The verdict is right for a node with these bytes. */
  predicate VerdictRight(verdict: Equals, full: seq<Byte>, start: U64, end: U64)
    requires |full| <= KEY_LEN
  {
    match verdict
    case Outside => NoneIn(full, start, end)
    case BothMatch => RestDecides(full, start, end)
    case _ => true
  }

  /**
   What each verdict is worth, for all keys below a node: one that puts the node between the bounds is always right; one that leaves
   it out is right exactly in the cases of NoneIn; one that lets the bytes behind it decide, exactly in those of RestDecides.
   */
  lemma VerdictExactly(full: seq<Byte>, start: U64, end: U64, j: nat)
    requires start < end && j <= |full| <= KEY_LEN && Hugs(full, Bytes(start), Bytes(end), j)
    ensures Verdict(full, Bytes(start), Bytes(end), j) == Contained ==> forall key: U64 | Prefix(full, Bytes(key)) :: start <= key < end
    ensures Verdict(full, Bytes(start), Bytes(end), j) == Outside ==>
      ((forall key: U64 | Prefix(full, Bytes(key)) :: !(start <= key < end)) <==> VerdictRight(Outside, full, start, end))
    ensures Verdict(full, Bytes(start), Bytes(end), j) == BothMatch ==>
      ((forall key: U64 | Prefix(full, Bytes(key)) :: start <= key < end <==> RestIn(key, start, end, |full|)) <==> VerdictRight(BothMatch, full, start, end))
  {
    hide Bytes;
    hide Less;
    hide Verdict;
    hide RestDecides;
    hide NoneIn;
    hide Hugs;
    hide RestIn;
    match Verdict(full, Bytes(start), Bytes(end), j)
    case Contained =>
      ContainedIn(full, Bytes(start), Bytes(end), j);
      LessTotal(full, Bytes(start)[..|full|]);
      LessTotal(full, full);
      forall key: U64 | Prefix(full, Bytes(key)) ensures start <= key < end {
        InRange(full, start, end, key);
      }
    case Outside =>
      NoneInExactly(full, start, end);
    case BothMatch =>
      HugsOn(full, Bytes(start), Bytes(end), j);
      RestExactly(full, start, end);
    case Skipped =>
  }

  // ----- the lookup -----

  /** At node p the walk along both bounds goes on towards a path. */
  ghost predicate Towards(t: Tree, p: Addr, start: U64, end: U64, path: seq<Byte>)
    requires Passes(t, p, path)
  {
    Compared(t, p) && VerdictAt(t, p, start, end) == BothMatch && Next(t, p, start) == Next(t, p, end) == path[|t.places[p].full|]
  }

  ghost predicate OnWalk(t: Tree, start: U64, end: U64, m: Addr) {
    m in t.places && forall p | Passes(t, p, t.places[m].path) :: Towards(t, p, start, end, t.places[m].path)
  }

  /** No verdict on the way of the bounds is wrong. */
  ghost predicate VerdictsRight(t: Tree, start: U64, end: U64) {
    forall m | Compared(t, m) && OnWalk(t, start, end, m) && !TurnsAway(t.nodes[m].prefix, t.places[m]) ::
      VerdictRight(VerdictAt(t, m, start, end), t.places[m].full, start, end)
  }

  lemma OnWalkStep(t: Tree, n: Addr, start: U64, end: U64)
    requires TreeOk(t) && OnWalk(t, start, end, n) && GoesOn(t, n, start, end)
    ensures OnWalk(t, start, end, Kid(t.nodes[n], Next(t, n, start)))
  {
    hide TreeOk;
    hide Bytes;
    hide Kid;
    hide VerdictAt;
    var b := Next(t, n, start);
    var c := Kid(t.nodes[n], b);
    forall p | Passes(t, p, t.places[c].path) ensures Towards(t, p, start, end, t.places[c].path) {
      PassesStep(t, n, b, c, p);
      if p == n { Passing(t, n, b, c); } else { assert Towards(t, p, start, end, t.places[n].path); }
    }
  }

  /** What holds of a key when the walk comes to a cell: it is in the range exactly if it is below the cell and its rest is. */
  ghost predicate StillRight(t: Tree, n: Addr, start: U64, end: U64, key: U64) {
    && n in t.places && |t.places[n].path| <= KEY_LEN
    && (start <= key < end <==> Prefix(t.places[n].path, Bytes(key)) && RestIn(key, start, end, |t.places[n].path|))
    && (Prefix(t.places[n].path, Bytes(key)) ==> Hugs(t.places[n].path, Bytes(start), Bytes(end), |t.places[n].path|))
  }

  /** A node that a key is below, and is seen as it is. */
  lemma AtNode(t: Tree, n: Addr, start: U64, end: U64, key: U64)
    requires TreeOk(t) && start < end && key in Contents(t) && !Turned(t, key) && VerdictsRight(t, start, end) && OnWalk(t, start, end, n)
    requires Compared(t, n) && StillRight(t, n, start, end, key) && Prefix(t.places[n].path, Bytes(key))
    ensures Prefix(t.places[n].full, Bytes(key))
    ensures key in RangeKeys(t, n, start, end) <==> start <= key < end
    ensures VerdictAt(t, n, start, end) == BothMatch ==> (start <= key < end <==> RestIn(key, start, end, |t.places[n].full|))
    ensures VerdictAt(t, n, start, end) == BothMatch ==> Hugs(t.places[n].full, Bytes(start), Bytes(end), |t.places[n].full|)
  {
    hide TreeOk;
    hide Contents;
    hide Bytes;
    hide Kid;
    hide Less;
    hide TurnsAway;
    hide Verdict;
    hide VerdictsRight;
    hide OnWalk;
    hide Hugs;
    hide SeenFrom;
    hide RestDecides;
    hide NoneIn;
    var p, s, e := t.places[n], Bytes(start), Bytes(end);
    HasKey(t, key);
    Through(t, n, key);
    PathPrefix(t, n);
    SeenWhole(t, n, key);
    assert !TurnsAt(t, key, n);
    SeenExactly(t.nodes[n].prefix, p);
    SeenRight(t, n, key);
    assert Tail(t, n, key) == Bytes(key)[|p.full|..];
    HugsMore(p.path, p.full, s, e);
    VerdictThere(t, n, start, end);
    VerdictExactly(p.full, start, end, |p.path|);
    if VerdictAt(t, n, start, end) == BothMatch { HugsOn(p.full, s, e, |p.path|); }
    VerdictMeans(p.full, s, e, |p.path|);
  }

  lemma VerdictThere(t: Tree, n: Addr, start: U64, end: U64)
    requires VerdictsRight(t, start, end) && Compared(t, n) && OnWalk(t, start, end, n) && !TurnsAway(t.nodes[n].prefix, t.places[n])
    ensures VerdictRight(VerdictAt(t, n, start, end), t.places[n].full, start, end)
  {
  }

  lemma HugsMore(path: seq<Byte>, full: seq<Byte>, s: seq<Byte>, e: seq<Byte>)
    requires Prefix(path, full) && |full| <= |s| && |s| == |e| && Hugs(path, s, e, |path|)
    ensures Hugs(full, s, e, |path|)
  {
    PrefixAt(path, full);
  }

  lemma RestNext(key: U64, start: U64, end: U64, L: nat)
    requires L < KEY_LEN && Bytes(start)[L] == Bytes(end)[L]
    ensures RestIn(key, start, end, L) <==> Bytes(key)[L] == Bytes(start)[L] && RestIn(key, start, end, L + 1)
  {
    hide Bytes;
    hide Less;
    var k := Bytes(key);
    assert k[L..] == [k[L]] + k[L + 1..];
    SplitLess(k[L], k[L + 1..], Bytes(start), L);
    SplitLess(k[L], k[L + 1..], Bytes(end), L);
  }

  lemma RightStep(t: Tree, n: Addr, start: U64, end: U64, key: U64)
    requires TreeOk(t) && start < end && key in Contents(t) && !Turned(t, key) && VerdictsRight(t, start, end) && OnWalk(t, start, end, n)
    requires GoesOn(t, n, start, end) && StillRight(t, n, start, end, key)
    ensures StillRight(t, Kid(t.nodes[n], Next(t, n, start)), start, end, key)
  {
    hide TreeOk;
    hide Contents;
    hide Bytes;
    hide Kid;
    hide Less;
    hide Turned;
    hide VerdictAt;
    hide VerdictsRight;
    hide OnWalk;
    hide RangeKeys;
    hide RestIn;
    var p, b := t.places[n], Next(t, n, start);
    var c := Kid(t.nodes[n], b);
    var L := |p.full|;
    Link(t, n, b, c);
    PathPrefix(t, n);
    if Prefix(p.path, Bytes(key)) {
      AtNode(t, n, start, end, key);
      RestNext(key, start, end, L);
      PrefixNext(p.full, Bytes(key));
      if Prefix(p.full + [b], Bytes(key)) { PrefixLast(p.full, b, Bytes(key)); }
      assert forall i | 0 <= i < L :: (p.full + [b])[i] == p.full[i];
    } else if Prefix(p.full + [b], Bytes(key)) {
      PrefixLast(p.full, b, Bytes(key));
      PrefixTrans(p.path, p.full, Bytes(key));
    }
  }

  /**
   A present key that no node turns away is listed, where the walk ends at a node, exactly if it is in the range; provided that no
   verdict on the way is wrong.
   */
  lemma {:induction false} RangeRight(t: Tree, n: Addr, start: U64, end: U64, key: U64)
    requires TreeOk(t) && start < end && key in Contents(t) && !Turned(t, key) && VerdictsRight(t, start, end) && OnWalk(t, start, end, n)
    requires StillRight(t, n, start, end, key) && Compared(t, WalkEnd(t, n, start, end))
    ensures key in RangeKeys(t, WalkEnd(t, n, start, end), start, end) <==> start <= key < end
    decreases KEY_LEN - |t.places[n].path|
  {
    hide TreeOk;
    hide Contents;
    hide Bytes;
    hide Kid;
    hide Turned;
    hide VerdictAt;
    hide VerdictsRight;
    hide OnWalk;
    hide RestIn;
    hide Compared;
    hide InRangeAt;
    if GoesOn(t, n, start, end) {
      OnWalkStep(t, n, start, end);
      RightStep(t, n, start, end, key);
      ComparedNode(t, n);
      RangeRight(t, Kid(t.nodes[n], Next(t, n, start)), start, end, key);
    } else if Prefix(t.places[n].path, Bytes(key)) {
      AtNode(t, n, start, end, key);
    }
  }

  predicate IsBetween(key: U64, start: U64, end: U64) {
    start <= key < end
  }

  ghost function Between(start: U64, end: U64): iset<U64> {
    iset key: U64 | IsBetween(key, start, end)
  }

  lemma StartsRight(t: Tree, start: U64, end: U64, key: U64)
    requires TreeOk(t)
    ensures OnWalk(t, start, end, t.root) && StillRight(t, t.root, start, end, key)
  {
    hide Bytes;
    hide Less;
    Root(t);
    KeyOrder(key, start);
    KeyOrder(key, end);
    assert Bytes(key)[0..] == Bytes(key) && Bytes(start)[0..] == Bytes(start) && Bytes(end)[0..] == Bytes(end);
    assert Prefix([], Bytes(key));
  }

  /** So the lookup finds the first entries of the range, where no node turns keys away and no verdict on the way is wrong. */
  lemma RangeExact(t: Tree, start: U64, end: U64, limit: nat, result: Entries, more: bool)
    requires TreeOk(t) && Honest(t) && start < end && VerdictsRight(t, start, end) && t.root in t.places && Compared(t, WalkEnd(t, t.root, start, end))
    requires FirstEntries(t, RangeKeys(t, WalkEnd(t, t.root, start, end), start, end), limit, result, more)
    ensures FirstEntries(t, Between(start, end), limit, result, more)
  {
    hide TreeOk;
    hide Contents;
    hide Bytes;
    hide Turned;
    hide VerdictsRight;
    hide OnWalk;
    hide RangeKeys;
    hide Honest;
    hide StillRight;
    HonestExactly(t);
    var ks := RangeKeys(t, WalkEnd(t, t.root, start, end), start, end);
    forall key | key in Contents(t) ensures key in ks <==> key in Between(start, end) {
      StartsRight(t, start, end, key);
      RangeRight(t, t.root, start, end, key);
    }
    SameFirst(t, ks, Between(start, end), limit, result, more);
  }

  lemma SameFirst(t: Tree, ks: iset<U64>, ks': iset<U64>, limit: nat, result: Entries, more: bool)
    requires TreeOk(t) && FirstEntries(t, ks, limit, result, more) && forall key | key in Contents(t) :: key in ks <==> key in ks'
    ensures FirstEntries(t, ks', limit, result, more)
  {
    hide TreeOk;
    hide Contents;
    hide Bytes;
    forall key ensures Listed(t, [], ks, key) <==> Listed(t, [], ks', key) {
    }
    hide Listed;
  }

  lemma NoEntries(t: Tree, start: U64, end: U64, limit: nat)
    requires TreeOk(t) && start >= end
    ensures FirstEntries(t, Between(start, end), limit, [], false)
  {
    hide TreeOk;
    hide Contents;
  }

  // ----- clean trees -----

  /** In a clean tree nothing is too short. */
  lemma CleanNeverShort(t: Tree)
    requires TreeOk(t) && Clean(t)
    ensures Honest(t) && forall m :: !Short(t, m)
  {
    hide TreeOk;
    hide Bytes;
    hide TurnsAway;
    CleanDescribed(t);
    DescribedHonest(t);
    forall m ensures !Short(t, m) {
      assert IsNode(t, m) ==> PrefixRight(t, m);
    }
  }

  /** There a lookup never starts again, and what it finds is right, unless it reads a leaf as a node or a verdict on its way is wrong. */
  lemma CleanRange(t: Tree, start: U64, end: U64, limit: nat, lookup: Lookup)
    requires TreeOk(t) && Clean(t) && VerdictsRight(t, start, end) && LookupOf(t, start, end, limit, lookup)
    ensures !lookup.Restart?
    ensures lookup.Found? ==> FirstEntries(t, Between(start, end), limit, lookup.result, lookup.more)
  {
    hide TreeOk;
    hide Contents;
    hide Bytes;
    hide VerdictsRight;
    hide VerdictAt;
    hide RangeKeys;
    hide FirstEntries;
    hide Honest;
    hide Clean;
    hide Before;
    hide Compared;
    CleanNeverShort(t);
    hide Short;
    if start >= end {
      NoEntries(t, start, end, limit);
    } else if lookup.Found? {
      RangeExact(t, start, end, limit, lookup.result, lookup.more);
    }
  }

  /** Bounds with different first bytes part at the root: such a lookup finds the first entries of the range in any clean tree. */
  lemma FirstBytesApart(t: Tree, start: U64, end: U64, limit: nat, lookup: Lookup)
    requires TreeOk(t) && Clean(t) && Bytes(start)[0] != Bytes(end)[0] && LookupOf(t, start, end, limit, lookup)
    ensures lookup.Found? && FirstEntries(t, Between(start, end), limit, lookup.result, lookup.more)
  {
    hide TreeOk;
    hide Contents;
    hide Bytes;
    hide FirstEntries;
    hide Clean;
    hide RangeKeys;
    hide RangeStuck;
    hide TurnsAway;
    Root(t);
    ComparedOrShort(t, t.root);
    forall m | Compared(t, m) && OnWalk(t, start, end, m) ensures VerdictRight(VerdictAt(t, m, start, end), t.places[m].full, start, end) {
      OnlyRoot(t, start, end, m);
      assert Bytes(start)[..0] == [] == Bytes(end)[..0];
    }
    CleanRange(t, start, end, limit, lookup);
  }

  lemma OnlyRoot(t: Tree, start: U64, end: U64, m: Addr)
    requires TreeOk(t) && OnWalk(t, start, end, m) && Bytes(start)[0] != Bytes(end)[0]
    ensures m == t.root
  {
    hide TreeOk;
    hide Bytes;
    hide Kid;
    hide VerdictAt;
    if m != t.root { RootPasses(t, m); }
  }

  lemma RootPasses(t: Tree, m: Addr)
    requires TreeOk(t) && m in t.places && m != t.root
    ensures Passes(t, t.root, t.places[m].path) && t.places[t.root].full == []
  {
    hide TreeOk;
    hide Bytes;
    hide Kid;
    Root(t);
    InNodes(t, m);
    PathPrefix(t, m);
    Descends(t, t.root, m);
  }

  // ----- lookups that miss -----

  predicate Inside(full: seq<Byte>, start: U64, end: U64)
    requires |full| <= KEY_LEN
  {
    Less(Bytes(start)[..|full|], full) && Less(full, Bytes(end)[..|full|])
  }

  /**
   A node that lies in the range as a whole, and that the verdict leaves out: there is a key below it, all keys below it are in the
   range, and the lookup finds nothing.
   */
  lemma OutsideMisses(t: Tree, start: U64, end: U64, limit: nat, lookup: Lookup) returns (key: U64)
    requires TreeOk(t) && start < end && t.root in t.places && LookupOf(t, start, end, limit, lookup)
    requires WalkEnd(t, t.root, start, end) != t.root && Compared(t, WalkEnd(t, t.root, start, end))
    requires VerdictAt(t, WalkEnd(t, t.root, start, end), start, end) == Outside && Inside(t.places[WalkEnd(t, t.root, start, end)].full, start, end)
    ensures lookup == Found([], false) && key in Contents(t) && start <= key < end
  {
    hide TreeOk;
    hide Bytes;
    hide Less;
    hide VerdictAt;
    hide FirstEntries;
    var n := WalkEnd(t, t.root, start, end);
    ComparedNode(t, n);
    key := KeyBelow(t, n);
    hide Contents;
    LessTotal(t.places[n].full, Bytes(start)[..|t.places[n].full|]);
    InRange(t.places[n].full, start, end, key);
    FoundNothing(t, n, start, end, limit, lookup);
  }

  lemma FoundNothing(t: Tree, n: Addr, start: U64, end: U64, limit: nat, lookup: Lookup)
    requires TreeOk(t) && Compared(t, n) && VerdictAt(t, n, start, end) == Outside && Outcome(t, n, start, end, limit, lookup)
    ensures lookup == Found([], false)
  {
    hide TreeOk;
    hide Contents;
    hide Bytes;
    hide VerdictAt;
    NoKeys(t, n, start, end);
    hide RangeKeys;
    if lookup.Found? { EmptyFirst(t, RangeKeys(t, n, start, end), limit, lookup.result, lookup.more); }
  }

  lemma EmptyFirst(t: Tree, ks: iset<U64>, limit: nat, result: Entries, more: bool)
    requires TreeOk(t) && FirstEntries(t, ks, limit, result, more) && forall key :: key !in ks
    ensures result == [] && !more
  {
    hide TreeOk;
    hide Contents;
    hide Bytes;
    assert |result| > 0 ==> Listed(t, [], ks, result[0].0);
  }

  // ----- clean trees, by their nodes -----

  /** The bounds share c bytes. */
  ghost predicate Parts(start: U64, end: U64, c: nat) {
    c < KEY_LEN && Bytes(start)[..c] == Bytes(end)[..c] && Bytes(start)[c] < Bytes(end)[c]
  }

  /**
   No node on the common way of the bounds reaches past the byte where they part with one of their bytes there: it ends before, or
   leaves them, or has a byte there that is strictly between theirs or outside them.
   */
  ghost predicate NoneStraddles(t: Tree, start: U64, end: U64, c: nat)
    requires c < KEY_LEN
  {
    forall m | IsNode(t, m) && Prefix(t.places[m].path, Bytes(start)[..c]) && c < |t.places[m].full| && Prefix(Bytes(start)[..c], t.places[m].full) ::
      t.places[m].full[c] != Bytes(start)[c] && t.places[m].full[c] != Bytes(end)[c]
  }

  /** A leaf lies on it. */
  ghost predicate LeafOnWay(t: Tree, start: U64, c: nat)
    requires c < KEY_LEN
  {
    exists l :: l in t.places && l in t.nodes && t.nodes[l].Leaf? && Prefix(t.places[l].path, Bytes(start)[..c])
  }

  /** A node of a clean tree is seen as it is. */
  lemma CleanSeen(t: Tree, n: Addr)
    requires TreeOk(t) && Clean(t) && IsNode(t, n)
    ensures Compared(t, n) && Seen(t.nodes[n].prefix, t.places[n]) == t.places[n].full && Prefix(t.places[n].path, t.places[n].full)
    ensures !TurnsAway(t.nodes[n].prefix, t.places[n])
  {
    hide TreeOk;
    hide TurnsAway;
    CleanNeverShort(t);
    ComparedOrShort(t, n);
    NodeAt(t, n);
    SeenExactly(t.nodes[n].prefix, t.places[n]);
  }

  lemma Common(start: U64, end: U64, c: nat, path: seq<Byte>)
    requires Parts(start, end, c) && Prefix(path, Bytes(start)[..c])
    ensures |path| <= c && forall i | 0 <= i < |path| :: path[i] == Bytes(start)[i] == Bytes(end)[i]
    ensures forall i | 0 <= i < c :: Bytes(start)[i] == Bytes(end)[i]
  {
    hide Bytes;
    PrefixAt(path, Bytes(start)[..c]);
    assert forall i | 0 <= i < c :: Bytes(start)[..c][i] == Bytes(end)[..c][i];
  }

  lemma SharesFront(full: seq<Byte>, s: seq<Byte>, c: nat)
    requires c < |full| && c < |s| && forall i | 0 <= i < c :: full[i] == s[i]
    ensures Prefix(s[..c], full)
  {
    PrefixAt(s[..c], full);
  }

  /** Where both bounds lead through a node on their common way, it ends before they part. */
  lemma EndsBefore(t: Tree, n: Addr, start: U64, end: U64, c: nat)
    requires TreeOk(t) && Clean(t) && IsNode(t, n) && Parts(start, end, c) && NoneStraddles(t, start, end, c)
    requires Prefix(t.places[n].path, Bytes(start)[..c])
    ensures Compared(t, n)
    ensures VerdictAt(t, n, start, end) == BothMatch <==> |t.places[n].full| <= c && Prefix(t.places[n].full, Bytes(start)[..c])
  {
    hide TreeOk;
    hide Bytes;
    hide TurnsAway;
    hide Clean;
    hide Verdict;
    CleanSeen(t, n);
    hide Compared;
    var full, s, e, j := t.places[n].full, Bytes(start), Bytes(end), |t.places[n].path|;
    Common(start, end, c, t.places[n].path);
    PrefixAt(t.places[n].path, full);
    VerdictMeans(full, s, e, j);
    if OnBounds(full, s, e, j) {
      forall i | 0 <= i < |full| && i < c ensures full[i] == s[i] {
      }
      if |full| > c { SharesFront(full, s, c); } else { PrefixAt(full, s[..c]); }
    }
    if |full| <= c && Prefix(full, s[..c]) {
      Common(start, end, c, full);
    }
  }

  /** What the walk comes to lies on the bounds' common way. */
  lemma {:induction false} WalkOnWay(t: Tree, n: Addr, start: U64, end: U64, c: nat)
    requires TreeOk(t) && Clean(t) && Parts(start, end, c) && NoneStraddles(t, start, end, c) && OnWalk(t, start, end, n)
    ensures Prefix(t.places[n].path, Bytes(start)[..c])
    decreases |t.places[n].path|
  {
    hide TreeOk;
    hide Bytes;
    hide Kid;
    hide Clean;
    hide Compared;
    hide VerdictAt;
    hide NoneStraddles;
    Root(t);
    if n != t.root {
      var p, b := Parent(t, n);
      Link(t, p, b, n);
      Passing(t, p, b, n);
      assert Towards(t, p, start, end, t.places[n].path);
      ParentOnWalk(t, p, b, n, start, end);
      WalkOnWay(t, p, start, end, c);
      EndsBefore(t, p, start, end, c);
      Common(start, end, c, t.places[p].full);
      assert Bytes(start)[..c][|t.places[p].full|] == b;
      PrefixNext(t.places[p].full, Bytes(start)[..c]);
    }
  }

  lemma ParentOnWalk(t: Tree, p: Addr, b: Byte, n: Addr, start: U64, end: U64)
    requires TreeOk(t) && IsParent(t, p, b, n) && OnWalk(t, start, end, n)
    ensures OnWalk(t, start, end, p)
  {
    hide TreeOk;
    hide Bytes;
    hide Kid;
    hide Compared;
    hide VerdictAt;
    Link(t, p, b, n);
    forall m | Passes(t, m, t.places[p].path) ensures Towards(t, m, start, end, t.places[p].path) {
      PassesStep(t, p, b, n, m);
      assert Towards(t, m, start, end, t.places[n].path);
    }
  }

  /** Bytes that a comparison of the kind of Outside finds, where they leave the bounds before or at the byte where these part. */
  lemma OffIsNone(full: seq<Byte>, start: U64, end: U64, c: nat, k: nat)
    requires |full| <= KEY_LEN && k < |full| && k <= c < KEY_LEN && forall i | 0 <= i < c :: Bytes(start)[i] == Bytes(end)[i]
    requires !(Bytes(start)[k] <= full[k] <= Bytes(end)[k]) && forall i | 0 <= i < k :: full[i] == Bytes(start)[i] || full[i] == Bytes(end)[i]
    ensures NoneIn(full, start, end)
  {
    hide Bytes;
    hide Less;
    var L, s, e := |full|, Bytes(start), Bytes(end);
    if full[k] < s[k] { FirstLess(full, s[..L], k); } else { FirstLess(e[..L], full, k); }
  }

  /** Then no verdict on their way is wrong. */
  lemma PartedRight(t: Tree, start: U64, end: U64, c: nat)
    requires TreeOk(t) && Clean(t) && Parts(start, end, c) && NoneStraddles(t, start, end, c)
    ensures VerdictsRight(t, start, end)
  {
    hide TreeOk;
    hide Bytes;
    hide TurnsAway;
    hide Clean;
    hide OnWalk;
    hide Verdict;
    hide NoneIn;
    hide NoneStraddles;
    forall m | Compared(t, m) && OnWalk(t, start, end, m) ensures VerdictRight(VerdictAt(t, m, start, end), t.places[m].full, start, end) {
      WalkOnWay(t, m, start, end, c);
      EndsBefore(t, m, start, end, c);
      CleanSeen(t, m);
      if VerdictAt(t, m, start, end) == BothMatch { CommonDecides(t.places[m].full, start, end, c); }
      if VerdictAt(t, m, start, end) == Outside { PartedOutside(t, m, start, end, c); }
    }
  }

  lemma CommonDecides(full: seq<Byte>, start: U64, end: U64, c: nat)
    requires Parts(start, end, c) && Prefix(full, Bytes(start)[..c])
    ensures RestDecides(full, start, end)
  {
    hide Bytes;
    Common(start, end, c, full);
    assert full == Bytes(start)[..|full|] == Bytes(end)[..|full|];
  }

  lemma PartedOutside(t: Tree, m: Addr, start: U64, end: U64, c: nat)
    requires TreeOk(t) && Clean(t) && Parts(start, end, c) && NoneStraddles(t, start, end, c)
    requires Compared(t, m) && Prefix(t.places[m].path, Bytes(start)[..c]) && VerdictAt(t, m, start, end) == Outside
    ensures NoneIn(t.places[m].full, start, end)
  {
    hide TreeOk;
    hide Bytes;
    hide TurnsAway;
    hide Clean;
    hide Verdict;
    hide NoneIn;
    hide BetweenFirst;
    hide OnBounds;
    CleanSeen(t, m);
    var full, s, e, j := t.places[m].full, Bytes(start), Bytes(end), |t.places[m].path|;
    Common(start, end, c, t.places[m].path);
    PrefixAt(t.places[m].path, full);
    VerdictMeans(full, s, e, j);
    var k :| j <= k < |full| && !(s[k] <= full[k] <= e[k]) && forall i | j <= i < k :: OnEdge(full, s, e, i);
    forall i | 0 <= i < k ensures full[i] == s[i] || full[i] == e[i] {
      if i >= j { assert OnEdge(full, s, e, i); }
    }
    if k <= c { OffIsNone(full, start, end, c, k); } else { SharesFront(full, s, c); }
  }

  lemma {:induction false} EndOnWalk(t: Tree, n: Addr, start: U64, end: U64)
    requires TreeOk(t) && OnWalk(t, start, end, n)
    ensures OnWalk(t, start, end, WalkEnd(t, n, start, end))
    decreases KEY_LEN - |t.places[n].path|
  {
    hide TreeOk;
    hide Bytes;
    hide Kid;
    hide VerdictAt;
    hide Compared;
    hide OnWalk;
    if GoesOn(t, n, start, end) {
      ComparedNode(t, n);
      OnWalkStep(t, n, start, end);
      OnWalkPlaced(t, n, start, end);
      EndOnWalk(t, Kid(t.nodes[n], Next(t, n, start)), start, end);
    }
  }

  lemma OnWalkPlaced(t: Tree, n: Addr, start: U64, end: U64)
    requires OnWalk(t, start, end, n)
    ensures n in t.places
  {
  }

  /** The walk comes to a leaf on the common way. */
  lemma {:induction false} WalkToLeaf(t: Tree, n: Addr, l: Addr, start: U64, end: U64, c: nat)
    requires TreeOk(t) && Clean(t) && Parts(start, end, c) && NoneStraddles(t, start, end, c)
    requires l in t.places && l in t.nodes && t.nodes[l].Leaf? && Prefix(t.places[l].path, Bytes(start)[..c])
    requires n in t.places && Prefix(t.places[n].path, t.places[l].path)
    ensures WalkEnd(t, n, start, end) == l
    decreases KEY_LEN - |t.places[n].path|
  {
    hide TreeOk;
    hide Bytes;
    hide Kid;
    hide Clean;
    hide VerdictAt;
    hide Compared;
    hide NoneStraddles;
    var path := t.places[l].path;
    Descends(t, n, l);
    if n == l {
      LeafEnds(t, l, start, end);
    } else {
      NodeAt(t, n);
      PrefixTrans(t.places[n].path, path, Bytes(start)[..c]);
      PrefixTrans(t.places[n].full, path, Bytes(start)[..c]);
      Common(start, end, c, path);
      EndsBefore(t, n, start, end, c);
      var b := path[|t.places[n].full|];
      KidPlaced(t, n, b);
      ParentSteps(t, n, b, Kid(t.nodes[n], b));
      Link(t, n, b, Kid(t.nodes[n], b));
      PrefixNext(t.places[n].full, path);
      WalkToLeaf(t, Kid(t.nodes[n], b), l, start, end, c);
    }
  }

  lemma LeafEnds(t: Tree, l: Addr, start: U64, end: U64)
    requires l in t.places && l in t.nodes && t.nodes[l].Leaf?
    ensures WalkEnd(t, l, start, end) == l
  {
  }

  lemma PartsLess(start: U64, end: U64, c: nat)
    requires Parts(start, end, c)
    ensures start < end
  {
    hide Bytes;
    BytesOrder(start, end, c);
  }

  /**
   In a clean tree, where no node on the bounds' common way reaches past the byte where they part with one of their bytes there, a
   lookup reads a leaf as a node exactly if a leaf lies on that way, and otherwise finds the first entries of the range.
   */
  lemma PartedRange(t: Tree, start: U64, end: U64, c: nat, limit: nat, lookup: Lookup)
    requires TreeOk(t) && Clean(t) && Parts(start, end, c) && NoneStraddles(t, start, end, c) && LookupOf(t, start, end, limit, lookup)
    ensures lookup.LeafRead? <==> LeafOnWay(t, start, c)
    ensures !LeafOnWay(t, start, c) ==> lookup.Found? && FirstEntries(t, Between(start, end), limit, lookup.result, lookup.more)
  {
    hide TreeOk;
    hide Contents;
    hide Bytes;
    hide Clean;
    hide OnWalk;
    hide VerdictsRight;
    hide NoneStraddles;
    hide FirstEntries;
    hide RangeKeys;
    hide RangeStuck;
    hide WalkEnd;
    hide Compared;
    hide Less;
    PartsLess(start, end, c);
    PartedRight(t, start, end, c);
    CleanRange(t, start, end, limit, lookup);
    Root(t);
    StartsRight(t, start, end, start);
    EndOnWalk(t, t.root, start, end);
    WalkOnWay(t, WalkEnd(t, t.root, start, end), start, end, c);
    if l :| l in t.places && l in t.nodes && t.nodes[l].Leaf? && Prefix(t.places[l].path, Bytes(start)[..c]) {
      WalkToLeaf(t, t.root, l, start, end, c);
    }
  }
}
