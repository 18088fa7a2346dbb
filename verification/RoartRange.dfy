/**
 Range lookup in a ROART tree, whatever its prefixes say: which keys it lists, in order, and when it starts again or reads a leaf as
 if it were a node.
 */
module RoartRanges {
  import opened Bits
  import opened Addresses
  import opened Prefixes
  import opened RoartKeys
  import opened RoartLayouts
  import opened RoartModel
  import opened RoartPrefixes
  import opened RoartStates
  import opened RoartLists
  import opened RoartWays
  import opened RoartVerdicts
  import opened Roarts

  ghost function Under(path: seq<Byte>): iset<U64> {
    iset key: U64 | Prefix(path, Bytes(key))
  }

  lemma ChildUnder(t: Tree, n: Addr, b: Byte, kvs: Entries)
    requires TreeOk(t) && n in t.places && n in t.nodes && Lists(t, t.places[n].full + [b], Under(t.places[n].full + [b]), kvs)
    ensures Lists(t, t.places[n].full + [b], Under(t.places[n].path), kvs)
  {
    hide TreeOk;
    hide Contents;
    hide Bytes;
    hide Lists;
    PathPrefix(t, n);
    forall key | Prefix(t.places[n].full + [b], Bytes(key)) ensures Prefix(t.places[n].path, Bytes(key)) {
      PrefixLast(t.places[n].full, b, Bytes(key));
      PrefixTrans(t.places[n].path, t.places[n].full, Bytes(key));
    }
    Widened(t, t.places[n].full + [b], Under(t.places[n].full + [b]), Under(t.places[n].path), kvs);
  }

  /** copy: all entries below a cell. */
  method Copy(r: Roart, n: Addr, limit: nat, res: Entries, ghost met: Entries) returns (res': Entries, more: bool, ghost all: Entries)
    requires r.Valid() && n in r.places && n in r.Nodes() && |r.places[n].path| <= KEY_LEN && Emitted(met, limit, res, false)
    ensures Lists(r.Model(), r.places[n].path, Under(r.places[n].path), all) && Emitted(met + all, limit, res', more)
    decreases KEY_LEN - |r.places[n].path|
  {
    hide TreeOk;
    hide Contents;
    hide Bytes;
    hide Kid;
    hide LayoutOk;
    hide Live;
    hide PrefixShaped;
    hide Lists;
    hide Emitted;
    hide ListsBelow;
    ghost var t, ks := r.Model(), Under(r.places[n].path);
    if r.Nodes()[n].Leaf? {
      LeafOfPlace(t, n);
      ListsLeaf(t, n, ks);
      all := [(r.Nodes()[n].key, r.Nodes()[n].value)];
      EmittedOne(met, limit, res, (r.Nodes()[n].key, r.Nodes()[n].value));
      if |res| == limit {
        return res, true, all;
      }
      return res + [(r.Nodes()[n].key, r.Nodes()[n].value)], false, all;
    }
    NodeAt(t, n);
    var children := GetChildren(r.Nodes()[n].layout, 0, 255);
    res', more := res, false;
    ghost var got: Entries := [];
    ListsStart(t, r.places[n].full, 0, ks);
    EmittedStart(met, limit, res);
    var i := 0;
    while i < |children| && !more
      invariant i <= |children| && ChildrenOf(t, n, 0, 255, children)
      invariant ListsBelow(t, r.places[n].full, Behind(0, children, i), ks, got) && Emitted(met + got, limit, res', more)
    {
      Gap(t, n, 0, 255, children, i);
      ParentSteps(t, n, children[i].0, children[i].1);
      Link(t, n, children[i].0, children[i].1);
      ghost var a;
      res', more, a := Copy(r, children[i].1, limit, res', met + got);
      ChildUnder(t, n, children[i].0, a);
      Step(t, n, 0, 255, children, i, ks, got, a);
      EmittedNext(met, got, a, limit, res', more);
      got, i := got + a, i + 1;
    }
    Gap(t, n, 0, 255, children, i);
    all := Finish(t, n, Behind(0, children, i), ks, got, met, limit, res', more);
  }

  // ----- along one bound -----

  datatype Compare = Smaller | Equal | Bigger | SkippedLevel

  /** checkPrefixCompare: on which side of a bound the bytes lie that the walk sees of a node. */
  method CheckPrefixCompare(r: Roart, n: Addr, bound: U64, fkey: seq<Byte>, level: nat) returns (result: Compare)
    requires r.Valid() && n in r.places && n in r.Nodes() && r.Nodes()[n].Node? && level == |r.places[n].path| && fkey == Bytes(bound)
    ensures result == SkippedLevel <==> Short(r.Model(), n)
    ensures result != SkippedLevel ==> Compared(r.Model(), n)
    ensures result == Equal ==> SeenPart(r.Model(), n) == Part(r.Model(), n, bound)
    ensures result == Smaller ==> Less(SeenPart(r.Model(), n), Part(r.Model(), n, bound))
    ensures result == Bigger ==> Less(Part(r.Model(), n, bound), SeenPart(r.Model(), n))
  {
    hide TreeOk;
    hide Contents;
    hide Bytes;
    hide Kid;
    hide LayoutOk;
    hide Less;
    hide Fits;
    hide Child;
    hide Prefix;
    hide Seen;
    hide SeenPart;
    hide Part;
    ghost var t, full := r.Model(), r.places[n].full;
    var p := r.Nodes()[n].prefix;
    NodeAt(t, n);
    RootIsRight(t, n);
    ComparedOrShort(t, n);
    if p.prefixCount + level < r.Nodes()[n].level {
      return SkippedLevel;
    }
    ghost var seen, part := SeenPart(t, n), Part(t, n, bound);
    var kt := NULL;
    var at := level;
    var i := level + p.prefixCount - r.Nodes()[n].level;
    while i < p.prefixCount
      invariant level <= at <= |full| && i == at + p.prefixCount - |full| && forall k | 0 <= k < at - level :: seen[k] == part[k]
      invariant kt != NULL ==> kt in r.Nodes() && r.Nodes()[kt].Leaf? && Prefix(full, Bytes(r.Nodes()[kt].key))
    {
      if i >= MAX_STORED && kt == NULL {
        kt := r.AnyLeafBelow(n);
      }
      if i >= MAX_STORED { BelowByte(full, Bytes(r.Nodes()[kt].key), at); }
      var curKey := if i >= MAX_STORED then Bytes(r.Nodes()[kt].key)[at] else p.bytes[i];
      assert curKey == SeenAt(p, r.places[n], at);
      ComparedByte(t, n, bound, at);
      if curKey < fkey[at] {
        FirstLess(seen, part, at - level);
        return Smaller;
      } else if curKey > fkey[at] {
        FirstLess(part, seen, at - level);
        return Bigger;
      }
      at := at + 1;
      i := i + 1;
    }
    return Equal;
  }

  /** leaf_key_lt: it compares from a level on. */
  method LeafLess(a: U64, b: U64, level: nat) returns (less: bool)
    requires level <= KEY_LEN
    ensures less == Less(Bytes(a)[level..], Bytes(b)[level..])
  {
    hide Bytes;
    hide Less;
    var x, y := Bytes(a), Bytes(b);
    for i := level to KEY_LEN
      invariant x[level..i] == y[level..i]
    {
      assert x[level..][..i - level] == x[level..i] && y[level..][..i - level] == y[level..i];
      if x[i] != y[i] {
        if x[i] < y[i] { LessFrom(x[level..], y[level..], i - level); } else { LessFrom(y[level..], x[level..], i - level); }
        return x[i] < y[i];
      }
      assert x[level..i + 1] == x[level..i] + [x[i]] && y[level..i + 1] == y[level..i] + [y[i]];
    }
    assert x[level..KEY_LEN] == x[level..] && y[level..KEY_LEN] == y[level..];
    LessTotal(x[level..], y[level..]);
    return false;
  }

  /** Where the bytes of a node decide. */
  lemma AllFrom(t: Tree, n: Addr, bound: U64)
    requires TreeOk(t) && Compared(t, n)
    ensures Less(SeenPart(t, n), Part(t, n, bound)) ==>
      forall key | key in Contents(t) && Prefix(t.places[n].path, Bytes(key)) :: key !in FromOn(t, n, bound) && key in UpTo(t, n, bound)
    ensures Less(Part(t, n, bound), SeenPart(t, n)) ==>
      forall key | key in Contents(t) && Prefix(t.places[n].path, Bytes(key)) :: key in FromOn(t, n, bound) && key !in UpTo(t, n, bound)
  {
    hide TreeOk;
    hide Contents;
    hide Bytes;
    hide Kid;
    hide Less;
    hide SeenPart;
    hide SeenFrom;
    hide Compared;
    hide Steps;
    ComparedNode(t, n);
    LessTotal(SeenPart(t, n), Part(t, n, bound));
    forall key | key in Contents(t) && Prefix(t.places[n].path, Bytes(key))
      ensures Less(SeenPart(t, n), Part(t, n, bound)) ==> key !in FromOn(t, n, bound) && key in UpTo(t, n, bound)
      ensures Less(Part(t, n, bound), SeenPart(t, n)) ==> key in FromOn(t, n, bound) && key !in UpTo(t, n, bound)
    {
      SideOf(t, n, key, bound);
    }
  }

  /** Where they do not, the next byte decides, or what comes below. */
  lemma ChildFrom(t: Tree, n: Addr, bound: U64, b: Byte, c: Addr)
    requires TreeOk(t) && Compared(t, n) && SeenPart(t, n) == Part(t, n, bound) && IsParent(t, n, b, c)
    ensures c in t.places && c in t.nodes && |t.places[c].path| == |t.places[n].full| + 1 <= KEY_LEN
    ensures forall key | key in Contents(t) && Prefix(t.places[n].full + [b], Bytes(key)) ::
      && (key in FromOn(t, n, bound) <==> b > Bytes(bound)[|t.places[n].full|] || (b == Bytes(bound)[|t.places[n].full|] && key in FromOn(t, c, bound)))
      && (key in UpTo(t, n, bound) <==> b < Bytes(bound)[|t.places[n].full|] || (b == Bytes(bound)[|t.places[n].full|] && key in UpTo(t, c, bound)))
  {
    hide TreeOk;
    hide Contents;
    hide Bytes;
    hide Kid;
    hide Less;
    hide SeenPart;
    hide SeenFrom;
    hide Compared;
    ComparedNode(t, n);
    ParentSteps(t, n, b, c);
    PathPrefix(t, n);
    LessTotal(SeenPart(t, n), Part(t, n, bound));
    forall key | key in Contents(t) && Prefix(t.places[n].full + [b], Bytes(key))
      ensures key in FromOn(t, n, bound) <==> b > Bytes(bound)[|t.places[n].full|] || (b == Bytes(bound)[|t.places[n].full|] && key in FromOn(t, c, bound))
      ensures key in UpTo(t, n, bound) <==> b < Bytes(bound)[|t.places[n].full|] || (b == Bytes(bound)[|t.places[n].full|] && key in UpTo(t, c, bound))
    {
      PrefixLast(t.places[n].full, b, Bytes(key));
      PrefixTrans(t.places[n].path, t.places[n].full, Bytes(key));
      SideOf(t, n, key, bound);
    }
  }

  /** The children before the bound's byte have nothing from the bound on, those behind it nothing before the bound. */
  lemma ChildrenOff(t: Tree, n: Addr, bound: U64)
    requires TreeOk(t) && Compared(t, n) && SeenPart(t, n) == Part(t, n, bound)
    ensures forall key | Listed(t, t.places[n].full, FromOn(t, n, bound), key) :: Bytes(key)[|t.places[n].full|] >= Bytes(bound)[|t.places[n].full|]
    ensures forall key | Listed(t, t.places[n].full, UpTo(t, n, bound), key) :: Bytes(key)[|t.places[n].full|] <= Bytes(bound)[|t.places[n].full|]
  {
    hide TreeOk;
    hide Contents;
    hide Bytes;
    hide Kid;
    hide Less;
    hide SeenPart;
    hide SeenFrom;
    hide Compared;
    hide Steps;
    ComparedNode(t, n);
    PathPrefix(t, n);
    LessTotal(SeenPart(t, n), Part(t, n, bound));
    forall key | key in Contents(t) && Prefix(t.places[n].full, Bytes(key))
      ensures key in FromOn(t, n, bound) ==> Bytes(key)[|t.places[n].full|] >= Bytes(bound)[|t.places[n].full|]
      ensures key in UpTo(t, n, bound) ==> Bytes(key)[|t.places[n].full|] <= Bytes(bound)[|t.places[n].full|]
    {
      PrefixTrans(t.places[n].path, t.places[n].full, Bytes(key));
      SideOf(t, n, key, bound);
    }
  }

  lemma NoneBehind(t: Tree, n: Addr, ks: iset<U64>, top: Byte)
    requires TreeOk(t) && IsNode(t, n) && |t.places[n].full| < KEY_LEN
    requires forall key | Listed(t, t.places[n].full, ks, key) :: Bytes(key)[|t.places[n].full|] <= top
    ensures forall b: Byte | b > top :: NoneWith(t, t.places[n].full + [b], ks)
  {
    hide TreeOk;
    hide Contents;
    hide Bytes;
    var full := t.places[n].full;
    forall b: Byte, key | b > top && key in Contents(t) && Prefix(full + [b], Bytes(key)) ensures key !in ks {
      PrefixLast(full, b, Bytes(key));
      assert Listed(t, full, ks, key) <==> key in ks;
    }
  }

  /** A leaf is seen as it is. */
  lemma LeafSide(t: Tree, n: Addr, bound: U64)
    requires TreeOk(t) && n in t.places && n in t.nodes && t.nodes[n].Leaf?
    ensures |t.places[n].path| <= KEY_LEN
    ensures t.nodes[n].key in FromOn(t, n, bound) <==> !Less(Bytes(t.nodes[n].key)[|t.places[n].path|..], Bytes(bound)[|t.places[n].path|..])
    ensures t.nodes[n].key in UpTo(t, n, bound) <==> Less(Bytes(t.nodes[n].key)[|t.places[n].path|..], Bytes(bound)[|t.places[n].path|..])
  {
    hide TreeOk;
    hide Bytes;
    hide Less;
    LeafOfPlace(t, n);
  }

  /** findStart: the entries below a cell that it takes for ones from the bound on. It gives up exactly if the bound's way meets a prefix too short. */
  method FindStart(r: Roart, n: Addr, level: nat, start: U64, fkey: seq<Byte>, limit: nat, res: Entries, ghost met: Entries)
    returns (res': Entries, more: bool, restart: bool, ghost all: Entries)
    requires r.Valid() && n in r.places && n in r.Nodes() && level == |r.places[n].path| <= KEY_LEN && fkey == Bytes(start) && Emitted(met, limit, res, false)
    ensures restart <==> MeetsShort(r.Model(), n, start)
    ensures !restart ==> Lists(r.Model(), r.places[n].path, FromOn(r.Model(), n, start), all) && Emitted(met + all, limit, res', more)
    decreases KEY_LEN - level, 2
  {
    hide TreeOk;
    hide Contents;
    hide Bytes;
    hide Kid;
    hide LayoutOk;
    hide Live;
    hide PrefixShaped;
    hide Lists;
    hide Emitted;
    hide ListsBelow;
    hide Less;
    hide SeenPart;
    hide FromOn;
    hide UpTo;
    hide MeetsShort;
    ghost var t, full, ks := r.Model(), r.places[n].full, FromOn(r.Model(), n, start);
    restart := false;
    if r.Nodes()[n].Leaf? {
      MeetsNone(t, n, start);
      ListsLeaf(t, n, ks);
      LeafSide(t, n, start);
      var less := LeafLess(r.Nodes()[n].key, start, level);
      if less {
        EmittedStart(met, limit, res);
        return res, false, false, [];
      }
      all := [(r.Nodes()[n].key, r.Nodes()[n].value)];
      EmittedOne(met, limit, res, (r.Nodes()[n].key, r.Nodes()[n].value));
      if |res| == limit {
        return res, true, false, all;
      }
      return res + [(r.Nodes()[n].key, r.Nodes()[n].value)], false, false, all;
    }
    var prefixResult := CheckPrefixCompare(r, n, start, fkey, level);
    if prefixResult == SkippedLevel {
      MeetsHere(t, n, start);
      return res, false, true, [];
    }
    LessTotal(SeenPart(t, n), Part(t, n, start));
    AllFrom(t, n, start);
    if prefixResult == Bigger {
      MeetsNone(t, n, start);
      res', more, all := Copy(r, n, limit, res, met);
      Widened(t, r.places[n].path, Under(r.places[n].path), ks, all);
      return;
    }
    if prefixResult == Smaller {
      MeetsNone(t, n, start);
      ListsNothing(t, r.places[n].path, ks);
      EmittedStart(met, limit, res);
      return res, false, false, [];
    }
    res', more, restart, all := StartChildren(r, n, start, fkey, limit, res, met);
  }

  method StartChildren(r: Roart, n: Addr, start: U64, fkey: seq<Byte>, limit: nat, res: Entries, ghost met: Entries)
    returns (res': Entries, more: bool, restart: bool, ghost all: Entries)
    requires r.Valid() && Compared(r.Model(), n) && SeenPart(r.Model(), n) == Part(r.Model(), n, start) && fkey == Bytes(start) && Emitted(met, limit, res, false)
    ensures restart <==> MeetsShort(r.Model(), n, start)
    ensures !restart ==> Lists(r.Model(), r.places[n].path, FromOn(r.Model(), n, start), all) && Emitted(met + all, limit, res', more)
    decreases KEY_LEN - |r.places[n].path|, 1
  {
    hide TreeOk;
    hide Contents;
    hide Bytes;
    hide Kid;
    hide LayoutOk;
    hide Live;
    hide PrefixShaped;
    hide Lists;
    hide Emitted;
    hide ListsBelow;
    hide Less;
    hide SeenPart;
    hide FromOn;
    hide UpTo;
    hide MeetsShort;
    ghost var t, full, ks := r.Model(), r.places[n].full, FromOn(r.Model(), n, start);
    NodeAt(t, n);
    var startLevel := fkey[r.Nodes()[n].level];
    var children := GetChildren(r.Nodes()[n].layout, startLevel, 255);
    res', more, restart, all := res, false, false, [];
    ghost var got: Entries := [];
    ChildrenOff(t, n, start);
    ListsStart(t, full, startLevel, ks);
    EmittedStart(met, limit, res);
    Gap(t, n, startLevel, 255, children, 0);
    if Kid(t.nodes[n], startLevel) == NULL { MeetsNone(t, n, start); }
    var i := 0;
    while i < |children| && !more && !restart
      invariant i <= |children| && ChildrenOf(t, n, startLevel, 255, children)
      invariant restart ==> MeetsShort(t, n, start)
      invariant !restart && (i > 0 || Kid(t.nodes[n], startLevel) == NULL) ==> !MeetsShort(t, n, start)
      invariant more ==> i > 0
      invariant !restart ==> ListsBelow(t, full, Behind(startLevel, children, i), ks, got) && Emitted(met + got, limit, res', more)
    {
      Gap(t, n, startLevel, 255, children, i);
      ghost var a;
      res', more, restart, a := StartChild(r, n, children[i].1, children[i].0, start, fkey, limit, res', met + got);
      if !restart {
        Step(t, n, startLevel, 255, children, i, ks, got, a);
        EmittedNext(met, got, a, limit, res', more);
        got := got + a;
      }
      i := i + 1;
    }
    if !restart {
      Gap(t, n, startLevel, 255, children, i);
      all := Finish(t, n, Behind(startLevel, children, i), ks, got, met, limit, res', more);
    }
  }

  /** One child of that loop. */
  method StartChild(r: Roart, n: Addr, child: Addr, b: Byte, start: U64, fkey: seq<Byte>, limit: nat, res: Entries, ghost met: Entries)
    returns (res': Entries, more: bool, restart: bool, ghost all: Entries)
    requires r.Valid() && Compared(r.Model(), n) && SeenPart(r.Model(), n) == Part(r.Model(), n, start) && fkey == Bytes(start) && Emitted(met, limit, res, false)
    requires IsParent(r.Model(), n, b, child) && fkey[|r.places[n].full|] <= b
    ensures if b == fkey[|r.places[n].full|] then restart <==> MeetsShort(r.Model(), n, start) else !restart
    ensures !restart ==> Lists(r.Model(), r.places[n].full + [b], FromOn(r.Model(), n, start), all) && Emitted(met + all, limit, res', more)
    decreases KEY_LEN - |r.places[n].path|, 0
  {
    hide TreeOk;
    hide Contents;
    hide Bytes;
    hide Kid;
    hide LayoutOk;
    hide Live;
    hide PrefixShaped;
    hide Lists;
    hide Emitted;
    hide ListsBelow;
    hide Less;
    hide SeenPart;
    hide FromOn;
    hide UpTo;
    hide MeetsShort;
    ghost var t, full, ks := r.Model(), r.places[n].full, FromOn(r.Model(), n, start);
    NodeAt(t, n);
    Link(t, n, b, child);
    ChildFrom(t, n, start, b, child);
    restart := false;
    if b == fkey[r.Nodes()[n].level] {
      MeetsBelow(t, n, start, child);
      res', more, restart, all := FindStart(r, child, r.Nodes()[n].level + 1, start, fkey, limit, res, met);
      if !restart { Widened(t, full + [b], FromOn(t, child, start), ks, all); }
    } else {
      res', more, all := Copy(r, child, limit, res, met);
      Widened(t, full + [b], Under(full + [b]), ks, all);
    }
  }

  /**
   findEnd: the entries below a cell that it takes for ones before the bound. It gives up exactly if the bound's way meets a prefix too
   short before the result is full.
   */
  method FindEnd(r: Roart, n: Addr, level: nat, end: U64, fkey: seq<Byte>, limit: nat, res: Entries, ghost met: Entries)
    returns (res': Entries, more: bool, restart: bool, ghost all: Entries)
    requires r.Valid() && n in r.places && n in r.Nodes() && level == |r.places[n].path| <= KEY_LEN && fkey == Bytes(end) && Emitted(met, limit, res, false)
    ensures restart <==> Stuck(r.Model(), n, UpTo(r.Model(), n, end), end, limit - |met|)
    ensures !restart ==> Lists(r.Model(), r.places[n].path, UpTo(r.Model(), n, end), all) && Emitted(met + all, limit, res', more)
    decreases KEY_LEN - level, 2
  {
    hide TreeOk;
    hide Contents;
    hide Bytes;
    hide Kid;
    hide LayoutOk;
    hide Live;
    hide PrefixShaped;
    hide Lists;
    hide Emitted;
    hide ListsBelow;
    hide Less;
    hide SeenPart;
    hide FromOn;
    hide UpTo;
    hide MeetsShort;
    hide Stuck;
    ghost var t, full, ks := r.Model(), r.places[n].full, UpTo(r.Model(), n, end);
    restart := false;
    if r.Nodes()[n].Leaf? {
      MeetsNone(t, n, end);
      StuckNone(t, n, ks, end, limit - |met|);
      ListsLeaf(t, n, ks);
      LeafSide(t, n, end);
      var less := LeafLess(r.Nodes()[n].key, end, level);
      if !less {
        EmittedStart(met, limit, res);
        return res, false, false, [];
      }
      all := [(r.Nodes()[n].key, r.Nodes()[n].value)];
      EmittedOne(met, limit, res, (r.Nodes()[n].key, r.Nodes()[n].value));
      if |res| == limit {
        return res, true, false, all;
      }
      return res + [(r.Nodes()[n].key, r.Nodes()[n].value)], false, false, all;
    }
    var prefixResult := CheckPrefixCompare(r, n, end, fkey, level);
    if prefixResult == SkippedLevel {
      EmittedFits(met, limit, res);
      StuckHere(t, n, ks, end, limit - |met|);
      return res, false, true, [];
    }
    LessTotal(SeenPart(t, n), Part(t, n, end));
    AllFrom(t, n, end);
    if prefixResult == Smaller {
      MeetsNone(t, n, end);
      StuckNone(t, n, ks, end, limit - |met|);
      res', more, all := Copy(r, n, limit, res, met);
      Widened(t, r.places[n].path, Under(r.places[n].path), ks, all);
      return;
    }
    if prefixResult == Bigger {
      MeetsNone(t, n, end);
      StuckNone(t, n, ks, end, limit - |met|);
      ListsNothing(t, r.places[n].path, ks);
      EmittedStart(met, limit, res);
      return res, false, false, [];
    }
    StuckNext(t, n, ks, end, limit - |met|);
    res', more, restart, all := EndChildren(r, n, end, fkey, limit, res, met);
  }

  method EndChildren(r: Roart, n: Addr, end: U64, fkey: seq<Byte>, limit: nat, res: Entries, ghost met: Entries)
    returns (res': Entries, more: bool, restart: bool, ghost all: Entries)
    requires r.Valid() && Compared(r.Model(), n) && SeenPart(r.Model(), n) == Part(r.Model(), n, end) && fkey == Bytes(end) && Emitted(met, limit, res, false)
    ensures restart <==> StuckVia(r.Model(), n, fkey[|r.places[n].full|], UpTo(r.Model(), n, end), end, limit - |met|)
    ensures !restart ==> Lists(r.Model(), r.places[n].path, UpTo(r.Model(), n, end), all) && Emitted(met + all, limit, res', more)
    decreases KEY_LEN - |r.places[n].path|, 1
  {
    hide TreeOk;
    hide Contents;
    hide Bytes;
    hide Kid;
    hide LayoutOk;
    hide Live;
    hide PrefixShaped;
    hide Lists;
    hide Emitted;
    hide ListsBelow;
    hide Less;
    hide SeenPart;
    hide FromOn;
    hide UpTo;
    hide MeetsShort;
    hide StuckVia;
    ghost var t, full, ks, room := r.Model(), r.places[n].full, UpTo(r.Model(), n, end), limit - |met|;
    NodeAt(t, n);
    var endLevel := fkey[r.Nodes()[n].level];
    var children := GetChildren(r.Nodes()[n].layout, 0, endLevel);
    res', more, restart, all := res, false, false, [];
    ghost var got: Entries := [];
    ChildrenOff(t, n, end);
    NoneBehind(t, n, ks, endLevel);
    ListsStart(t, full, 0, ks);
    EmittedStart(met, limit, res);
    if Kid(t.nodes[n], endLevel) == NULL { ViaNone(t, n, endLevel, ks, end, room); }
    var i := 0;
    while i < |children| && !more && !restart
      invariant i <= |children| && ChildrenOf(t, n, 0, endLevel, children)
      invariant restart ==> StuckVia(t, n, endLevel, ks, end, room)
      invariant !restart && (more || (i > 0 && children[i - 1].0 == endLevel)) ==> !StuckVia(t, n, endLevel, ks, end, room)
      invariant !restart ==> ListsBelow(t, full, Behind(0, children, i), ks, got) && Emitted(met + got, limit, res', more)
    {
      Gap(t, n, 0, endLevel, children, i);
      ghost var a;
      res', more, restart, a := EndChild(r, n, children[i].1, children[i].0, end, fkey, limit, res', met, got, Behind(0, children, i));
      if !restart {
        Step(t, n, 0, endLevel, children, i, ks, got, a);
        EmittedNext(met, got, a, limit, res', more);
        got := got + a;
        EmittedCount(met, got, limit, res', more);
        if more && children[i].0 != endLevel { ViaNever(t, n, endLevel, ks, end, Behind(0, children, i + 1), got, room); }
      }
      i := i + 1;
    }
    if !restart {
      Gap(t, n, 0, endLevel, children, i);
      all := Finish(t, n, Behind(0, children, i), ks, got, met, limit, res', more);
    }
  }

  /** One child of that loop. */
  method EndChild(r: Roart, n: Addr, child: Addr, b: Byte, end: U64, fkey: seq<Byte>, limit: nat, res: Entries, ghost met: Entries, ghost got: Entries, ghost c: nat)
    returns (res': Entries, more: bool, restart: bool, ghost all: Entries)
    requires r.Valid() && Compared(r.Model(), n) && SeenPart(r.Model(), n) == Part(r.Model(), n, end) && fkey == Bytes(end)
    requires IsParent(r.Model(), n, b, child) && b <= fkey[|r.places[n].full|] && Emitted(met + got, limit, res, false)
    requires ListsBelow(r.Model(), r.places[n].full, c, UpTo(r.Model(), n, end), got) && c <= b && forall y: Byte | c <= y < b :: Kid(r.Nodes()[n], y) == NULL
    ensures b == fkey[|r.places[n].full|] ==> (restart <==> StuckVia(r.Model(), n, b, UpTo(r.Model(), n, end), end, limit - |met|))
    ensures b != fkey[|r.places[n].full|] ==> !restart
    ensures !restart ==> Lists(r.Model(), r.places[n].full + [b], UpTo(r.Model(), n, end), all) && Emitted(met + got + all, limit, res', more)
    decreases KEY_LEN - |r.places[n].path|, 0
  {
    hide TreeOk;
    hide Contents;
    hide Bytes;
    hide Kid;
    hide LayoutOk;
    hide Live;
    hide PrefixShaped;
    hide Lists;
    hide Emitted;
    hide ListsBelow;
    hide Less;
    hide SeenPart;
    hide FromOn;
    hide UpTo;
    hide MeetsShort;
    hide StuckVia;
    hide Stuck;
    ghost var t, full, ks := r.Model(), r.places[n].full, UpTo(r.Model(), n, end);
    NodeAt(t, n);
    Link(t, n, b, child);
    ChildFrom(t, n, end, b, child);
    restart := false;
    if b == fkey[r.Nodes()[n].level] {
      ChildrenOff(t, n, end);
      ListsUpTo(t, n, c, b, ks, got);
      ViaDown(t, n, b, child, ks, UpTo(t, child, end), end, got, limit - |met|);
      res', more, restart, all := FindEnd(r, child, r.Nodes()[n].level + 1, end, fkey, limit, res, met + got);
      if !restart { Widened(t, full + [b], UpTo(t, child, end), ks, all); }
    } else {
      res', more, all := Copy(r, child, limit, res, met + got);
      Widened(t, full + [b], Under(full + [b]), ks, all);
    }
  }

  // ----- along both bounds -----

  /** checkPrefixEquals: the verdict on the bytes that the walk sees of a node. */
  method CheckPrefixEquals(r: Roart, n: Addr, level: nat, start: U64, end: U64, startKey: seq<Byte>, endKey: seq<Byte>) returns (result: Equals, nextLevel: nat)
    requires r.Valid() && n in r.places && n in r.Nodes() && r.Nodes()[n].Node? && level == |r.places[n].path|
    requires startKey == Bytes(start) && endKey == Bytes(end)
    ensures result == Skipped <==> Short(r.Model(), n)
    ensures result != Skipped ==> Compared(r.Model(), n) && result == VerdictAt(r.Model(), n, start, end)
    ensures result != Skipped ==> (result == Contained <==> BetweenFirst(Seen(r.Nodes()[n].prefix, r.places[n]), startKey, endKey, level))
    ensures result != Skipped ==> (result == Outside <==> OffFirst(Seen(r.Nodes()[n].prefix, r.places[n]), startKey, endKey, level))
    ensures result != Skipped ==> (result == BothMatch <==> OnBounds(Seen(r.Nodes()[n].prefix, r.places[n]), startKey, endKey, level))
    ensures result == BothMatch ==> nextLevel == |r.places[n].full|
  {
    hide TreeOk;
    hide Contents;
    hide Bytes;
    hide Kid;
    hide LayoutOk;
    ghost var t, full := r.Model(), r.places[n].full;
    var p := r.Nodes()[n].prefix;
    NodeAt(t, n);
    RootIsRight(t, n);
    ComparedOrShort(t, n);
    nextLevel := level;
    if p.prefixCount + level < r.Nodes()[n].level {
      return Skipped, nextLevel;
    }
    ghost var seen := Seen(p, r.places[n]);
    VerdictMeans(seen, startKey, endKey, level);
    hide BetweenFirst;
    hide OffFirst;
    hide OnBounds;
    var kt := NULL;
    var i := level + p.prefixCount - r.Nodes()[n].level;
    while i < p.prefixCount
      invariant level <= nextLevel <= |full| && i == nextLevel + p.prefixCount - |full|
      invariant Verdict(seen, startKey, endKey, level) == Verdict(seen, startKey, endKey, nextLevel)
      invariant kt != NULL ==> kt in r.Nodes() && r.Nodes()[kt].Leaf? && Prefix(full, Bytes(r.Nodes()[kt].key))
    {
      if i >= MAX_STORED && kt == NULL {
        kt := r.AnyLeafBelow(n);
      }
      if kt != NULL { PrefixAt(full, Bytes(r.Nodes()[kt].key)); }
      var curKey := if i >= MAX_STORED then Bytes(r.Nodes()[kt].key)[nextLevel] else p.bytes[i];
      assert curKey == SeenAt(p, r.places[n], nextLevel) == seen[nextLevel];
      if curKey > startKey[nextLevel] && curKey < endKey[nextLevel] {
        return Contained, nextLevel;
      } else if curKey < startKey[nextLevel] || curKey > endKey[nextLevel] {
        return Outside, nextLevel;
      }
      nextLevel := nextLevel + 1;
      i := i + 1;
    }
    return BothMatch, nextLevel;
  }

  /** lookupRange where the bounds part: start's child, the children in between, end's child. */
  method SplitChildren(r: Roart, n: Addr, start: U64, end: U64, startKey: seq<Byte>, endKey: seq<Byte>, limit: nat) returns (lookup: Lookup)
    requires r.Valid() && Compared(r.Model(), n) && startKey == Bytes(start) && endKey == Bytes(end)
    requires VerdictAt(r.Model(), n, start, end) == BothMatch && startKey[|r.places[n].full|] != endKey[|r.places[n].full|]
    ensures Outcome(r.Model(), n, start, end, limit, lookup)
  {
    hide TreeOk;
    hide Contents;
    hide Bytes;
    hide Kid;
    hide LayoutOk;
    hide Live;
    hide PrefixShaped;
    hide Lists;
    hide Emitted;
    hide ListsBelow;
    hide Less;
    hide SeenPart;
    hide FromOn;
    hide UpTo;
    hide RangeKeys;
    hide MeetsShort;
    hide StuckVia;
    hide Stuck;
    hide Outcome;
    hide VerdictAt;
    hide SplitState;
    ghost var t := r.Model();
    NodeAt(t, n);
    var startLevel, endLevel := startKey[r.Nodes()[n].level], endKey[r.Nodes()[n].level];
    var children := GetChildren(r.Nodes()[n].layout, startLevel, endLevel);
    var result, more, restart := [], false, false;
    ghost var got: Entries := [];
    SplitFirst(t, n, start, end, limit, children);
    var i := 0;
    while i < |children| && !more && !restart
      invariant i <= |children| && ChildrenOf(t, n, startLevel, endLevel, children)
      invariant SplitState(t, n, start, end, limit, children, i, got, result, more, restart)
    {
      Gap(t, n, startLevel, endLevel, children, i);
      SplitMet(t, n, start, end, limit, children, i, got, result);
      ghost var a, before := [], result;
      result, more, restart, a := SplitChild(r, n, children[i].1, children[i].0, start, end, startKey, endKey, limit, result, got,
                                             Behind(startLevel, children, i));
      SplitMore(t, n, start, end, limit, children, i, got, before, a, result, more, restart);
      if !restart { got := got + a; }
      i := i + 1;
    }
    SplitFinish(t, n, start, end, children, i, got, limit, result, more, restart);
    lookup := if restart then Restart else Found(result, more);
  }

  /** Where that loop has come to. */
  ghost predicate SplitState(t: Tree, n: Addr, start: U64, end: U64, limit: nat, children: Children, i: nat, got: Entries, result: Entries, more: bool, restart: bool)
    requires TreeOk(t) && Compared(t, n)
  {
    && i <= |children| && (more ==> i > 0)
    && (if restart then RangeStuck(t, n, start, end, limit)
        else
          && (i > 0 || Kid(t.nodes[n], Next(t, n, start)) == NULL ==> !MeetsShort(t, Kid(t.nodes[n], Next(t, n, start)), start))
          && (more || (i > 0 && children[i - 1].0 == Next(t, n, end)) ==> !StuckVia(t, n, Next(t, n, end), RangeKeys(t, n, start, end), end, limit))
          && ListsBelow(t, t.places[n].full, Behind(Next(t, n, start), children, i), RangeKeys(t, n, start, end), got) && Emitted(got, limit, result, more))
  }

  lemma SplitFirst(t: Tree, n: Addr, start: U64, end: U64, limit: nat, children: Children)
    requires TreeOk(t) && Compared(t, n) && VerdictAt(t, n, start, end) == BothMatch && ChildrenOf(t, n, Next(t, n, start), Next(t, n, end), children)
    ensures SplitState(t, n, start, end, limit, children, 0, [], [], false, false)
  {
    hide TreeOk;
    hide Contents;
    hide Bytes;
    hide Kid;
    hide LayoutOk;
    hide Live;
    hide PrefixShaped;
    hide Lists;
    hide Emitted;
    hide ListsBelow;
    hide Less;
    hide SeenPart;
    hide FromOn;
    hide UpTo;
    hide RangeKeys;
    hide MeetsShort;
    hide StuckVia;
    hide Stuck;
    hide VerdictAt;
    hide Next;
    ComparedNode(t, n);
    hide Compared;
    RangeBytes(t, n, start, end);
    ListsStart(t, t.places[n].full, Next(t, n, start), RangeKeys(t, n, start, end));
    NothingYet(limit);
    if Kid(t.nodes[n], Next(t, n, start)) == NULL { ViaNone(t, n, Next(t, n, start), RangeKeys(t, n, start, end), start, limit); }
  }

  lemma SplitMet(t: Tree, n: Addr, start: U64, end: U64, limit: nat, children: Children, i: nat, got: Entries, result: Entries)
    requires TreeOk(t) && Compared(t, n) && SplitState(t, n, start, end, limit, children, i, got, result, false, false)
    ensures i <= |children| && ListsBelow(t, t.places[n].full, Behind(Next(t, n, start), children, i), RangeKeys(t, n, start, end), got)
    ensures Emitted(got, limit, result, false)
  {
    hide TreeOk;
  }

  lemma SplitMore(t: Tree, n: Addr, start: U64, end: U64, limit: nat, children: Children, i: nat, got: Entries, before: Entries,
                  a: Entries, result: Entries, more: bool, restart: bool)
    requires TreeOk(t) && Compared(t, n) && VerdictAt(t, n, start, end) == BothMatch && ChildrenOf(t, n, Next(t, n, start), Next(t, n, end), children)
    requires i < |children| && SplitState(t, n, start, end, limit, children, i, got, before, false, false)
    requires Next(t, n, start) <= children[i].0 <= Next(t, n, end) && Next(t, n, start) != Next(t, n, end)
    requires Kid(t.nodes[n], children[i].0) == children[i].1
    requires children[i].0 == Next(t, n, start) ==> (restart <==> MeetsShort(t, children[i].1, start))
    requires children[i].0 == Next(t, n, end) ==> (restart <==> StuckVia(t, n, children[i].0, RangeKeys(t, n, start, end), end, limit))
    requires Next(t, n, start) < children[i].0 < Next(t, n, end) ==> !restart
    requires !restart ==> Lists(t, t.places[n].full + [children[i].0], RangeKeys(t, n, start, end), a) && Emitted(got + a, limit, result, more)
    ensures SplitState(t, n, start, end, limit, children, i + 1, if restart then got else got + a, result, more, restart)
  {
    hide TreeOk;
    hide Contents;
    hide Bytes;
    hide Kid;
    hide LayoutOk;
    hide Live;
    hide PrefixShaped;
    hide Lists;
    hide Emitted;
    hide ListsBelow;
    hide Less;
    hide SeenPart;
    hide FromOn;
    hide UpTo;
    hide RangeKeys;
    hide MeetsShort;
    hide StuckVia;
    hide Stuck;
    hide VerdictAt;
    hide Next;
    ComparedNode(t, n);
    hide Compared;
    var startLevel, endLevel, ks := Next(t, n, start), Next(t, n, end), RangeKeys(t, n, start, end);
    if !restart {
      Step(t, n, startLevel, endLevel, children, i, ks, got, a);
      assert [] + (got + a) == got + a;
      EmittedCount([], got + a, limit, result, more);
      Gap(t, n, startLevel, endLevel, children, 0);
      if more && children[i].0 != endLevel { ViaNever(t, n, endLevel, ks, end, Behind(startLevel, children, i + 1), got + a, limit); }
      if i == 0 && children[0].0 != startLevel { ViaNone(t, n, startLevel, ks, start, limit); }
    }
  }

  /** The end of that loop. */
  lemma SplitFinish(t: Tree, n: Addr, start: U64, end: U64, children: Children, i: nat, got: Entries, limit: nat, result: Entries, more: bool, restart: bool)
    requires TreeOk(t) && Compared(t, n) && VerdictAt(t, n, start, end) == BothMatch && ChildrenOf(t, n, Next(t, n, start), Next(t, n, end), children)
    requires SplitState(t, n, start, end, limit, children, i, got, result, more, restart) && (!more && !restart ==> i == |children|)
    ensures Outcome(t, n, start, end, limit, if restart then Restart else Found(result, more))
  {
    hide TreeOk;
    hide Contents;
    hide Bytes;
    hide Kid;
    hide LayoutOk;
    hide Live;
    hide PrefixShaped;
    hide Lists;
    hide Emitted;
    hide ListsBelow;
    hide Less;
    hide SeenPart;
    hide FromOn;
    hide UpTo;
    hide RangeKeys;
    hide MeetsShort;
    hide StuckVia;
    hide Stuck;
    hide FirstEntries;
    hide VerdictAt;
    hide Next;
    ComparedNode(t, n);
    var ks, startLevel, endLevel := RangeKeys(t, n, start, end), Next(t, n, start), Next(t, n, end);
    if !restart {
      Gap(t, n, startLevel, endLevel, children, i);
      Gap(t, n, startLevel, endLevel, children, 0);
      SplitLast(t, n, start, end, children, i);
      if Kid(t.nodes[n], endLevel) == NULL { ViaNone(t, n, endLevel, ks, end, limit); }
      hide Compared;
      RangeBytes(t, n, start, end);
      NoneBehind(t, n, ks, endLevel);
      assert [] + got == got;
      var all := Finish(t, n, Behind(startLevel, children, i), ks, got, [], limit, result, more);
      assert [] + all == all;
      ListedBelow(t, n, start, end);
      FirstBelow(t, t.places[n].path, ks, ks, limit, all, result, more);
    }
  }

  /** Behind the last child, either end's byte was met or has no child. */
  lemma SplitLast(t: Tree, n: Addr, start: U64, end: U64, children: Children, i: nat)
    requires TreeOk(t) && Compared(t, n) && ChildrenOf(t, n, Next(t, n, start), Next(t, n, end), children) && i <= |children|
    ensures i == |children| && Next(t, n, start) < Next(t, n, end) ==>
      (i > 0 && children[i - 1].0 == Next(t, n, end)) || Kid(t.nodes[n], Next(t, n, end)) == NULL
  {
    hide TreeOk;
    hide Next;
    ComparedNode(t, n);
    hide Compared;
    Gap(t, n, Next(t, n, start), Next(t, n, end), children, i);
    if i > 0 { Gap(t, n, Next(t, n, start), Next(t, n, end), children, i - 1); }
  }

  lemma ListedBelow(t: Tree, n: Addr, start: U64, end: U64)
    requires TreeOk(t) && Compared(t, n)
    ensures forall key :: Listed(t, [], RangeKeys(t, n, start, end), key) <==> Listed(t, t.places[n].path, RangeKeys(t, n, start, end), key)
  {
    hide TreeOk;
    hide Contents;
    hide Bytes;
    hide InRangeAt;
  }

  /** One child of that loop. */
  method SplitChild(r: Roart, n: Addr, child: Addr, b: Byte, start: U64, end: U64, startKey: seq<Byte>, endKey: seq<Byte>, limit: nat,
                    res: Entries, ghost met: Entries, ghost c: nat)
    returns (res': Entries, more: bool, restart: bool, ghost all: Entries)
    requires r.Valid() && Compared(r.Model(), n) && startKey == Bytes(start) && endKey == Bytes(end) && VerdictAt(r.Model(), n, start, end) == BothMatch
    requires startKey[|r.places[n].full|] != endKey[|r.places[n].full|] && startKey[|r.places[n].full|] <= b <= endKey[|r.places[n].full|]
    requires IsParent(r.Model(), n, b, child) && Emitted(met, limit, res, false)
    requires ListsBelow(r.Model(), r.places[n].full, c, RangeKeys(r.Model(), n, start, end), met) && c <= b && forall y: Byte | c <= y < b :: Kid(r.Nodes()[n], y) == NULL
    ensures b == startKey[|r.places[n].full|] ==> (restart <==> MeetsShort(r.Model(), child, start))
    ensures b == endKey[|r.places[n].full|] ==> (restart <==> StuckVia(r.Model(), n, b, RangeKeys(r.Model(), n, start, end), end, limit))
    ensures startKey[|r.places[n].full|] < b < endKey[|r.places[n].full|] ==> !restart
    ensures !restart ==> Lists(r.Model(), r.places[n].full + [b], RangeKeys(r.Model(), n, start, end), all) && Emitted(met + all, limit, res', more)
  {
    hide TreeOk;
    hide Contents;
    hide Bytes;
    hide Kid;
    hide LayoutOk;
    hide Live;
    hide PrefixShaped;
    hide Lists;
    hide Emitted;
    hide ListsBelow;
    hide Less;
    hide SeenPart;
    hide FromOn;
    hide UpTo;
    hide RangeKeys;
    hide MeetsShort;
    hide StuckVia;
    hide Stuck;
    hide VerdictAt;
    ghost var t, full, ks := r.Model(), r.places[n].full, RangeKeys(r.Model(), n, start, end);
    NodeAt(t, n);
    Link(t, n, b, child);
    var startLevel, endLevel := startKey[r.Nodes()[n].level], endKey[r.Nodes()[n].level];
    restart := false;
    SplitKeys(t, n, start, end, b, child);
    if b == startLevel {
      res', more, restart, all := FindStart(r, child, r.Nodes()[n].level + 1, start, startKey, limit, res, met);
      if !restart { Widened(t, full + [b], FromOn(t, child, start), ks, all); }
    } else if b < endLevel {
      res', more, all := Copy(r, child, limit, res, met);
      Widened(t, full + [b], Under(full + [b]), ks, all);
    } else {
      RangeBytes(t, n, start, end);
      ListsUpTo(t, n, c, b, ks, met);
      ViaDown(t, n, b, child, ks, UpTo(t, child, end), end, met, limit);
      res', more, restart, all := FindEnd(r, child, r.Nodes()[n].level + 1, end, endKey, limit, res, met);
      if !restart { Widened(t, full + [b], UpTo(t, child, end), ks, all); }
    }
  }

  lemma SplitKeys(t: Tree, n: Addr, start: U64, end: U64, b: Byte, c: Addr)
    requires TreeOk(t) && Compared(t, n) && VerdictAt(t, n, start, end) == BothMatch && IsParent(t, n, b, c)
    ensures c in t.places && c in t.nodes && |t.places[c].path| == |t.places[n].full| + 1 <= KEY_LEN && t.places[c].path == t.places[n].full + [b]
    ensures forall key: U64 | Prefix(t.places[n].full + [b], Bytes(key)) ::
      key in RangeKeys(t, n, start, end) <==>
        && (b > Next(t, n, start) || (b == Next(t, n, start) && key in FromOn(t, c, start)))
        && (b < Next(t, n, end) || (b == Next(t, n, end) && key in UpTo(t, c, end)))
  {
    hide TreeOk;
    hide Bytes;
    hide Kid;
    hide Less;
    hide SeenPart;
    hide FromOn;
    hide UpTo;
    hide RangeKeys;
    hide VerdictAt;
    hide Next;
    ComparedNode(t, n);
    hide Compared;
    ParentSteps(t, n, b, c);
    Link(t, n, b, c);
    forall key: U64 | Prefix(t.places[n].full + [b], Bytes(key))
      ensures key in RangeKeys(t, n, start, end) <==>
        && (b > Next(t, n, start) || (b == Next(t, n, start) && key in FromOn(t, c, start)))
        && (b < Next(t, n, end) || (b == Next(t, n, end) && key in UpTo(t, c, end)))
    {
      RangeChild(t, n, start, end, b, c, key);
    }
  }

  /** copy for a node that the verdict puts between the bounds, and nothing for one outside. */
  lemma WholeNode(t: Tree, n: Addr, start: U64, end: U64, limit: nat, all: Entries, result: Entries, more: bool)
    requires TreeOk(t) && Compared(t, n) && VerdictAt(t, n, start, end) == Contained
    requires Lists(t, t.places[n].path, Under(t.places[n].path), all) && Emitted(all, limit, result, more)
    ensures FirstEntries(t, RangeKeys(t, n, start, end), limit, result, more)
  {
    hide TreeOk;
    hide Contents;
    hide Bytes;
    hide Emitted;
    hide Lists;
    hide FirstEntries;
    hide VerdictAt;
    FirstBelow(t, t.places[n].path, Under(t.places[n].path), RangeKeys(t, n, start, end), limit, all, result, more);
  }

  /** Nothing is listed outside, nor where the bounds' next byte has no child. */
  lemma NothingAt(t: Tree, n: Addr, start: U64, end: U64, limit: nat)
    requires TreeOk(t) && Compared(t, n)
    requires VerdictAt(t, n, start, end) == Outside
      || (VerdictAt(t, n, start, end) == BothMatch && Next(t, n, start) == Next(t, n, end) && Kid(t.nodes[n], Next(t, n, start)) == NULL)
    ensures FirstEntries(t, RangeKeys(t, n, start, end), limit, [], false) && !RangeStuck(t, n, start, end, limit)
  {
    hide TreeOk;
    hide Contents;
    hide Bytes;
    hide Kid;
    hide LayoutOk;
    hide Live;
    hide PrefixShaped;
    hide Lists;
    hide Emitted;
    hide ListsBelow;
    hide Less;
    hide SeenPart;
    hide FromOn;
    hide UpTo;
    hide RangeKeys;
    hide MeetsShort;
    hide StuckVia;
    hide Stuck;
    hide FirstEntries;
    hide VerdictAt;
    hide Next;
    ComparedNode(t, n);
    var ks := RangeKeys(t, n, start, end);
    if VerdictAt(t, n, start, end) == BothMatch { RangeBytes(t, n, start, end); } else { NoKeys(t, n, start, end); }
    hide Compared;
    forall key | key in Contents(t) && Prefix(t.places[n].path, Bytes(key)) ensures key !in ks {
      HasKey(t, key);
      Through(t, n, key);
      assert Listed(t, t.places[n].full, ks, key) <==> key in ks;
    }
    ListsNothing(t, t.places[n].path, ks);
    NothingYet(limit);
    ListedBelow(t, n, start, end);
    FirstBelow(t, t.places[n].path, ks, ks, limit, [], [], false);
  }

  /**
   lookupRange: from the cell where the walk along both bounds ends, the first of the keys listed there, in ascending order, and
   whether there are more than asked for; or a restart; or a leaf that is read as a node.
   */
  method LookupRange(r: Roart, start: U64, end: U64, limit: nat) returns (lookup: Lookup)
    requires r.Valid()
    ensures LookupOf(r.Model(), start, end, limit, lookup)
  {
    hide TreeOk;
    hide Contents;
    hide Bytes;
    hide Kid;
    hide Shaped;
    hide Live;
    hide PrefixShaped;
    hide Lists;
    hide Emitted;
    hide ListsBelow;
    hide Less;
    hide SeenPart;
    hide FromOn;
    hide UpTo;
    hide RangeKeys;
    hide MeetsShort;
    hide StuckVia;
    hide Stuck;
    hide FirstEntries;
    hide VerdictAt;
    hide RangeStuck;
    ghost var t := r.Model();
    Root(t);
    EndPlaced(t, r.root, start, end);
    var startKey := Fkey(start);
    var endKey := Fkey(end);
    KeyOrder(start, end);
    assert startKey[0..] == startKey && endKey[0..] == endKey;
    var less := LeafLess(start, end, 0);
    if !less {
      return Found([], false);
    }
    var node, level: nat := r.root, 0;
    while true
      invariant node in r.places && node in r.Nodes() && level == |r.places[node].path| <= KEY_LEN
      invariant WalkEnd(t, r.root, start, end) == WalkEnd(t, node, start, end)
      decreases KEY_LEN - level
    {
      if r.Nodes()[node].Leaf? {
        return LeafRead;
      }
      NodeAt(t, node);
      ComparedOrShort(t, node);
      var result;
      result, level := CheckPrefixEquals(r, node, level, start, end, startKey, endKey);
      if result == Skipped {
        return Restart;
      }
      if result == Outside {
        NothingAt(t, node, start, end, limit);
        return Found([], false);
      }
      if result == Contained {
        NothingYet(limit);
        var entries, more, all := Copy(r, node, limit, [], []);
        assert [] + all == all;
        WholeNode(t, node, start, end, limit, all, entries, more);
        NotStuckThere(t, node, start, end, limit);
        return Found(entries, more);
      }
      if startKey[level] != endKey[level] {
        lookup := SplitChildren(r, node, start, end, startKey, endKey, limit);
        return;
      }
      var nextNode := GetChild(r.Nodes()[node].layout, startKey[level]);
      if nextNode == NULL {
        NothingAt(t, node, start, end, limit);
        NullSteps(t, node, startKey[level]);
        return Found([], false);
      }
      KidPlaced(t, node, startKey[level]);
      ParentSteps(t, node, startKey[level], nextNode);
      node, level := nextNode, level + 1;
    }
  }

  lemma NotStuckThere(t: Tree, n: Addr, start: U64, end: U64, limit: nat)
    requires TreeOk(t) && Compared(t, n) && VerdictAt(t, n, start, end) != BothMatch
    ensures !RangeStuck(t, n, start, end, limit)
  {
  }

  lemma NullSteps(t: Tree, n: Addr, b: Byte)
    ensures !Steps(t, n, b, NULL)
  {
  }

  lemma {:induction false} EndPlaced(t: Tree, n: Addr, start: U64, end: U64)
    requires TreeOk(t) && n in t.places
    ensures WalkEnd(t, n, start, end) in t.places && WalkEnd(t, n, start, end) in t.nodes
    decreases KEY_LEN - |t.places[n].path|
  {
    hide TreeOk;
    hide Bytes;
    hide Kid;
    hide VerdictAt;
    hide Compared;
    InNodes(t, n);
    if GoesOn(t, n, start, end) { EndPlaced(t, Kid(t.nodes[n], Next(t, n, start)), start, end); }
  }
}
