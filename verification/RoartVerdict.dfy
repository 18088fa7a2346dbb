/** Both bounds of a range in a ROART tree: how nodes are compared with them, where the walk along both ends, and what is listed there. */
module RoartVerdicts {
  import opened Bits
  import opened Addresses
  import opened Prefixes
  import opened RoartKeys
  import opened RoartLayouts
  import opened RoartModel
  import opened RoartPrefixes
  import opened RoartStates
  import opened RoartLists
  import opened RoartWays

  datatype Equals = BothMatch | Contained | Outside | Skipped

  /** What checkPrefixEquals makes of a node's bytes: it compares each with both bounds, also behind the byte where they part. */
  function Verdict(full: seq<Byte>, s: seq<Byte>, e: seq<Byte>, j: nat): Equals
    requires j <= |full| <= |s| && |s| == |e|
    decreases |full| - j
  {
    if j == |full| then BothMatch
    else if s[j] < full[j] < e[j] then Contained
    else if full[j] < s[j] || full[j] > e[j] then Outside
    else Verdict(full, s, e, j + 1)
  }

  /** A byte from j on lies strictly between those of the bounds, and no earlier one outside them. */
  ghost predicate BetweenFirst(full: seq<Byte>, s: seq<Byte>, e: seq<Byte>, j: nat)
    requires j <= |full| <= |s| && |s| == |e|
  {
    exists k :: j <= k < |full| && s[k] < full[k] < e[k] && forall i | j <= i < k :: s[i] <= full[i] <= e[i]
  }

  predicate OnEdge(full: seq<Byte>, s: seq<Byte>, e: seq<Byte>, i: nat)
    requires i < |full| <= |s| && |s| == |e|
  {
    s[i] <= full[i] <= e[i] && (full[i] == s[i] || full[i] == e[i])
  }

  /** A byte lies outside them, and all earlier ones are one of theirs. */
  ghost predicate OffFirst(full: seq<Byte>, s: seq<Byte>, e: seq<Byte>, j: nat)
    requires j <= |full| <= |s| && |s| == |e|
  {
    exists k :: j <= k < |full| && !(s[k] <= full[k] <= e[k]) && forall i | j <= i < k :: OnEdge(full, s, e, i)
  }

  /** Every byte is one of theirs. */
  ghost predicate OnBounds(full: seq<Byte>, s: seq<Byte>, e: seq<Byte>, j: nat)
    requires j <= |full| <= |s| && |s| == |e|
  {
    forall i | j <= i < |full| :: OnEdge(full, s, e, i)
  }

  /** The verdict in closed form. */
  lemma {:induction false} VerdictMeans(full: seq<Byte>, s: seq<Byte>, e: seq<Byte>, j: nat)
    requires j <= |full| <= |s| && |s| == |e|
    ensures Verdict(full, s, e, j) == Contained <==> BetweenFirst(full, s, e, j)
    ensures Verdict(full, s, e, j) == Outside <==> OffFirst(full, s, e, j)
    ensures Verdict(full, s, e, j) == BothMatch <==> OnBounds(full, s, e, j)
    ensures Verdict(full, s, e, j) != Skipped
    decreases |full| - j
  {
    hide BetweenFirst;
    hide OffFirst;
    hide OnBounds;
    if j == |full| {
      VerdictNone(full, s, e);
    } else {
      VerdictMeans(full, s, e, j + 1);
      BetweenStep(full, s, e, j);
      OffStep(full, s, e, j);
      OnStep(full, s, e, j);
    }
  }

  lemma VerdictNone(full: seq<Byte>, s: seq<Byte>, e: seq<Byte>)
    requires |full| <= |s| && |s| == |e|
    ensures !BetweenFirst(full, s, e, |full|) && !OffFirst(full, s, e, |full|) && OnBounds(full, s, e, |full|)
  {
  }

  lemma BetweenStep(full: seq<Byte>, s: seq<Byte>, e: seq<Byte>, j: nat)
    requires j < |full| <= |s| && |s| == |e|
    ensures BetweenFirst(full, s, e, j) <==> s[j] < full[j] < e[j] || (s[j] <= full[j] <= e[j] && BetweenFirst(full, s, e, j + 1))
  {
    if s[j] <= full[j] <= e[j] && BetweenFirst(full, s, e, j + 1) {
      var k :| j + 1 <= k < |full| && s[k] < full[k] < e[k] && forall i | j + 1 <= i < k :: s[i] <= full[i] <= e[i];
      assert forall i | j <= i < k :: s[i] <= full[i] <= e[i];
    }
    if BetweenFirst(full, s, e, j) && !(s[j] < full[j] < e[j]) {
      var k :| j <= k < |full| && s[k] < full[k] < e[k] && forall i | j <= i < k :: s[i] <= full[i] <= e[i];
      assert k > j && s[j] <= full[j] <= e[j] && forall i | j + 1 <= i < k :: s[i] <= full[i] <= e[i];
    }
  }

  lemma OffStep(full: seq<Byte>, s: seq<Byte>, e: seq<Byte>, j: nat)
    requires j < |full| <= |s| && |s| == |e|
    ensures OffFirst(full, s, e, j) <==> !(s[j] <= full[j] <= e[j]) || (OnEdge(full, s, e, j) && OffFirst(full, s, e, j + 1))
  {
    hide OnEdge;
    if OnEdge(full, s, e, j) && OffFirst(full, s, e, j + 1) {
      var k :| j + 1 <= k < |full| && !(s[k] <= full[k] <= e[k]) && forall i | j + 1 <= i < k :: OnEdge(full, s, e, i);
      assert forall i | j <= i < k :: OnEdge(full, s, e, i);
    }
    if OffFirst(full, s, e, j) && s[j] <= full[j] <= e[j] {
      var k :| j <= k < |full| && !(s[k] <= full[k] <= e[k]) && forall i | j <= i < k :: OnEdge(full, s, e, i);
      assert k > j && OnEdge(full, s, e, j);
    }
  }

  lemma OnStep(full: seq<Byte>, s: seq<Byte>, e: seq<Byte>, j: nat)
    requires j < |full| <= |s| && |s| == |e|
    ensures OnBounds(full, s, e, j) <==> OnEdge(full, s, e, j) && OnBounds(full, s, e, j + 1)
  {
    hide OnEdge;
  }

  ghost function VerdictAt(t: Tree, n: Addr, start: U64, end: U64): Equals
    requires Compared(t, n)
  {
    Verdict(Seen(t.nodes[n].prefix, t.places[n]), Bytes(start), Bytes(end), |t.places[n].path|)
  }

  /** The next byte of the bounds at a node. */
  function Next(t: Tree, n: Addr, bound: U64): Byte
    requires n in t.places && |t.places[n].full| < KEY_LEN
  {
    Bytes(bound)[|t.places[n].full|]
  }

  /** The lookup takes a node for one on the way of both bounds, and goes on to a child. */
  ghost predicate GoesOn(t: Tree, n: Addr, start: U64, end: U64) {
    && Compared(t, n) && VerdictAt(t, n, start, end) == BothMatch && Next(t, n, start) == Next(t, n, end)
    && Steps(t, n, Next(t, n, start), Kid(t.nodes[n], Next(t, n, start)))
  }

  /** The cell where this ends. */
  ghost function WalkEnd(t: Tree, n: Addr, start: U64, end: U64): Addr
    requires n in t.places
    decreases KEY_LEN - |t.places[n].path|
  {
    if GoesOn(t, n, start, end) then WalkEnd(t, Kid(t.nodes[n], Next(t, n, start)), start, end) else n
  }

  /** The bytes of a key behind a node's, as a walk sees them. */
  ghost function Tail(t: Tree, n: Addr, key: U64): (s: seq<Byte>)
    requires Compared(t, n)
    ensures |s| == KEY_LEN - |t.places[n].full|
  {
    SeenFrom(t, n, key)[|t.places[n].full| - |t.places[n].path|..]
  }

  /** The keys that the lookup lists at the node where the walk ends. */
  ghost function RangeKeys(t: Tree, n: Addr, start: U64, end: U64): iset<U64>
    requires Compared(t, n)
  {
    iset key: U64 | Prefix(t.places[n].path, Bytes(key)) && InRangeAt(t, n, start, end, key)
  }

  ghost predicate InRangeAt(t: Tree, n: Addr, start: U64, end: U64, key: U64)
    requires Compared(t, n)
  {
    match VerdictAt(t, n, start, end)
    case Contained => true
    case BothMatch => !Less(Tail(t, n, key), Bytes(start)[|t.places[n].full|..]) && Less(Tail(t, n, key), Bytes(end)[|t.places[n].full|..])
    case _ => false
  }

  /** Where the bounds take different children: start's way meets a prefix too short, or end's does before the result is full. */
  ghost predicate RangeStuck(t: Tree, n: Addr, start: U64, end: U64, limit: nat)
    requires TreeOk(t) && Compared(t, n)
  {
    && VerdictAt(t, n, start, end) == BothMatch && Next(t, n, start) < Next(t, n, end)
    && (MeetsShort(t, Kid(t.nodes[n], Next(t, n, start)), start) || StuckVia(t, n, Next(t, n, end), RangeKeys(t, n, start, end), end, limit))
  }

  datatype Lookup = Found(result: Entries, more: bool) | Restart | LeafRead

  /** What a lookup does that has come to a cell. */
  ghost predicate Outcome(t: Tree, n: Addr, start: U64, end: U64, limit: nat, lookup: Lookup)
    requires TreeOk(t) && n in t.places && n in t.nodes
  {
    && (lookup.LeafRead? <==> t.nodes[n].Leaf?)
    && (lookup.Restart? <==> Short(t, n) || (Compared(t, n) && RangeStuck(t, n, start, end, limit)))
    && (lookup.Found? ==> Compared(t, n) && FirstEntries(t, RangeKeys(t, n, start, end), limit, lookup.result, lookup.more))
  }

  /** What lookupRange returns. */
  ghost predicate LookupOf(t: Tree, start: U64, end: U64, limit: nat, lookup: Lookup)
    requires TreeOk(t)
  {
    if start >= end then lookup == Found([], false)
    else
      var n := WalkEnd(t, t.root, start, end);
      n in t.places && n in t.nodes && Outcome(t, n, start, end, limit, lookup)
  }

  lemma NoKeys(t: Tree, n: Addr, start: U64, end: U64)
    requires Compared(t, n) && VerdictAt(t, n, start, end) == Outside
    ensures forall key :: key !in RangeKeys(t, n, start, end)
  {
    hide VerdictAt;
  }

  /** At a node where the bounds take different children: which keys below a child are listed. */
  lemma RangeChild(t: Tree, n: Addr, start: U64, end: U64, b: Byte, c: Addr, key: U64)
    requires TreeOk(t) && Compared(t, n) && VerdictAt(t, n, start, end) == BothMatch && IsParent(t, n, b, c)
    requires Prefix(t.places[n].full + [b], Bytes(key))
    ensures c in t.places && c in t.nodes && |t.places[c].path| == |t.places[n].full| + 1 <= KEY_LEN
    ensures key in RangeKeys(t, n, start, end) <==>
      && (b > Next(t, n, start) || (b == Next(t, n, start) && key in FromOn(t, c, start)))
      && (b < Next(t, n, end) || (b == Next(t, n, end) && key in UpTo(t, c, end)))
  {
    hide TreeOk;
    hide Bytes;
    hide Kid;
    hide Less;
    hide SeenPart;
    hide Verdict;
    var L, s, e := |t.places[n].full|, Bytes(start), Bytes(end);
    ComparedNode(t, n);
    PathPrefix(t, n);
    PrefixLast(t.places[n].full, b, Bytes(key));
    PrefixTrans(t.places[n].path, t.places[n].full, Bytes(key));
    SeenStep(t, n, key, c);
    hide SeenFrom;
    hide Compared;
    var x := SeenFrom(t, c, key);
    assert Tail(t, n, key) == [b] + x;
    SplitLess(b, x, s, L);
    SplitLess(b, x, e, L);
  }

  lemma SplitLess(b: Byte, x: seq<Byte>, s: seq<Byte>, L: nat)
    requires L < |s| && |x| == |s| - L - 1
    ensures Less([b] + x, s[L..]) <==> b < s[L] || (b == s[L] && Less(x, s[L + 1..]))
  {
    assert s[L..] == [s[L]] + s[L + 1..];
    LessParts([b], x, [s[L]], s[L + 1..]);
    LessOne(b, s[L]);
  }

  /** All that is listed has its next byte between those of the bounds. */
  lemma RangeBytes(t: Tree, n: Addr, start: U64, end: U64)
    requires TreeOk(t) && Compared(t, n) && VerdictAt(t, n, start, end) == BothMatch
    ensures forall key | Listed(t, t.places[n].full, RangeKeys(t, n, start, end), key) :: Next(t, n, start) <= Bytes(key)[|t.places[n].full|] <= Next(t, n, end)
  {
    hide TreeOk;
    hide Contents;
    hide Bytes;
    hide Kid;
    hide Less;
    hide SeenPart;
    hide Verdict;
    hide RangeKeys;
    hide FromOn;
    hide UpTo;
    hide Next;
    hide Compared;
    ComparedNode(t, n);
    PathPrefix(t, n);
    forall key | key in Contents(t) && Prefix(t.places[n].full, Bytes(key)) && key in RangeKeys(t, n, start, end)
      ensures Next(t, n, start) <= Bytes(key)[|t.places[n].full|] <= Next(t, n, end)
    {
      HasKey(t, key);
      PrefixTrans(t.places[n].path, t.places[n].full, Bytes(key));
      Through(t, n, key);
      var b := Bytes(key)[|t.places[n].full|];
      KidPlaced(t, n, b);
      RangeChild(t, n, start, end, b, Kid(t.nodes[n], b), key);
    }
  }
}
