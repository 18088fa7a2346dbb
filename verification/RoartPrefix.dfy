/**
 Prefixes of ROART nodes: how a key is compared with one, right or not, when a node turns its own keys away, and how a
 merge joins two prefixes.
 */
module RoartPrefixes {
  import opened Bits
  import opened Prefixes
  import opened RoartKeys
  import opened RoartLayouts
  import opened RoartModel

  datatype PrefixResult = NoMatch | Match | OptimisticMatch

  /** Where in a prefix the comparison with a key starts. */
  function Offset(p: NodePrefix, nodeLevel: nat, level: nat): nat
    requires p.prefixCount + level >= nodeLevel
  {
    p.prefixCount + level - nodeLevel
  }

  /** Some stored byte differs from the key. */
  ghost predicate StoredMismatch(p: NodePrefix, nodeLevel: nat, fkey: seq<Byte>, level: nat)
    requires level <= nodeLevel <= |fkey| && p.prefixCount + level >= nodeLevel
  {
    exists j: nat :: level <= j < nodeLevel && Offset(p, nodeLevel, level) + (j - level) < |p.bytes|
      && p.bytes[Offset(p, nodeLevel, level) + (j - level)] != fkey[j]
  }

  /**
   mycheckPrefix and checkPrefix. A prefix that is too short is skipped, of one that is too long only the lower
   part is compared.
   */
  method CheckPrefix(p: NodePrefix, nodeLevel: nat, fkey: seq<Byte>, level: nat) returns (result: PrefixResult, nextLevel: nat)
    requires level <= nodeLevel && |fkey| == KEY_LEN && PrefixShaped(p)
    ensures result == NoMatch <==> KEY_LEN <= nodeLevel || (p.prefixCount + level >= nodeLevel && StoredMismatch(p, nodeLevel, fkey, level))
    ensures result != NoMatch ==> nextLevel == nodeLevel
    ensures result != NoMatch ==> (result == Match <==> p.prefixCount + level >= nodeLevel && p.prefixCount <= MAX_STORED)
  {
    nextLevel := level;
    if KEY_LEN <= nodeLevel {
      return NoMatch, nextLevel;
    }
    if p.prefixCount + level < nodeLevel {
      return OptimisticMatch, nodeLevel;
    }
    if p.prefixCount > 0 {
      var i := p.prefixCount + level - nodeLevel;
      while i < Min(p.prefixCount, MAX_STORED)
        invariant i - nextLevel == p.prefixCount - nodeLevel && level <= nextLevel
        invariant i <= p.prefixCount
        invariant forall j: nat | level <= j < nextLevel && Offset(p, nodeLevel, level) + (j - level) < |p.bytes| ::
          p.bytes[Offset(p, nodeLevel, level) + (j - level)] == fkey[j]
      {
        if p.bytes[i] != fkey[nextLevel] {
          assert p.bytes[Offset(p, nodeLevel, level) + (nextLevel - level)] != fkey[nextLevel];
          return NoMatch, nextLevel;
        }
        nextLevel := nextLevel + 1;
        i := i + 1;
      }
      if p.prefixCount > MAX_STORED {
        return OptimisticMatch, nodeLevel;
      }
    }
    return Match, nextLevel;
  }

  /** A prefix that turns away the keys below its own node: a byte that it compares is not theirs. */
  ghost predicate TurnsAway(p: NodePrefix, place: Place) {
    |place.path| <= |place.full| <= p.prefixCount + |place.path| && StoredMismatch(p, |place.full|, place.full, |place.path|)
  }

  /** A prefix is right from some byte on, whether or not that is where the path above ends. */
  ghost predicate Describes(p: NodePrefix, full: seq<Byte>) {
    p.prefixCount <= |full| && p == PrefixFrom(full, |full| - p.prefixCount)
  }

  ghost predicate Right(p: NodePrefix, place: Place) {
    |place.path| <= |place.full| && p == PrefixFrom(place.full, |place.path|)
  }

  /** A key below a node mismatches exactly if the node turns its keys away. */
  lemma BelowMatches(p: NodePrefix, place: Place, fkey: seq<Byte>)
    requires |place.path| <= |place.full| <= p.prefixCount + |place.path| && Prefix(place.full, fkey)
    ensures StoredMismatch(p, |place.full|, fkey, |place.path|) <==> TurnsAway(p, place)
  {
    PrefixAt(place.full, fkey);
  }

  /** A full match at a node that does not turn its keys away is a match of the node's bytes. */
  lemma MatchMeans(p: NodePrefix, place: Place, fkey: seq<Byte>)
    requires PrefixShaped(p) && |place.path| <= |place.full| < |fkey| && |place.full| <= p.prefixCount + |place.path|
    requires p.prefixCount <= MAX_STORED && !TurnsAway(p, place) && !StoredMismatch(p, |place.full|, fkey, |place.path|)
    ensures fkey[|place.path|..|place.full|] == place.full[|place.path|..]
  {
    var full, level := place.full, |place.path|;
    forall j | level <= j < |full| ensures fkey[j] == full[j] {
      var k := Offset(p, |full|, level) + (j - level);
      assert p.bytes[k] == fkey[j];
      assert p.bytes[k] == full[j];
    }
  }

  /** A prefix that describes the node's bytes from anywhere on turns no key away. */
  lemma DescribesHonest(p: NodePrefix, place: Place)
    requires Describes(p, place.full)
    ensures !TurnsAway(p, place)
  {
    var full, level := place.full, |place.path|;
    if level <= |full| <= p.prefixCount + level {
      forall j: nat | level <= j < |full| && Offset(p, |full|, level) + (j - level) < |p.bytes|
        ensures p.bytes[Offset(p, |full|, level) + (j - level)] == full[j]
      {
        DescribedByte(full, |full| - p.prefixCount, Offset(p, |full|, level) + (j - level));
      }
    }
  }

  lemma DescribedByte(full: seq<Byte>, s: nat, k: nat)
    requires s <= |full| && k < |PrefixFrom(full, s).bytes|
    ensures s + k < |full| && PrefixFrom(full, s).bytes[k] == full[s + k]
  {
  }

  lemma RightDescribes(p: NodePrefix, place: Place)
    requires Right(p, place)
    ensures Describes(p, place.full)
  {
  }

  /** Of the prefixes of the right length, exactly those that turn no key away are right. */
  lemma RightLengthExactly(p: NodePrefix, place: Place)
    requires PrefixShaped(p) && |place.path| <= |place.full| == p.prefixCount + |place.path|
    ensures Right(p, place) <==> !TurnsAway(p, place)
  {
    var full, level, r := place.full, |place.path|, PrefixFrom(place.full, |place.path|);
    if Right(p, place) { DescribesHonest(p, place); }
    if !TurnsAway(p, place) {
      forall k | 0 <= k < |p.bytes| ensures p.bytes[k] == r.bytes[k] {
        DescribedByte(full, level, k);
        assert p.bytes[Offset(p, |full|, level) + (level + k - level)] == full[level + k];
      }
      assert p.bytes == r.bytes;
    }
  }

  /** The byte that a walk through a node compares at a level: a stored one as far as they go, then one of a leaf below. */
  function SeenAt(p: NodePrefix, place: Place, j: nat): Byte
    requires PrefixShaped(p) && |place.path| <= j < |place.full| <= p.prefixCount + |place.path|
  {
    var i := Offset(p, |place.full|, |place.path|) + (j - |place.path|);
    if i < MAX_STORED then p.bytes[i] else place.full[j]
  }

  /** The bytes of a node as such a walk sees them. */
  function Seen(p: NodePrefix, place: Place): (s: seq<Byte>)
    requires PrefixShaped(p) && |place.path| <= |place.full| <= p.prefixCount + |place.path|
    ensures |s| == |place.full|
    ensures forall j | |place.path| <= j < |place.full| :: s[j] == SeenAt(p, place, j)
    ensures forall j | 0 <= j < |place.path| :: s[j] == place.full[j]
  {
    seq(|place.full|, j requires 0 <= j < |place.full| => if j < |place.path| then place.full[j] else SeenAt(p, place, j))
  }

  /** A walk sees a node's own bytes exactly if the node does not turn its keys away. */
  lemma SeenExactly(p: NodePrefix, place: Place)
    requires PrefixShaped(p) && |place.path| <= |place.full| <= p.prefixCount + |place.path|
    ensures Seen(p, place) == place.full <==> !TurnsAway(p, place)
  {
    var full, level, d := place.full, |place.path|, Offset(p, |place.full|, |place.path|);
    if !TurnsAway(p, place) {
      forall j | level <= j < |full| ensures SeenAt(p, place, j) == full[j] {
        if d + (j - level) < MAX_STORED { assert p.bytes[d + (j - level)] == full[j]; }
      }
    } else {
      var k := TurnedByte(p, place);
      assert SeenAt(p, place, level + k - d) != full[level + k - d];
    }
  }

  /** The first byte that a key differs in from a prefix that is right is where it leaves the node. */
  lemma SeenParts(p: NodePrefix, place: Place, fkey: seq<Byte>, f: nat)
    requires Right(p, place) && Prefix(place.path, place.full) && Prefix(place.path, fkey) && PrefixShaped(p) && |place.path| <= f < |place.full| <= |fkey|
    requires |place.full| <= p.prefixCount + |place.path|
    requires forall j | |place.path| <= j < f :: SeenAt(p, place, j) == fkey[j]
    ensures fkey[..f] == place.full[..f] && SeenAt(p, place, f) == place.full[f]
  {
    RightSeen(p, place);
    PrefixAt(place.path, place.full);
    PrefixAt(place.path, fkey);
  }

  lemma SeenMatch(p: NodePrefix, place: Place, fkey: seq<Byte>)
    requires Right(p, place) && Prefix(place.path, place.full) && Prefix(place.path, fkey) && PrefixShaped(p) && |place.full| <= |fkey|
    requires |place.full| <= p.prefixCount + |place.path|
    requires forall j | |place.path| <= j < |place.full| :: SeenAt(p, place, j) == fkey[j]
    ensures Prefix(place.full, fkey)
  {
    RightSeen(p, place);
    PrefixAt(place.path, place.full);
    PrefixAt(place.path, fkey);
    PrefixAt(place.full, fkey);
  }

  lemma RightSeen(p: NodePrefix, place: Place)
    requires Right(p, place) && PrefixShaped(p) && |place.full| <= p.prefixCount + |place.path|
    ensures forall j | |place.path| <= j < |place.full| :: SeenAt(p, place, j) == place.full[j]
  {
    RightDescribes(p, place);
    DescribesHonest(p, place);
    SeenExactly(p, place);
    assert forall j | |place.path| <= j < |place.full| :: Seen(p, place)[j] == SeenAt(p, place, j);
  }

  /** addPrefixBefore: the prefix of a node that takes its parent's place, below byte key of the parent. */
  function AddPrefixBefore(p: NodePrefix, nodeP: NodePrefix, key: Byte): NodePrefix
    requires PrefixShaped(p) && PrefixShaped(nodeP)
    ensures PrefixShaped(AddPrefixBefore(p, nodeP, key))
  {
    var copyCount := Min(MAX_STORED, nodeP.prefixCount + 1);
    var moved := p.bytes[..Min(p.prefixCount, MAX_STORED - copyCount)];
    NodePrefix(p.prefixCount + nodeP.prefixCount + 1,
               nodeP.bytes[..Min(copyCount, nodeP.prefixCount)] + (if nodeP.prefixCount < MAX_STORED then [key] else []) + moved)
  }

  /** The prefix of a child that covers full from byte c on, joined with its parent's, which covers the bytes before upper from byte s on. */
  function JoinOf(full: seq<Byte>, upper: nat, s: nat, c: nat): (r: NodePrefix)
    requires s <= upper < |full| && c <= |full|
    ensures PrefixShaped(r) && r.prefixCount == |full| - c + upper - s + 1
  {
    AddPrefixBefore(PrefixFrom(full, c), PrefixFrom(full[..upper], s), full[upper])
  }

  /** What stands at a place of a joined prefix: bytes from s on up to the parent's last, then bytes from c on. */
  lemma JoinedByte(full: seq<Byte>, upper: nat, s: nat, c: nat, k: nat)
    requires s <= upper < |full| && c <= |full| && k < |JoinOf(full, upper, s, c).bytes|
    ensures k > upper - s ==> c + k - (upper - s + 1) < |full|
    ensures JoinOf(full, upper, s, c).bytes[k] == if k <= upper - s then full[s + k] else full[c + k - (upper - s + 1)]
  {
    var p, nodeP := PrefixFrom(full, c), PrefixFrom(full[..upper], s);
    if k < upper - s { DescribedByte(full[..upper], s, k); }
    if k > upper - s { DescribedByte(full, c, k - (upper - s + 1)); }
  }

  /** Joining right prefixes gives the right one. */
  lemma Joined(full: seq<Byte>, upper: nat, s: nat)
    requires s <= upper < |full|
    ensures JoinOf(full, upper, s, upper + 1) == PrefixFrom(full, s)
  {
    hide JoinOf;
    hide PrefixFrom;
    var r, q := JoinOf(full, upper, s, upper + 1), PrefixFrom(full, s);
    Shape(full, s);
    forall j | 0 <= j < |r.bytes| ensures r.bytes[j] == q.bytes[j] {
      JoinedByte(full, upper, s, upper + 1, j);
      DescribedByte(full, s, j);
    }
    assert r.bytes == q.bytes;
  }

  lemma Shape(full: seq<Byte>, s: nat)
    requires s <= |full|
    ensures PrefixFrom(full, s).prefixCount == |full| - s && PrefixShaped(PrefixFrom(full, s))
  {
  }

  /** Where the comparison of a joined prefix starts, if the node comes to sit behind a path of a bytes. */
  function JoinOffset(upper: nat, a: nat, s: nat, c: nat): int {
    upper + 1 - c + a - s
  }

  /** Byte k of a joined prefix is compared, comes from the parent, and differs from the byte that it stands for. */
  ghost predicate Slid(full: seq<Byte>, upper: nat, a: nat, s: nat, c: nat, k: nat)
    requires a <= upper < |full| && s <= upper && c <= |full|
  {
    var d := JoinOffset(upper, a, s, c);
    0 <= d <= k < MAX_STORED && k <= upper - s && full[s + k] != full[a + k - d]
  }

  /** A joined prefix, byte for byte: it turns keys away exactly if a byte of it slid. */
  lemma JoinedAt(full: seq<Byte>, upper: nat, a: nat, s: nat, c: nat)
    requires a <= upper < |full| && s <= upper && c <= |full|
    ensures TurnsAway(JoinOf(full, upper, s, c), Place(full[..a], full)) <==> exists k: nat :: Slid(full, upper, a, s, c, k)
  {
    hide JoinOf;
    hide TurnsAway;
    var r, place, d := JoinOf(full, upper, s, c), Place(full[..a], full), JoinOffset(upper, a, s, c);
    if TurnsAway(r, place) {
      var k := TurnedByte(r, place);
      JoinedByte(full, upper, s, c, k);
      assert Slid(full, upper, a, s, c, k);
    }
    if k: nat :| Slid(full, upper, a, s, c, k) {
      JoinedByte(full, upper, s, c, k);
      ByteTurns(r, place, k);
    }
  }

  /** The byte at which a prefix turns keys away. */
  lemma TurnedByte(p: NodePrefix, place: Place) returns (k: nat)
    requires TurnsAway(p, place)
    ensures |place.path| <= |place.full| <= p.prefixCount + |place.path|
    ensures Offset(p, |place.full|, |place.path|) <= k < |p.bytes| && |place.path| + k - Offset(p, |place.full|, |place.path|) < |place.full|
    ensures p.bytes[k] != place.full[|place.path| + k - Offset(p, |place.full|, |place.path|)]
  {
    var d, level := Offset(p, |place.full|, |place.path|), |place.path|;
    var j: nat :| level <= j < |place.full| && d + (j - level) < |p.bytes| && p.bytes[d + (j - level)] != place.full[j];
    k := d + (j - level);
  }

  lemma ByteTurns(p: NodePrefix, place: Place, k: nat)
    requires |place.path| <= |place.full| <= p.prefixCount + |place.path|
    requires Offset(p, |place.full|, |place.path|) <= k < |p.bytes| && |place.path| + k - Offset(p, |place.full|, |place.path|) < |place.full|
    requires p.bytes[k] != place.full[|place.path| + k - Offset(p, |place.full|, |place.path|)]
    ensures TurnsAway(p, place)
  {
    var d, level := Offset(p, |place.full|, |place.path|), |place.path|;
    var j := level + k - d;
    assert p.bytes[d + (j - level)] != place.full[j];
  }

  /**
   Whatever the bytes are, no key is turned away after a join, unless the child's prefix starts at another byte than the
   one right below its parent, but still below the path, and the comparison starts among the stored bytes. Then some are.
   */
  lemma JoinedExactly(n: nat, upper: nat, a: nat, s: nat, c: nat)
    requires a <= upper < n < KEY_LEN && s <= upper && c <= n
    ensures (exists full: seq<Byte> :: |full| == n && TurnsAway(JoinOf(full, upper, s, c), Place(full[..a], full)))
      <==> a < c && c != upper + 1 && 0 <= JoinOffset(upper, a, s, c) < MAX_STORED
  {
    hide JoinOf;
    hide TurnsAway;
    if full: seq<Byte> :| |full| == n && TurnsAway(JoinOf(full, upper, s, c), Place(full[..a], full)) {
      JoinedAt(full, upper, a, s, c);
      var k: nat :| Slid(full, upper, a, s, c, k);
      assert c != upper + 1;
    }
    if a < c && c != upper + 1 && 0 <= JoinOffset(upper, a, s, c) < MAX_STORED {
      var full: seq<Byte> := seq(n, i => i);
      JoinedAt(full, upper, a, s, c);
      assert Slid(full, upper, a, s, c, JoinOffset(upper, a, s, c));
    }
  }

  /** The same where the parent's prefix is right: only the child is left over from an edit that a crash cut off. */
  lemma JoinedBelowRight(n: nat, upper: nat, a: nat, c: nat)
    requires a <= upper < n < KEY_LEN && c <= n
    ensures (exists full: seq<Byte> :: |full| == n && TurnsAway(JoinOf(full, upper, a, c), Place(full[..a], full)))
      <==> a < c <= upper && upper + 1 - c < MAX_STORED
  {
    JoinedExactly(n, upper, a, a, c);
  }
}
