/**
 The word of a ROART node: type, version, lock bit and obsolete bit in 64 bits, changed by atomic additions
 and compare-and-swap. Each access to the word is one step of some thread; any number of threads.
 */
module VersionLocks {
  import opened Bits
  import opened Counting

  const LOCK := 2
  const TYPE_UNIT := 0x1000_0000_0000_0000      // 1 << 60
  const VERSIONS := 0x400_0000_0000_0000        // 1 << 58, the versions that fit below the type
  const WRAP := 0x4000_0000_0000_0000           // 1 << 62, the sections after which the word repeats

  type NodeType = t: nat | t < 16

  /** version & 0b10 */
  function IsLocked(v: U64): bool { v / 2 % 2 == 1 }

  /** version & 1 */
  function IsObsolete(v: U64): bool { v % 2 == 1 }

  function TypeOf(v: U64): NodeType { v / TYPE_UNIT }

  function VersionOf(v: U64): nat { v % TYPE_UNIT / 4 }

  /** A history variable: the critical sections begun and ended since the node was made. */
  datatype History = History(nodeType: NodeType, begun: nat, ended: nat, obsolete: bool)

  datatype Thread =
    | Out
    | Saw(v: U64, at: History)   // getVersion returned v; the history then
    | Waiting(v: U64)            // writeLockOrRestart loaded v, neither locked nor obsolete; the swap comes next
    | Holding

  datatype State = State(word: U64, threads: seq<Thread>, h: History)

  datatype Action = GetVersion | LockVersion | LoadToLock | TryLock(spurious: bool) | WriteUnlock | WriteUnlockObsolete | Forget

  predicate Enabled(t: Thread, a: Action) {
    match a
    case GetVersion => t.Out?
    case LockVersion => t.Saw?
    case LoadToLock => t.Out?
    case TryLock(_) => t.Waiting?
    case WriteUnlock => t.Holding?
    case WriteUnlockObsolete => t.Holding?
    case Forget => t.Saw?
  }

  /** fetch_add */
  function Plus(word: U64, x: nat): U64 {
    (word + x) % U64_LIMIT
  }

  /** One access to the word: its new value, and the thread after it. */
  function Access(s: State, t: Thread, a: Action): (U64, Thread)
    requires Enabled(t, a)
  {
    match a
    case GetVersion => (s.word, Saw(s.word, s.h))
    case LockVersion =>
      if IsLocked(t.v) || IsObsolete(t.v) || s.word != t.v then (s.word, Out) else (Plus(t.v, LOCK), Holding)
    case LoadToLock => (s.word, if IsLocked(s.word) || IsObsolete(s.word) then Out else Waiting(s.word))
    case TryLock(spurious) => if s.word != t.v || spurious then (s.word, Out) else (Plus(t.v, LOCK), Holding)
    case WriteUnlock => (Plus(s.word, LOCK), Out)
    case WriteUnlockObsolete => (Plus(s.word, LOCK + 1), Out)
    case Forget => (s.word, Out)
  }

  predicate CanAct(s: State, i: nat, a: Action) {
    i < |s.threads| && Enabled(s.threads[i], a)
  }

  function Act(s: State, i: nat, a: Action): State
    requires CanAct(s, i, a)
  {
    var (word, t) := Access(s, s.threads[i], a);
    var h := if t.Holding? then s.h.(begun := s.h.begun + 1)
             else if s.threads[i].Holding? then s.h.(ended := s.h.ended + 1, obsolete := s.h.obsolete || a.WriteUnlockObsolete?)
             else s.h;
    State(word, s.threads[i := t], h)
  }

  ghost predicate Next(s: State, s': State) {
    exists i, a :: CanAct(s, i, a) && s' == Act(s, i, a)
  }

  /** 0b100, plus the type in its bits. */
  function Init(n: nat, nodeType: NodeType): State {
    State(nodeType * TYPE_UNIT + 4, seq(n, _ => Out), History(nodeType, 0, 0, false))
  }

  ghost predicate Run(n: nat, nodeType: NodeType, states: seq<State>) {
    states != [] && states[0] == Init(n, nodeType) && forall k | 0 <= k < |states| - 1 :: Next(states[k], states[k + 1])
  }

  // ----- what every state keeps -----

  function IsHolding(t: Thread): bool { t.Holding? }

  function Holders(s: State): nat {
    CountIf(s.threads, IsHolding)
  }

  function Bit(b: bool): nat { if b then 1 else 0 }

  /** At most one section runs, and none on an obsolete node. */
  predicate Sane(h: History) {
    h.ended <= h.begun <= h.ended + 1 && (h.obsolete ==> h.begun == h.ended)
  }

  /** The word of a history, without the wrap-around. */
  function Total(h: History): nat
    requires Sane(h)
  {
    h.nodeType * TYPE_UNIT + 4 * (1 + h.ended) + 2 * (h.begun - h.ended) + Bit(h.obsolete)
  }

  /** h' is h or a later history. */
  predicate Later(h: History, h': History) {
    h'.nodeType == h.nodeType && h.begun <= h'.begun && h.ended <= h'.ended && (h.obsolete ==> h'.begun == h.begun && h'.obsolete)
  }

  ghost predicate ThreadOk(h: History, t: Thread) {
    && (t.Saw? ==> Sane(t.at) && Later(t.at, h) && t.v == Total(t.at) % U64_LIMIT)
    && (t.Waiting? ==> !IsLocked(t.v) && !IsObsolete(t.v))
  }

  ghost predicate Inv(s: State) {
    && Sane(s.h) && s.h.begun == s.h.ended + Holders(s) && s.word == Total(s.h) % U64_LIMIT
    && forall i | 0 <= i < |s.threads| :: ThreadOk(s.h, s.threads[i])
  }

  /** The two low bits survive any wrap-around. */
  lemma LowBits(h: History)
    requires Sane(h)
    ensures var v := Total(h) % U64_LIMIT; IsLocked(v) == (h.begun > h.ended) && IsObsolete(v) == h.obsolete
  {
    var q := Total(h) / U64_LIMIT;
    var v := Total(h) % U64_LIMIT;
    assert v == Total(h) - q * U64_LIMIT;
    var m := h.nodeType * (TYPE_UNIT / 4) + 1 + h.ended - q * (U64_LIMIT / 4);
    assert v == 4 * m + 2 * (h.begun - h.ended) + Bit(h.obsolete);
  }

  lemma PlusTotal(x: nat, y: nat)
    ensures Plus(x % U64_LIMIT, y) == (x + y) % U64_LIMIT
  {
    var q, r := x / U64_LIMIT, x % U64_LIMIT;
    assert x + y == q * U64_LIMIT + (r + y);
    Reduced(q, r + y);
  }

  lemma InvInit(n: nat, nodeType: NodeType)
    ensures Inv(Init(n, nodeType))
  {
    CountNone(Init(n, nodeType).threads, IsHolding);
  }

  lemma {:induction false} InvStep(s: State, i: nat, a: Action)
    requires Inv(s) && CanAct(s, i, a)
    ensures Inv(Act(s, i, a)) && Later(s.h, Act(s, i, a).h)
  {
    var t, s' := s.threads[i], Act(s, i, a);
    var t' := s'.threads[i];
    assert ThreadOk(s.h, t);
    LowBits(s.h);
    CountSet(s.threads, IsHolding, i, t');
    if t.Holding? { CountSome(s.threads, IsHolding, i); }
    PlusTotal(Total(s.h), LOCK);
    PlusTotal(Total(s.h), LOCK + 1);
    forall j | 0 <= j < |s'.threads| ensures ThreadOk(s'.h, s'.threads[j]) {
      if j != i { assert ThreadOk(s.h, s.threads[j]); }
    }
  }

  // ----- what the word promises -----

  /** At most one thread is between lock and unlock. */
  lemma OneHolder(s: State, i: nat, j: nat)
    requires Inv(s) && i < |s.threads| && j < |s.threads| && s.threads[i].Holding? && s.threads[j].Holding?
    ensures i == j && IsLocked(s.word) && !IsObsolete(s.word)
  {
    LowBits(s.h);
    CountSome(s.threads, IsHolding, i);
  }

  /** Obsolete is permanent, and nobody gets the lock of an obsolete node. */
  lemma ObsoleteStays(s: State, i: nat, a: Action)
    requires Inv(s) && CanAct(s, i, a) && IsObsolete(s.word)
    ensures IsObsolete(Act(s, i, a).word) && !Act(s, i, a).threads[i].Holding?
  {
    InvStep(s, i, a);
    LowBits(s.h);
    LowBits(Act(s, i, a).h);
    NoLockWhenObsolete(s, i, a);
  }

  lemma NoLockWhenObsolete(s: State, i: nat, a: Action)
    requires Inv(s) && CanAct(s, i, a)
    ensures s.h.obsolete ==> !Act(s, i, a).threads[i].Holding?
  {
    LowBits(s.h);
    assert ThreadOk(s.h, s.threads[i]);
    if s.threads[i].Holding? { CountSome(s.threads, IsHolding, i); }
  }

  /** writeUnlockObsolete makes the word obsolete and free, writeUnlock leaves it free and not obsolete. */
  lemma UnlockMarks(s: State, i: nat)
    requires Inv(s) && i < |s.threads| && s.threads[i].Holding?
    ensures CanAct(s, i, WriteUnlock) && CanAct(s, i, WriteUnlockObsolete)
    ensures IsObsolete(Act(s, i, WriteUnlockObsolete).word) && !IsLocked(Act(s, i, WriteUnlockObsolete).word)
    ensures !IsObsolete(Act(s, i, WriteUnlock).word) && !IsLocked(Act(s, i, WriteUnlock).word)
  {
    InvStep(s, i, WriteUnlock);
    InvStep(s, i, WriteUnlockObsolete);
    CountSome(s.threads, IsHolding, i);
    LowBits(Act(s, i, WriteUnlock).h);
    LowBits(Act(s, i, WriteUnlockObsolete).h);
  }

  /** Only writeUnlockObsolete does. */
  lemma MarkedBy(s: State, i: nat, a: Action)
    requires Inv(s) && CanAct(s, i, a)
    ensures IsObsolete(Act(s, i, a).word) <==> IsObsolete(s.word) || a == WriteUnlockObsolete
  {
    if a == WriteUnlockObsolete {
      UnlockMarks(s, i);
    } else {
      InvStep(s, i, a);
      LowBits(s.h);
      LowBits(Act(s, i, a).h);
    }
  }

  /** The lock bit is set exactly while some thread holds the lock. */
  lemma LockedExactly(s: State)
    requires Inv(s)
    ensures IsLocked(s.word) <==> exists i :: 0 <= i < |s.threads| && s.threads[i].Holding?
  {
    LowBits(s.h);
    if i :| 0 <= i < |s.threads| && s.threads[i].Holding? {
      CountSome(s.threads, IsHolding, i);
    } else {
      CountNone(s.threads, IsHolding);
    }
  }

  /** writeLockOrRestart of a thread that runs alone gets the lock exactly if no thread holds it and the node is not obsolete. */
  lemma LockAlone(s: State, i: nat)
    requires Inv(s) && i < |s.threads| && s.threads[i].Out?
    ensures var s1 := Act(s, i, LoadToLock);
      if IsObsolete(s.word) || exists j :: 0 <= j < |s.threads| && s.threads[j].Holding? then s1 == s
      else CanAct(s1, i, TryLock(false)) && Act(s1, i, TryLock(false)).threads[i].Holding?
  {
    LockedExactly(s);
  }

  /** lockVersionOrRestart gets it exactly if the word is as the thread saw it, free and not obsolete. */
  lemma UpgradeExactly(s: State, i: nat)
    requires Inv(s) && i < |s.threads| && s.threads[i].Saw?
    ensures Act(s, i, LockVersion).threads[i].Holding? <==> s.word == s.threads[i].v && !IsObsolete(s.word) && !IsLocked(s.word)
    ensures !Act(s, i, LockVersion).threads[i].Holding? ==> Act(s, i, LockVersion).word == s.word
  {
  }

  lemma SameRemainder(x: nat, d: nat)
    ensures x % U64_LIMIT == (x + 4 * d) % U64_LIMIT <==> d % WRAP == 0
  {
    var q, r := x / U64_LIMIT, x % U64_LIMIT;
    var e, f := d / WRAP, d % WRAP;
    assert x == q * U64_LIMIT + r && d == e * WRAP + f;
    assert x + 4 * d == (q + e) * U64_LIMIT + (r + 4 * f);
    Reduced(q + e, r + 4 * f);
    if r + 4 * f >= U64_LIMIT {
      Reduced(1, r + 4 * f - U64_LIMIT);
    }
  }

  lemma Reduced(q: nat, r: nat)
    ensures (q * U64_LIMIT + r) % U64_LIMIT == r % U64_LIMIT
  {
  }

  /**
   readVersionOrRestart: the word a thread saw is there again exactly if the lock and obsolete bits are as they
   were and the sections in between are a multiple of 2^62.
   */
  lemma Validated(s: State, i: nat)
    requires Inv(s) && i < |s.threads| && s.threads[i].Saw?
    ensures var t := s.threads[i];
      s.word == t.v <==> (s.h.begun - t.at.begun) % WRAP == 0 && IsLocked(s.word) == IsLocked(t.v) && IsObsolete(s.word) == IsObsolete(t.v)
    ensures var t := s.threads[i];
      s.word == t.v && s.h.begun - t.at.begun < WRAP ==> s.h == t.at
  {
    var t := s.threads[i];
    assert ThreadOk(s.h, t);
    LowBits(s.h);
    LowBits(t.at);
    if IsLocked(s.word) == IsLocked(t.v) && IsObsolete(s.word) == IsObsolete(t.v) {
      var d := s.h.ended - t.at.ended;
      assert Total(s.h) == Total(t.at) + 4 * d;
      SameRemainder(Total(t.at), d);
    }
  }

  /** The type and version fields are right exactly as long as fewer than 2^58 - 1 sections have ended. */
  lemma FieldsExact(s: State)
    requires Inv(s)
    ensures TypeOf(s.word) == s.h.nodeType && VersionOf(s.word) == 1 + s.h.ended <==> 1 + s.h.ended < VERSIONS
  {
    var r := 4 * (1 + s.h.ended) + 2 * (s.h.begun - s.h.ended) + Bit(s.h.obsolete);
    if 1 + s.h.ended < VERSIONS {
      assert r < TYPE_UNIT && s.word == s.h.nodeType * TYPE_UNIT + r;
    }
  }

  // ----- whole runs -----

  lemma SameThreads(s: State, i: nat, a: Action)
    requires CanAct(s, i, a)
    ensures |Act(s, i, a).threads| == |s.threads|
  {
  }

  lemma {:induction false} RunKeeps(n: nat, nodeType: NodeType, states: seq<State>)
    requires Run(n, nodeType, states)
    ensures forall k | 0 <= k < |states| :: Inv(states[k]) && |states[k].threads| == n
    ensures forall k | 0 <= k < |states| :: Later(states[k].h, states[|states| - 1].h)
    ensures states[|states| - 1].h.nodeType == nodeType
  {
    hide Inv;
    hide Act;
    hide CanAct;
    var m := |states| - 1;
    if m == 0 {
      InvInit(n, nodeType);
    } else {
      RunKeeps(n, nodeType, states[..m]);
      assert states[..m][m - 1] == states[m - 1] && Next(states[m - 1], states[m]);
      var i, a :| CanAct(states[m - 1], i, a) && states[m] == Act(states[m - 1], i, a);
      InvStep(states[m - 1], i, a);
      SameThreads(states[m - 1], i, a);
      forall k | 0 <= k < m ensures Inv(states[k]) && |states[k].threads| == n && Later(states[k].h, states[m].h) {
        assert states[..m][k] == states[k];
      }
    }
  }

  /** Over any run: one holder at a time, an obsolete node stays obsolete and unlocked, the version never falls. */
  lemma RunSafe(n: nat, nodeType: NodeType, states: seq<State>, j: nat, k: nat)
    requires Run(n, nodeType, states) && j <= k < |states|
    ensures |states[k].threads| == n
    ensures forall a, b | 0 <= a < n && 0 <= b < n && states[k].threads[a].Holding? && states[k].threads[b].Holding? :: a == b
    ensures IsObsolete(states[j].word) ==> IsObsolete(states[k].word) && forall a | 0 <= a < n :: !states[k].threads[a].Holding?
    ensures states[k].h.ended + 1 < VERSIONS ==>
      TypeOf(states[k].word) == nodeType && VersionOf(states[j].word) <= VersionOf(states[k].word)
  {
    RunKeeps(n, nodeType, states);
    RunKeeps(n, nodeType, states[..k + 1]);
    assert states[..k + 1][j] == states[j] && states[..k + 1][k] == states[k];
    LowBits(states[j].h);
    LowBits(states[k].h);
    FieldsExact(states[j]);
    FieldsExact(states[k]);
    CountNone(states[k].threads, IsHolding);
    forall a, b | 0 <= a < n && 0 <= b < n && states[k].threads[a].Holding? && states[k].threads[b].Holding? ensures a == b {
      OneHolder(states[k], a, b);
    }
  }

  /** A validated read: between getVersion and the check no section began or ended, if fewer than 2^58 began at all. */
  lemma ReadUndisturbed(n: nat, nodeType: NodeType, states: seq<State>, k: nat, i: nat)
    requires Run(n, nodeType, states) && k < |states| && i < n && states[k].h.begun < VERSIONS
    ensures |states[k].threads| == n
    ensures states[k].threads[i].Saw? && states[k].word == states[k].threads[i].v ==> states[k].threads[i].at == states[k].h
  {
    RunKeeps(n, nodeType, states);
    if states[k].threads[i].Saw? {
      Validated(states[k], i);
    }
  }

  // ----- runs, step by step -----

  datatype Step = Step(thread: nat, action: Action)

  /** The steps that lead from each state of a run to the next. */
  ghost predicate RunBy(n: nat, nodeType: NodeType, states: seq<State>, steps: seq<Step>) {
    && |states| == |steps| + 1 && states[0] == Init(n, nodeType)
    && forall k | 0 <= k < |steps| :: CanAct(states[k], steps[k].thread, steps[k].action) && states[k + 1] == Act(states[k], steps[k].thread, steps[k].action)
  }

  lemma RunSteps(n: nat, nodeType: NodeType, states: seq<State>, steps: seq<Step>)
    requires RunBy(n, nodeType, states, steps)
    ensures Run(n, nodeType, states)
  {
    forall k | 0 <= k < |states| - 1 ensures Next(states[k], states[k + 1]) {
      assert CanAct(states[k], steps[k].thread, steps[k].action);
    }
  }

  predicate Marked(steps: seq<Step>, k: nat)
    requires k <= |steps|
  {
    exists j :: 0 <= j < k && steps[j].action == WriteUnlockObsolete
  }

  /** Over any run the word is obsolete exactly if some earlier step was a writeUnlockObsolete, and from then on no thread holds the lock. */
  lemma {:induction false} ObsoleteExactly(n: nat, nodeType: NodeType, states: seq<State>, steps: seq<Step>, k: nat)
    requires RunBy(n, nodeType, states, steps) && k <= |steps|
    ensures IsObsolete(states[k].word) <==> Marked(steps, k)
    ensures Marked(steps, k) ==> forall i | 0 <= i < |states[k].threads| :: !states[k].threads[i].Holding?
  {
    hide Act;
    hide CanAct;
    hide Inv;
    hide IsObsolete;
    RunSteps(n, nodeType, states, steps);
    RunKeeps(n, nodeType, states);
    if k == 0 {
      NotYet(n, nodeType);
    } else {
      ObsoleteExactly(n, nodeType, states, steps, k - 1);
      MarkedBy(states[k - 1], steps[k - 1].thread, steps[k - 1].action);
      assert Marked(steps, k) <==> Marked(steps, k - 1) || steps[k - 1].action == WriteUnlockObsolete;
    }
    NoneHolds(states[k]);
  }

  lemma NotYet(n: nat, nodeType: NodeType)
    ensures !IsObsolete(Init(n, nodeType).word)
  {
  }

  lemma NoneHolds(s: State)
    requires Inv(s)
    ensures IsObsolete(s.word) ==> forall i | 0 <= i < |s.threads| :: !s.threads[i].Holding?
  {
    forall i | 0 <= i < |s.threads| && s.threads[i].Holding? ensures !IsObsolete(s.word) {
      OneHolder(s, i, i);
    }
  }
}
