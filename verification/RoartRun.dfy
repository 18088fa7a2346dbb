/** Runs of ROART operations, some of them cut off by a crash: what every crash costs, and which operations are kept. */
module RoartRuns {
  import opened Bits
  import opened RoartKeys
  import opened RoartModel
  import opened RoartPrefixes
  import opened RoartStates

  datatype Op = Put(key: U64, value: U64) | Update(key: U64, value: U64) | Remove(key: U64)

  /** How an operation ended: a crash cut it off between a pointer and a prefix, or inside a node. */
  datatype End = Done | CutBetween | CutInside

  /** What put asks of the tree to promise anything. */
  ghost predicate PutReady(t: Tree, key: U64) {
    RepairableOn(t, key) && SlotFree(t, key)
  }

  /** What the operations promise of a completed call. */
  ghost predicate Completed(t: Tree, t': Tree, op: Op)
    requires TreeOk(t)
  {
    match op
    case Put(key, value) => PutReady(t, key) ==> Updated(t, t', key, value) && KeptRight(t, t') && (Quiet(t) ==> Quiet(t'))
    case Update(key, value) =>
      && (if key in Contents(t) && !Turned(t, key) then Updated(t, t', key, value) else SameContents(t, t'))
      && KeptRight(t, t') && (Quiet(t) ==> Quiet(t'))
    case Remove(key) =>
      if key in Contents(t) && !Turned(t, key) && !Stops(t, key) then
        && Removed(t, t', key) && (Clean(t) ==> Clean(t')) && (Quiet(t) ==> Quiet(t'))
        && (Described(t) && JoinsDescribed(t, key) ==> Described(t'))
      else t' == t
  }

  /** What they promise of memory that a crash leaves: an update has one store only. */
  ghost predicate CutOff(t: Tree, t': Tree, op: Op)
    requires TreeOk(t)
  {
    match op
    case Put(key, value) => PutReady(t, key) ==> PutImage(t, t', key, value)
    case Update(key, value) => UpdateImage(t, t', key, value)
    case Remove(key) => RemoveImage(t, t', key)
  }

  ghost predicate Step(t: Tree, t': Tree, op: Op, end: End)
    requires TreeOk(t)
  {
    match end
    case Done => Completed(t, t', op)
    case CutBetween => CutOff(t, t', op) && (Quiet(t) ==> Quiet(t'))
    case CutInside => CutOff(t, t', op) && KeptRight(t, t')
  }

  /** Every memory that a crash may leave is left by one of the two kinds of crash. */
  lemma EitherCut(t: Tree, t': Tree, op: Op)
    requires TreeOk(t) && CutOff(t, t', op) && (op.Put? ==> PutReady(t, op.key))
    ensures Step(t, t', op, CutBetween) || Step(t, t', op, CutInside)
  {
    hide TreeOk;
    hide Contents;
    hide PutReady;
    hide Quiet;
    hide KeptRight;
  }

  function AppliedOp(m: map<U64, U64>, op: Op): map<U64, U64> {
    match op
    case Put(key, value) => m[key := value]
    case Update(key, value) => if key in m then m[key := value] else m
    case Remove(key) => m - {key}
  }

  function Applied(ops: seq<Op>, kept: seq<bool>): map<U64, U64>
    requires |ops| == |kept|
  {
    if ops == [] then map[]
    else
      var n := |ops| - 1;
      if kept[n] then AppliedOp(Applied(ops[..n], kept[..n]), ops[n]) else Applied(ops[..n], kept[..n])
  }

  /** No operation up to here was cut off in this way. */
  predicate Never(end: End, ends: seq<End>, n: nat)
    requires n <= |ends|
  {
    forall i | 0 <= i < n :: ends[i] != end
  }

  /** A run from an empty tree; each step is possible in a well-formed tree. */
  ghost predicate IsRun(trees: seq<Tree>, ops: seq<Op>, ends: seq<End>) {
    && |trees| == |ops| + 1 && |ends| == |ops|
    && TreeOk(trees[0]) && Contents(trees[0]) == map[] && Clean(trees[0]) && Quiet(trees[0])
    && forall i | 0 <= i < |ops| && TreeOk(trees[i]) :: Step(trees[i], trees[i + 1], ops[i], ends[i])
  }

  /** What a crash may cost: a put after one inside a node comes to a slot that another byte has an index for, or a removal after one
      between a pointer and a prefix joins prefixes wrongly. */
  ghost predicate Spared(trees: seq<Tree>, ops: seq<Op>, ends: seq<End>)
    requires |trees| == |ops| + 1 && |ends| == |ops|
  {
    && (forall i | 0 <= i < |ops| && ops[i].Put? && !Never(CutInside, ends, i) :: SlotFree(trees[i], ops[i].key))
    && (forall i | 0 <= i < |ops| && ops[i].Remove? && ends[i].Done? && !Never(CutBetween, ends, i) :: JoinsDescribed(trees[i], ops[i].key))
  }

  /** What holds of every tree of such a run. */
  ghost predicate RunState(t: Tree, ends: seq<End>, n: nat)
    requires n <= |ends|
  {
    TreeOk(t) && Described(t) && (Never(CutBetween, ends, n) ==> Clean(t)) && (Never(CutInside, ends, n) ==> Quiet(t))
  }

  lemma PutIsReady(t: Tree, key: U64, ends: seq<End>, n: nat)
    requires n <= |ends| && RunState(t, ends, n) && (Never(CutInside, ends, n) || SlotFree(t, key))
    ensures PutReady(t, key)
  {
    hide TreeOk;
    hide Honest;
    hide Repairable;
    hide RepairableOn;
    hide Described;
    hide Clean;
    hide Quiet;
    hide SlotFree;
    DescribedHonest(t);
    HonestRepairable(t);
    RepairableThere(t, key);
    if Quiet(t) { QuietSlots(t, key); }
  }

  /** One step of a run, completed: the state is kept, and so is the operation, but for a removal that stops. */
  lemma StepDone(t: Tree, t': Tree, op: Op, ends: seq<End>, n: nat)
    requires n < |ends| && ends[n] == Done && RunState(t, ends, n) && Step(t, t', op, Done)
    requires op.Put? && !Never(CutInside, ends, n) ==> SlotFree(t, op.key)
    requires op.Remove? && !Never(CutBetween, ends, n) ==> JoinsDescribed(t, op.key)
    ensures RunState(t', ends, n + 1)
    ensures Contents(t') == if op.Remove? && Stops(t, op.key) then Contents(t) else AppliedOp(Contents(t), op)
    ensures Never(CutInside, ends, n) ==> !(op.Remove? && Stops(t, op.key))
  {
    hide TreeOk;
    hide Contents;
    hide Honest;
    hide Described;
    hide Clean;
    hide Quiet;
    hide Turned;
    hide Stops;
    hide JoinsDescribed;
    hide KeptRight;
    hide Kept;
    hide PutReady;
    hide SlotFree;
    assert forall e | Never(e, ends, n + 1) :: Never(e, ends, n);
    DescribedHonest(t);
    HonestExactly(t);
    if op.Put? { PutIsReady(t, op.key, ends, n); }
    if Never(CutInside, ends, n) && op.Remove? { QuietNeverStops(t, op.key); }
    if KeptRight(t, t') { KeptAll(t, t'); }
    if Clean(t') { CleanDescribed(t'); }
    if op.Remove? && op.key in Contents(t) && Stops(t, op.key) { assert t' == t; }
    StoppedPresent(t, op);
  }

  lemma StoppedPresent(t: Tree, op: Op)
    requires TreeOk(t)
    ensures op.Remove? && Stops(t, op.key) ==> op.key in Contents(t)
    ensures op.Remove? && op.key !in Contents(t) ==> AppliedOp(Contents(t), op) == Contents(t)
  {
    hide TreeOk;
    hide Contents;
    if op.Remove? && Stops(t, op.key) {
      var l, n, c :| StopsAt(t, op.key, l, n, c);
      AtLeaf(t, l, op.key);
    }
  }

  lemma KeptAll(t: Tree, t': Tree)
    requires KeptRight(t, t')
    ensures (Clean(t) ==> Clean(t')) && (Described(t) ==> Described(t'))
  {
    hide KeptRight;
    hide Kept;
    hide Clean;
    hide Described;
    KeptRightKeeps(t, t');
    KeptKeeps(t, t');
  }

  /** One step cut off: a crash costs one of two things, and the operation is all or nothing. */
  lemma StepCut(t: Tree, t': Tree, op: Op, ends: seq<End>, n: nat)
    requires n < |ends| && ends[n] != Done && RunState(t, ends, n) && Step(t, t', op, ends[n])
    requires op.Put? && !Never(CutInside, ends, n) ==> SlotFree(t, op.key)
    ensures RunState(t', ends, n + 1)
    ensures Contents(t') == Contents(t) || Contents(t') == AppliedOp(Contents(t), op)
  {
    hide TreeOk;
    hide Contents;
    hide Described;
    hide Clean;
    hide Quiet;
    hide KeptRight;
    hide Kept;
    hide PutReady;
    hide SlotFree;
    assert forall e | Never(e, ends, n + 1) :: Never(e, ends, n) && ends[n] != e;
    if op.Put? {
      PutIsReady(t, op.key, ends, n);
      KeptKeeps(t, t');
    }
    if KeptRight(t, t') { KeptAll(t, t'); }
  }

  /**
   Any run of operations from an empty tree that is spared: the map is that of the operations that were kept. All completed ones are,
   but for a removal that stops, which only a crash inside a node can bring about. As long as no crash came between a pointer and a
   prefix every prefix is right, and as long as none came inside a node no node is left half-done.
   */
  lemma {:induction false} RunWithCrashes(trees: seq<Tree>, ops: seq<Op>, ends: seq<End>) returns (kept: seq<bool>)
    requires IsRun(trees, ops, ends) && Spared(trees, ops, ends)
    ensures |kept| == |ops| && forall i | 0 <= i <= |ops| :: RunState(trees[i], ends, i)
    ensures forall i | 0 <= i < |ops| && ends[i].Done? :: kept[i] || (ops[i].Remove? && Stops(trees[i], ops[i].key))
    ensures forall i | 0 <= i < |ops| && ops[i].Remove? && Never(CutInside, ends, i) :: !Stops(trees[i], ops[i].key)
    ensures TreeOk(trees[|ops|]) && Contents(trees[|ops|]) == Applied(ops, kept)
  {
    hide TreeOk;
    hide Contents;
    hide Stops;
    hide IsRun;
    hide Spared;
    hide RunState;
    hide Never;
    hide AppliedOp;
    RunLength(trees, ops, ends);
    if ops == [] {
      NewState(trees, ops, ends);
      return [];
    }
    var n := |ops| - 1;
    RunPrefix(trees, ops, ends);
    var before := RunWithCrashes(trees[..|ops|], ops[..n], ends[..n]);
    forall i | 0 <= i <= n ensures RunState(trees[i], ends, i) && (Never(CutInside, ends[..n], i) <==> Never(CutInside, ends, i)) {
      assert trees[..|ops|][i] == trees[i];
      assert RunState(trees[i], ends[..n], i);
      StatePrefix(trees[i], ends, n, i);
    }
    var last := RunStep(trees, ops, ends);
    kept := before + [last];
    assert kept[..n] == before;
    forall i | 0 <= i < n && ends[i].Done? ensures kept[i] || (ops[i].Remove? && Stops(trees[i], ops[i].key)) {
      assert ends[..n][i] == ends[i] && ops[..n][i] == ops[i] && trees[..|ops|][i] == trees[i];
    }
    forall i | 0 <= i < n && ops[i].Remove? && Never(CutInside, ends, i) ensures !Stops(trees[i], ops[i].key) {
      assert ops[..n][i] == ops[i] && trees[..|ops|][i] == trees[i];
    }
    assert trees[..|ops|][n] == trees[n];
  }

  lemma RunLength(trees: seq<Tree>, ops: seq<Op>, ends: seq<End>)
    requires IsRun(trees, ops, ends)
    ensures |trees| == |ops| + 1 && |ends| == |ops|
  {
  }

  lemma NewState(trees: seq<Tree>, ops: seq<Op>, ends: seq<End>)
    requires IsRun(trees, ops, ends)
    ensures RunState(trees[0], ends, 0) && TreeOk(trees[0]) && Contents(trees[0]) == map[]
  {
    hide TreeOk;
    hide Contents;
    hide Described;
    hide Clean;
    hide Quiet;
    hide Step;
    CleanDescribed(trees[0]);
  }

  lemma RunPrefix(trees: seq<Tree>, ops: seq<Op>, ends: seq<End>)
    requires IsRun(trees, ops, ends) && Spared(trees, ops, ends) && ops != []
    ensures var n := |ops| - 1; IsRun(trees[..|ops|], ops[..n], ends[..n]) && Spared(trees[..|ops|], ops[..n], ends[..n])
  {
    hide TreeOk;
    hide Contents;
    hide Clean;
    hide Quiet;
    hide Step;
    hide SlotFree;
    hide JoinsDescribed;
    forall i, e | 0 <= i < |ops| ensures Never(e, ends[..|ops| - 1], i) <==> Never(e, ends, i) {
      NeverPrefix(e, ends, |ops| - 1, i);
    }
    hide Never;
  }

  lemma NeverPrefix(e: End, ends: seq<End>, n: nat, i: nat)
    requires i <= n <= |ends|
    ensures Never(e, ends[..n], i) <==> Never(e, ends, i)
  {
    assert forall k | 0 <= k < i :: ends[..n][k] == ends[k];
  }

  lemma StatePrefix(t: Tree, ends: seq<End>, n: nat, i: nat)
    requires i <= n <= |ends| && RunState(t, ends[..n], i)
    ensures RunState(t, ends, i) && (Never(CutInside, ends[..n], i) <==> Never(CutInside, ends, i))
  {
    hide TreeOk;
    hide Clean;
    hide Quiet;
    hide Described;
    NeverPrefix(CutInside, ends, n, i);
    NeverPrefix(CutBetween, ends, n, i);
    hide Never;
  }

  lemma RunStep(trees: seq<Tree>, ops: seq<Op>, ends: seq<End>) returns (kept: bool)
    requires IsRun(trees, ops, ends) && Spared(trees, ops, ends) && ops != [] && RunState(trees[|ops| - 1], ends, |ops| - 1)
    ensures var n := |ops| - 1; RunState(trees[n], ends, n) && RunState(trees[|ops|], ends, |ops|) && TreeOk(trees[|ops|])
    ensures var n := |ops| - 1; Contents(trees[|ops|]) == if kept then AppliedOp(Contents(trees[n]), ops[n]) else Contents(trees[n])
    ensures var n := |ops| - 1; ends[n].Done? ==> kept || (ops[n].Remove? && Stops(trees[n], ops[n].key))
    ensures var n := |ops| - 1; ops[n].Remove? && Never(CutInside, ends, n) ==> !Stops(trees[n], ops[n].key)
  {
    hide TreeOk;
    hide Contents;
    hide Clean;
    hide Quiet;
    hide Stops;
    hide Described;
    hide SlotFree;
    hide JoinsDescribed;
    hide Step;
    hide Never;
    hide AppliedOp;
    var n := |ops| - 1;
    kept := OneMore(trees[n], trees[|ops|], ops[n], ends, n);
  }

  lemma OneMore(t: Tree, t': Tree, op: Op, ends: seq<End>, n: nat) returns (kept: bool)
    requires n < |ends| && RunState(t, ends, n) && Step(t, t', op, ends[n])
    requires op.Put? && !Never(CutInside, ends, n) ==> SlotFree(t, op.key)
    requires op.Remove? && ends[n].Done? && !Never(CutBetween, ends, n) ==> JoinsDescribed(t, op.key)
    ensures RunState(t', ends, n + 1) && Contents(t') == if kept then AppliedOp(Contents(t), op) else Contents(t)
    ensures ends[n].Done? ==> kept || (op.Remove? && Stops(t, op.key))
    ensures op.Remove? && Never(CutInside, ends, n) ==> !Stops(t, op.key)
  {
    hide TreeOk;
    hide Contents;
    hide Clean;
    hide Quiet;
    hide Stops;
    hide Described;
    hide SlotFree;
    hide JoinsDescribed;
    hide Step;
    hide Never;
    hide AppliedOp;
    if ends[n].Done? {
      kept := !(op.Remove? && Stops(t, op.key));
      StepDone(t, t', op, ends, n);
    } else {
      StepCut(t, t', op, ends, n);
      kept := Contents(t') == AppliedOp(Contents(t), op);
      if Never(CutInside, ends, n) && op.Remove? { QuietNeverStops(t, op.key); }
    }
  }

  /** Without crashes nothing is asked: every operation is kept, and all trees are clean and quiet. */
  lemma RunWithoutCrashes(trees: seq<Tree>, ops: seq<Op>, ends: seq<End>)
    requires IsRun(trees, ops, ends) && forall i | 0 <= i < |ops| :: ends[i].Done?
    ensures forall i | 0 <= i <= |ops| :: TreeOk(trees[i]) && Clean(trees[i]) && Quiet(trees[i])
    ensures TreeOk(trees[|ops|]) && Contents(trees[|ops|]) == Applied(ops, seq(|ops|, _ => true))
    ensures forall i | 0 <= i < |ops| && ops[i].Remove? :: !Stops(trees[i], ops[i].key)
  {
    hide TreeOk;
    hide Contents;
    hide Clean;
    hide Quiet;
    hide Stops;
    hide Described;
    hide SlotFree;
    hide JoinsDescribed;
    hide Step;
    hide Applied;
    assert forall i, e | 0 <= i <= |ops| && e != Done :: Never(e, ends, i);
    var kept := RunWithCrashes(trees, ops, ends);
    assert kept == seq(|ops|, _ => true);
  }
}
