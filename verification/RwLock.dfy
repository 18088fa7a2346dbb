/**
 ERTSpinRWLock as a step system: one 32-bit word, any number of threads, each thread's next access to the
 word being one step. Between its accesses a thread remembers what it has read.
 */
module RwLocks {
  import opened Bits
  import opened Counting

  const WRITER_FLAG: U32 := 0x8000_0000

  datatype Thread =
    | Idle                 // holds nothing; a thread that spins is idle again
    | ReadSeen(cur: U32)   // read_lock loaded cur and found no writer
    | Reading
    | WriteSeen            // write_lock found no writer, fetch_or comes next
    | Draining             // write_lock set the flag and waits for the readers
    | Writing

  datatype State = State(word: U32, threads: seq<Thread>)

  datatype Action = LoadToRead | TryRead(spurious: bool) | ReadUnlock | LoadToWrite | SetFlag | CheckReaders | WriteUnlock

  /** word & WRITER_FLAG */
  function FlagSet(word: U32): bool {
    word / WRITER_FLAG == 1
  }

  /** word & READER_MASK */
  function ReaderBits(word: U32): U32 {
    word % WRITER_FLAG
  }

  predicate Enabled(t: Thread, a: Action) {
    match a
    case LoadToRead => t == Idle
    case TryRead(_) => t.ReadSeen?
    case ReadUnlock => t == Reading
    case LoadToWrite => t == Idle
    case SetFlag => t == WriteSeen
    case CheckReaders => t == Draining
    case WriteUnlock => t == Writing
  }

  /** One access to the word: its new value, and the thread after it. */
  function Access(word: U32, t: Thread, a: Action): (U32, Thread)
    requires Enabled(t, a)
  {
    match a
    case LoadToRead => (word, if FlagSet(word) then Idle else ReadSeen(word))
    case TryRead(spurious) => if word == t.cur && !spurious then ((t.cur + 1) % U32_LIMIT, Reading) else (word, Idle)
    case ReadUnlock => ((word - 1) % U32_LIMIT, Idle)
    case LoadToWrite => (word, if FlagSet(word) then Idle else WriteSeen)
    case SetFlag => if FlagSet(word) then (word, Idle) else (word + WRITER_FLAG, Draining)
    case CheckReaders => (word, if ReaderBits(word) == 0 then Writing else Draining)
    case WriteUnlock => (ReaderBits(word), Idle)
  }

  predicate CanAct(s: State, i: nat, a: Action) {
    i < |s.threads| && Enabled(s.threads[i], a)
  }

  function Act(s: State, i: nat, a: Action): State
    requires CanAct(s, i, a)
  {
    var (word, t) := Access(s.word, s.threads[i], a);
    State(word, s.threads[i := t])
  }

  ghost predicate Next(s: State, s': State) {
    exists i, a :: CanAct(s, i, a) && s' == Act(s, i, a)
  }

  function Init(n: nat): State {
    State(0, seq(n, _ => Idle))
  }

  ghost predicate Run(n: nat, states: seq<State>) {
    states != [] && states[0] == Init(n) && forall k | 0 <= k < |states| - 1 :: Next(states[k], states[k + 1])
  }

  // ----- what every state keeps -----

  function IsReading(t: Thread): bool { t == Reading }

  function IsOwner(t: Thread): bool { t == Draining || t == Writing }

  function Readers(s: State): nat {
    CountIf(s.threads, IsReading)
  }

  function Owners(s: State): nat {
    CountIf(s.threads, IsOwner)
  }

  ghost predicate Seen(t: Thread) {
    t.ReadSeen? ==> !FlagSet(t.cur)
  }

  /** The word counts the readers and the one owner of the flag; who writes has waited for all readers. */
  ghost predicate Inv(s: State) {
    && s.word == Readers(s) + WRITER_FLAG * Owners(s)
    && Owners(s) <= 1 && Readers(s) <= WRITER_FLAG && (Owners(s) == 1 ==> Readers(s) < WRITER_FLAG)
    && (forall i | 0 <= i < |s.threads| :: Seen(s.threads[i]))
    && (forall i | 0 <= i < |s.threads| && s.threads[i] == Writing :: Readers(s) == 0)
  }

  lemma {:induction false} NoneYet(n: nat, f: Thread -> bool)
    requires !f(Idle)
    ensures CountIf(Init(n).threads, f) == 0
  {
    CountNone(Init(n).threads, f);
  }

  lemma InvInit(n: nat)
    ensures Inv(Init(n)) && |Init(n).threads| == n
  {
    NoneYet(n, IsReading);
    NoneYet(n, IsOwner);
  }

  lemma Counted(s: State, i: nat, a: Action)
    requires CanAct(s, i, a)
    ensures var s', t, t' := Act(s, i, a), s.threads[i], Access(s.word, s.threads[i], a).1;
      && Readers(s') == Readers(s) - (if t == Reading then 1 else 0) + (if t' == Reading then 1 else 0)
      && Owners(s') == Owners(s) - (if IsOwner(t) then 1 else 0) + (if IsOwner(t') then 1 else 0)
      && (t == Reading ==> Readers(s) >= 1) && (IsOwner(t) ==> Owners(s) >= 1)
  {
    var t' := Access(s.word, s.threads[i], a).1;
    CountSet(s.threads, IsReading, i, t');
    CountSet(s.threads, IsOwner, i, t');
    if s.threads[i] == Reading { CountSome(s.threads, IsReading, i); }
    if IsOwner(s.threads[i]) { CountSome(s.threads, IsOwner, i); }
  }

  /** A thread that writes is the only owner. */
  lemma WriterAlone(s: State, i: nat)
    requires Owners(s) <= 1 && i < |s.threads| && IsOwner(s.threads[i])
    ensures Owners(s) == 1 && forall j | 0 <= j < |s.threads| && j != i :: !IsOwner(s.threads[j])
  {
    CountSome(s.threads, IsOwner, i);
  }

  lemma InvStep(s: State, i: nat, a: Action)
    requires Inv(s) && CanAct(s, i, a)
    ensures Inv(Act(s, i, a))
  {
    var s' := Act(s, i, a);
    Counted(s, i, a);
    forall j | 0 <= j < |s'.threads| && s'.threads[j] == Writing ensures Readers(s') == 0 {
      WriterAlone(s, if s.threads[j] == Writing then j else i);
    }
  }

  /** Mutual exclusion, for any number of threads. */
  lemma Exclusion(s: State, i: nat, j: nat)
    requires Inv(s) && i < |s.threads| && j < |s.threads| && i != j && s.threads[i] == Writing
    ensures s.threads[j] != Reading && s.threads[j] != Writing && s.threads[j] != Draining
  {
    WriterAlone(s, i);
    CountNone(s.threads, IsReading);
  }

  /** While the flag is set, the readers only become fewer. */
  lemma FlagHoldsReaders(s: State, i: nat, a: Action)
    requires Inv(s) && CanAct(s, i, a) && FlagSet(s.word)
    ensures Readers(Act(s, i, a)) <= Readers(s)
  {
    Counted(s, i, a);
  }

  // ----- what the accesses are for -----

  lemma WordParts(s: State)
    requires Inv(s)
    ensures FlagSet(s.word) <==> Owners(s) == 1 || Readers(s) == WRITER_FLAG
    ensures Readers(s) < WRITER_FLAG ==> ReaderBits(s.word) == Readers(s)
  {
  }

  /** The last check of write_lock succeeds exactly when no thread reads. */
  lemma ReadersGone(s: State, i: nat)
    requires Inv(s) && i < |s.threads| && s.threads[i] == Draining
    ensures CanAct(s, i, CheckReaders)
    ensures Act(s, i, CheckReaders).threads[i] == Writing <==> forall j | 0 <= j < |s.threads| :: s.threads[j] != Reading
  {
    WordParts(s);
    WriterAlone(s, i);
    SomeReader(s);
  }

  lemma SomeReader(s: State)
    ensures Readers(s) == 0 <==> forall j | 0 <= j < |s.threads| :: s.threads[j] != Reading
  {
    if Readers(s) == 0 {
      forall j | 0 <= j < |s.threads| ensures s.threads[j] != Reading {
        if s.threads[j] == Reading { CountSome(s.threads, IsReading, j); }
      }
    } else if forall j | 0 <= j < |s.threads| :: s.threads[j] != Reading {
      CountNone(s.threads, IsReading);
    }
  }

  /** Steps from one state on. */
  ghost predicate Path(s: State, path: seq<State>) {
    path != [] && path[0] == s && forall k | 0 <= k < |path| - 1 :: Next(path[k], path[k + 1])
  }

  function Last(path: seq<State>): State
    requires path != []
  {
    path[|path| - 1]
  }

  lemma Further(s: State, path: seq<State>, more: seq<State>)
    requires Path(s, path) && Path(Last(path), more)
    ensures Path(s, path + more[1..]) && Last(path + more[1..]) == Last(more)
  {
    var all := path + more[1..];
    forall k | 0 <= k < |all| - 1 ensures Next(all[k], all[k + 1]) {
      if k >= |path| - 1 { assert all[k] == more[k - (|path| - 1)] && all[k + 1] == more[k + 1 - (|path| - 1)]; }
    }
  }

  lemma OneStep(s: State, i: nat, a: Action) returns (path: seq<State>)
    requires Inv(s) && CanAct(s, i, a)
    ensures Path(s, path) && Last(path) == Act(s, i, a) && Inv(Last(path))
  {
    InvStep(s, i, a);
    path := [s, Act(s, i, a)];
  }

  /** The readers unlock one after another, and then the thread that waits for them writes. */
  lemma {:induction false} Drain(s: State, i: nat) returns (path: seq<State>)
    requires Inv(s) && i < |s.threads| && s.threads[i] == Draining
    ensures Path(s, path) && Inv(Last(path)) && |Last(path).threads| == |s.threads| && Last(path).threads[i] == Writing
    ensures forall j | 0 <= j < |s.threads| && s.threads[j] == Idle :: Last(path).threads[j] == Idle
    decreases Readers(s)
  {
    ReadersGone(s, i);
    SomeReader(s);
    if Readers(s) == 0 {
      path := OneStep(s, i, CheckReaders);
    } else {
      var j :| 0 <= j < |s.threads| && s.threads[j] == Reading;
      path := OneStep(s, j, ReadUnlock);
      Counted(s, j, ReadUnlock);
      var rest := Drain(Last(path), i);
      Further(s, path, rest);
      path := path + rest[1..];
    }
  }

  /** A thread that holds nothing takes the free lock for writing. */
  lemma TakeFree(s: State, i: nat) returns (path: seq<State>)
    requires Inv(s) && i < |s.threads| && s.threads[i] == Idle && !FlagSet(s.word)
    ensures Path(s, path) && Inv(Last(path)) && |Last(path).threads| == |s.threads| && Last(path).threads[i] == Writing
  {
    path := OneStep(s, i, LoadToWrite);
    var flag := OneStep(Last(path), i, SetFlag);
    Further(s, path, flag);
    path := path + flag[1..];
    var rest := Drain(Last(path), i);
    Further(s, path, rest);
    path := path + rest[1..];
  }

  /** The flag is given up: its owner finishes, or, with 2^31 readers, one of them. */
  lemma GiveUp(s: State, i: nat) returns (path: seq<State>)
    requires Inv(s) && i < |s.threads| && s.threads[i] == Idle && FlagSet(s.word)
    ensures Path(s, path) && Inv(Last(path)) && |Last(path).threads| == |s.threads| && Last(path).threads[i] == Idle && !FlagSet(Last(path).word)
  {
    WordParts(s);
    if Owners(s) == 1 {
      var j := SomeOwner(s);
      path := [s];
      if s.threads[j] == Draining { path := Drain(s, j); }
      WriterAlone(Last(path), j);
      var rest := OneStep(Last(path), j, WriteUnlock);
      Counted(Last(path), j, WriteUnlock);
      Further(s, path, rest);
      path := path + rest[1..];
    } else {
      SomeReader(s);
      var j :| 0 <= j < |s.threads| && s.threads[j] == Reading;
      path := OneStep(s, j, ReadUnlock);
    }
  }

  lemma SomeOwner(s: State) returns (j: nat)
    requires Owners(s) == 1
    ensures j < |s.threads| && IsOwner(s.threads[j])
  {
    if forall j | 0 <= j < |s.threads| :: !IsOwner(s.threads[j]) {
      CountNone(s.threads, IsOwner);
      assert false;
    }
    j :| 0 <= j < |s.threads| && IsOwner(s.threads[j]);
  }

  /** A thread lets go of what it holds or is about to take, or has the flag. */
  lemma ToIdle(s: State, i: nat) returns (path: seq<State>)
    requires Inv(s) && i < |s.threads| && s.threads[i] != Writing && s.threads[i] != Draining
    ensures Path(s, path) && Inv(Last(path)) && |Last(path).threads| == |s.threads|
    ensures Last(path).threads[i] == Idle || Last(path).threads[i] == Draining
  {
    match s.threads[i]
    case Idle => path := [s];
    case ReadSeen(_) => path := OneStep(s, i, TryRead(true));
    case Reading => path := OneStep(s, i, ReadUnlock);
    case WriteSeen => path := OneStep(s, i, SetFlag);
  }

  /** From every state some steps lead any thread to where it writes: there is no deadlock. */
  lemma WriteComes(s: State, i: nat) returns (path: seq<State>)
    requires Inv(s) && i < |s.threads|
    ensures Path(s, path) && Inv(Last(path)) && |Last(path).threads| == |s.threads| && Last(path).threads[i] == Writing
  {
    path := [s];
    if s.threads[i] != Writing {
      if s.threads[i] != Draining { path := ToIdle(s, i); }
      var rest: seq<State>;
      if Last(path).threads[i] == Draining {
        rest := Drain(Last(path), i);
      } else {
        if FlagSet(Last(path).word) {
          rest := GiveUp(Last(path), i);
          Further(s, path, rest);
          path := path + rest[1..];
        }
        rest := TakeFree(Last(path), i);
      }
      Further(s, path, rest);
      path := path + rest[1..];
    }
  }

  /** And to where it reads. */
  lemma ReadComes(s: State, i: nat) returns (path: seq<State>)
    requires Inv(s) && i < |s.threads|
    ensures Path(s, path) && |Last(path).threads| == |s.threads| && Last(path).threads[i] == Reading
  {
    path := WriteComes(s, i);
    var t := Last(path);
    WriterAlone(t, i);
    var out := OneStep(t, i, WriteUnlock);
    Counted(t, i, WriteUnlock);
    Further(s, path, out);
    path := path + out[1..];
    var see := OneStep(Last(path), i, LoadToRead);
    Further(s, path, see);
    path := path + see[1..];
    var rest := OneStep(Last(path), i, TryRead(false));
    Further(s, path, rest);
    path := path + rest[1..];
  }

  // ----- whole runs -----

  lemma {:induction false} RunKeeps(n: nat, states: seq<State>)
    requires Run(n, states)
    ensures forall k | 0 <= k < |states| :: Inv(states[k]) && |states[k].threads| == n
  {
    var m := |states| - 1;
    if m == 0 {
      InvInit(n);
    } else {
      RunKeeps(n, states[..m]);
      assert states[..m][m - 1] == states[m - 1] && Next(states[m - 1], states[m]);
      var i, a :| CanAct(states[m - 1], i, a) && states[m] == Act(states[m - 1], i, a);
      InvStep(states[m - 1], i, a);
    }
  }

  /** In every reachable state a thread past write_lock shares the lock with nobody. */
  lemma RunExclusive(n: nat, states: seq<State>, k: nat, i: nat, j: nat)
    requires Run(n, states) && k < |states| && i < n && j < n && i != j
    ensures |states[k].threads| == n
    ensures states[k].threads[i] == Writing ==> states[k].threads[j] != Reading && states[k].threads[j] != Writing
  {
    RunKeeps(n, states);
    if states[k].threads[i] == Writing {
      Exclusion(states[k], i, j);
    }
  }

  /** From every reachable state with a thread that waits for the readers, some run leads to that thread writing; and to any other's. */
  lemma WriteReachable(n: nat, states: seq<State>, i: nat) returns (more: seq<State>)
    requires Run(n, states) && i < n
    ensures Run(n, states + more) && |Last(states + more).threads| == n && Last(states + more).threads[i] == Writing
  {
    RunKeeps(n, states);
    var path := WriteComes(Last(states), i);
    more := path[1..];
    RunOn(n, states, path);
  }

  lemma ReadReachable(n: nat, states: seq<State>, i: nat) returns (more: seq<State>)
    requires Run(n, states) && i < n
    ensures Run(n, states + more) && |Last(states + more).threads| == n && Last(states + more).threads[i] == Reading
  {
    RunKeeps(n, states);
    var path := ReadComes(Last(states), i);
    more := path[1..];
    RunOn(n, states, path);
  }

  lemma RunOn(n: nat, states: seq<State>, path: seq<State>)
    requires Run(n, states) && Path(Last(states), path)
    ensures Run(n, states + path[1..]) && Last(states + path[1..]) == Last(path)
  {
    Further(states[0], states, path);
  }

  /** As long as the flag stays set, no reader comes in. */
  lemma {:induction false} WriterDrains(n: nat, states: seq<State>, a: nat, b: nat)
    requires Run(n, states) && a <= b < |states| && forall k | a <= k < b :: FlagSet(states[k].word)
    ensures Readers(states[b]) <= Readers(states[a])
  {
    if a < b {
      WriterDrains(n, states, a, b - 1);
      RunKeeps(n, states);
      assert Next(states[b - 1], states[b]);
      var i, x :| CanAct(states[b - 1], i, x) && states[b] == Act(states[b - 1], i, x);
      FlagHoldsReaders(states[b - 1], i, x);
    }
  }

  ghost predicate BitsWrong(n: nat, states: seq<State>) {
    Run(n, states) && var s := states[|states| - 1]; ReaderBits(s.word) != Readers(s)
  }

  lemma ReadersOf(s: State, k: nat)
    requires k <= |s.threads| && forall i | 0 <= i < |s.threads| :: s.threads[i] == if i < k then Reading else Idle
    ensures Readers(s) == k && Owners(s) == 0
    decreases |s.threads|
  {
    CountNone(s.threads, IsOwner);
    if s.threads != [] {
      var n := |s.threads| - 1;
      ReadersOf(s.(threads := s.threads[..n]), if k == n + 1 then n else k);
    }
  }

  /** k threads take the read lock one after the other. */
  lemma {:induction false} Fill(n: nat, k: nat) returns (states: seq<State>)
    requires k <= n && k <= WRITER_FLAG
    ensures Run(n, states)
    ensures var s := states[|states| - 1];
      s.word == k && |s.threads| == n && forall i | 0 <= i < n :: s.threads[i] == if i < k then Reading else Idle
  {
    if k == 0 {
      return [Init(n)];
    }
    states := Fill(n, k - 1);
    var s := states[|states| - 1];
    var s1 := Act(s, k - 1, LoadToRead);
    var s2 := Act(s1, k - 1, TryRead(false));
    assert CanAct(s, k - 1, LoadToRead) && CanAct(s1, k - 1, TryRead(false));
    assert Next(s, s1) && Next(s1, s2);
    states := states + [s1, s2];
  }

  /** The reader bits go wrong in some run exactly if there are 2^31 threads or more: the count runs into the flag. */
  lemma BitsExact(n: nat)
    ensures (exists states :: BitsWrong(n, states)) <==> n >= WRITER_FLAG
  {
    forall states | Run(n, states) && n < WRITER_FLAG ensures !BitsWrong(n, states) {
      RunKeeps(n, states);
    }
    if n >= WRITER_FLAG {
      var states := Fill(n, WRITER_FLAG);
      ReadersOf(states[|states| - 1], WRITER_FLAG);
      assert BitsWrong(n, states);
    }
  }
}
