/**
 What a crash may leave of stores to memory that outlives it. Memory is what a log of stores and fences makes of what it was at first:
 nothing else changes it. Stores behind the last fence may be lost, in any combination. How a store changes memory, and what may be
 kept of one instead of the whole, are parameters.
 */
module Stores {
  /** A fence: what was stored, and flushed, before it is durable. */
  datatype Event<S> = Write(store: S) | Fence

  /** What the program reads. */
  function Replay<M, S>(stored: (M, S) -> M, base: M, log: seq<Event<S>>): M {
    if log == [] then base
    else
      var m := Replay(stored, base, log[..|log| - 1]);
      match log[|log| - 1]
      case Write(s) => stored(m, s)
      case Fence => m
  }

  /** A crash after these stores and fences may leave memory like this. */
  ghost predicate MayLeave<M(!new), S(!new)>(stored: (M, S) -> M, parts: S -> iset<S>, base: M, log: seq<Event<S>>, im: M) {
    if log == [] then im == base
    else
      var before := log[..|log| - 1];
      match log[|log| - 1]
      case Fence => im == Replay(stored, base, log)
      case Write(s) => MayLeave(stored, parts, base, before, im) || exists m :: MayLeave(stored, parts, base, before, m) && Keeps(stored, parts, m, s, im)
  }

  /** im is m with a store, or with what may be kept of it. */
  ghost predicate Keeps<M(!new), S(!new)>(stored: (M, S) -> M, parts: S -> iset<S>, m: M, s: S, im: M) {
    exists s' :: s' in parts(s) && im == stored(m, s')
  }

  predicate Durable<S>(log: seq<Event<S>>) {
    log == [] || log[|log| - 1].Fence?
  }

  lemma DurableExactly<M(!new), S(!new)>(stored: (M, S) -> M, parts: S -> iset<S>, base: M, log: seq<Event<S>>, im: M)
    requires Durable(log)
    ensures MayLeave(stored, parts, base, log, im) <==> im == Replay(stored, base, log)
  {
  }

  lemma ReplayMore<M, S>(stored: (M, S) -> M, base: M, log: seq<Event<S>>, e: Event<S>)
    ensures Replay(stored, base, log + [e]) == if e.Write? then stored(Replay(stored, base, log), e.store) else Replay(stored, base, log)
  {
    assert (log + [e])[..|log|] == log;
  }

  lemma LeftMore<M(!new), S(!new)>(stored: (M, S) -> M, parts: S -> iset<S>, base: M, log: seq<Event<S>>, s: S, im: M)
    ensures MayLeave(stored, parts, base, log + [Write(s)], im) <==>
      MayLeave(stored, parts, base, log, im) || exists m :: MayLeave(stored, parts, base, log, m) && Keeps(stored, parts, m, s, im)
  {
    assert (log + [Write(s)])[..|log|] == log;
  }

  /** Of one store behind a fence a crash may keep all or nothing, or a part, and leaves nothing else. */
  lemma OneLeft<M(!new), S(!new)>(stored: (M, S) -> M, parts: S -> iset<S>, base: M, log: seq<Event<S>>, s: S, im: M)
    requires Durable(log)
    ensures MayLeave(stored, parts, base, log + [Write(s)], im) <==>
      im == Replay(stored, base, log) || Keeps(stored, parts, Replay(stored, base, log), s, im)
  {
    hide Keeps;
    LeftMore(stored, parts, base, log, s, im);
    forall m ensures MayLeave(stored, parts, base, log, m) <==> m == Replay(stored, base, log) {
      DurableExactly(stored, parts, base, log, m);
    }
    hide MayLeave;
    hide Replay;
  }

  /** Of two it may keep none, either one, or both, and leaves nothing else. */
  lemma TwoLeft<M(!new), S(!new)>(stored: (M, S) -> M, parts: S -> iset<S>, base: M, log: seq<Event<S>>, s1: S, s2: S, im: M)
    requires Durable(log)
    ensures var m := Replay(stored, base, log);
      MayLeave(stored, parts, base, log + [Write(s1)] + [Write(s2)], im) <==>
        im == m || Keeps(stored, parts, m, s1, im) || Keeps(stored, parts, m, s2, im)
        || exists m1 :: Keeps(stored, parts, m, s1, m1) && Keeps(stored, parts, m1, s2, im)
  {
    hide Keeps;
    LeftMore(stored, parts, base, log + [Write(s1)], s2, im);
    OneLeft(stored, parts, base, log, s1, im);
    forall m1 ensures MayLeave(stored, parts, base, log + [Write(s1)], m1) <==>
      m1 == Replay(stored, base, log) || Keeps(stored, parts, Replay(stored, base, log), s1, m1)
    {
      OneLeft(stored, parts, base, log, s1, m1);
    }
    hide MayLeave;
    hide Replay;
  }

  // ----- logs that leave only certain memory -----

  /** Whatever a crash leaves, at any time from one point of the log to another, is in good. */
  ghost predicate LeavesOnly<M(!new), S(!new)>(stored: (M, S) -> M, parts: S -> iset<S>, base: M, from: seq<Event<S>>, log: seq<Event<S>>, good: iset<M>) {
    from <= log && forall k, im | |from| <= k <= |log| && MayLeave(stored, parts, base, log[..k], im) :: im in good
  }

  lemma OnlyTrans<M(!new), S(!new)>(stored: (M, S) -> M, parts: S -> iset<S>, base: M, l0: seq<Event<S>>, l1: seq<Event<S>>, l2: seq<Event<S>>, good: iset<M>)
    requires LeavesOnly(stored, parts, base, l0, l1, good) && LeavesOnly(stored, parts, base, l1, l2, good)
    ensures LeavesOnly(stored, parts, base, l0, l2, good)
  {
    hide MayLeave;
    forall k, im | |l0| <= k <= |l2| && MayLeave(stored, parts, base, l2[..k], im) ensures im in good {
      if k <= |l1| { assert l2[..k] == l1[..k]; }
    }
  }

  lemma OnlyMore<M(!new), S(!new)>(stored: (M, S) -> M, parts: S -> iset<S>, base: M, from: seq<Event<S>>, log: seq<Event<S>>, good: iset<M>, good': iset<M>)
    requires LeavesOnly(stored, parts, base, from, log, good) && good <= good'
    ensures LeavesOnly(stored, parts, base, from, log, good')
  {
    hide MayLeave;
  }

  lemma OnlyNow<M(!new), S(!new)>(stored: (M, S) -> M, parts: S -> iset<S>, base: M, log: seq<Event<S>>, good: iset<M>)
    requires Durable(log) && Replay(stored, base, log) in good
    ensures LeavesOnly(stored, parts, base, log, log, good)
  {
    assert log[..|log|] == log;
    forall im | MayLeave(stored, parts, base, log, im) ensures im in good {
      DurableExactly(stored, parts, base, log, im);
    }
  }

  /** One store, made durable. */
  lemma OneStore<M(!new), S(!new)>(stored: (M, S) -> M, parts: S -> iset<S>, base: M, log: seq<Event<S>>, s: S, good: iset<M>)
    requires Durable(log) && Replay(stored, base, log) in good && s in parts(s)
    requires forall im | Keeps(stored, parts, Replay(stored, base, log), s, im) :: im in good
    ensures Replay(stored, base, log + [Write(s), Fence]) == stored(Replay(stored, base, log), s) && Durable(log + [Write(s), Fence])
    ensures LeavesOnly(stored, parts, base, log, log + [Write(s), Fence], good)
  {
    var m, l1, l2 := Replay(stored, base, log), log + [Write(s)], log + [Write(s), Fence];
    assert l2 == l1 + [Fence] && l2[..|log|] == log && l2[..|log| + 1] == l1 && l2[..|log| + 2] == l2;
    ReplayMore(stored, base, log, Write(s));
    ReplayMore(stored, base, l1, Fence);
    KeepsWhole(stored, parts, m, s);
    hide Replay;
    hide Keeps;
    forall k, im | |log| <= k <= |l2| && MayLeave(stored, parts, base, l2[..k], im) ensures im in good {
      if k == |log| {
        DurableExactly(stored, parts, base, log, im);
      } else if k == |log| + 1 {
        OneLeft(stored, parts, base, log, s, im);
      } else {
        DurableExactly(stored, parts, base, l2, im);
      }
    }
  }

  lemma KeepsWhole<M(!new), S(!new)>(stored: (M, S) -> M, parts: S -> iset<S>, m: M, s: S)
    requires s in parts(s)
    ensures Keeps(stored, parts, m, s, stored(m, s))
  {
  }

  /** Two stores, made durable together: a crash may keep either one alone. */
  lemma TwoStores<M(!new), S(!new)>(stored: (M, S) -> M, parts: S -> iset<S>, base: M, log: seq<Event<S>>, s1: S, s2: S, good: iset<M>)
    requires Durable(log) && Replay(stored, base, log) in good && s1 in parts(s1) && s2 in parts(s2)
    requires forall im | Keeps(stored, parts, Replay(stored, base, log), s1, im) :: im in good
    requires forall im | Keeps(stored, parts, Replay(stored, base, log), s2, im) :: im in good
    requires forall m, im | Keeps(stored, parts, Replay(stored, base, log), s1, m) && Keeps(stored, parts, m, s2, im) :: im in good
    ensures var log' := log + [Write(s1), Write(s2), Fence];
      && Replay(stored, base, log') == stored(stored(Replay(stored, base, log), s1), s2) && Durable(log')
      && LeavesOnly(stored, parts, base, log, log', good)
  {
    var m, l1, l2, l3 := Replay(stored, base, log), log + [Write(s1)], log + [Write(s1), Write(s2)], log + [Write(s1), Write(s2), Fence];
    assert l2 == l1 + [Write(s2)] && l3 == l2 + [Fence];
    assert l3[..|log|] == log && l3[..|log| + 1] == l1 && l3[..|log| + 2] == l2 && l3[..|log| + 3] == l3;
    ReplayMore(stored, base, log, Write(s1));
    ReplayMore(stored, base, l1, Write(s2));
    ReplayMore(stored, base, l2, Fence);
    KeepsWhole(stored, parts, m, s1);
    KeepsWhole(stored, parts, stored(m, s1), s2);
    hide Replay;
    hide Keeps;
    forall k, im | |log| <= k <= |l3| && MayLeave(stored, parts, base, l3[..k], im) ensures im in good {
      if k == |log| {
        DurableExactly(stored, parts, base, log, im);
      } else if k == |log| + 1 {
        OneLeft(stored, parts, base, log, s1, im);
      } else if k == |log| + 2 {
        TwoLeft(stored, parts, base, log, s1, s2, im);
      } else {
        DurableExactly(stored, parts, base, l3, im);
      }
    }
  }

  // ----- any number of stores -----

  function Writes<S>(stores: seq<S>): (log: seq<Event<S>>)
    ensures |log| == |stores|
  {
    seq(|stores|, i requires 0 <= i < |stores| => Write(stores[i]))
  }

  /** Memory with those stores that are kept, in order. */
  function KeptOf<M, S>(stored: (M, S) -> M, m: M, stores: seq<S>, kept: seq<bool>): M
    requires |stores| == |kept|
  {
    if stores == [] then m
    else
      var n := |stores| - 1;
      var before := KeptOf(stored, m, stores[..n], kept[..n]);
      if kept[n] then stored(before, stores[n]) else before
  }

  /** Of stores that are kept whole or not at all, a crash may keep any subset, and leaves nothing else. */
  lemma {:induction false} AnySubset<M(!new), S(!new)>(stored: (M, S) -> M, parts: S -> iset<S>, base: M, log: seq<Event<S>>, stores: seq<S>, im: M)
    requires Durable(log) && forall s | s in stores :: parts(s) == iset{s}
    ensures MayLeave(stored, parts, base, log + Writes(stores), im) <==>
      exists kept: seq<bool> :: |kept| == |stores| && im == KeptOf(stored, Replay(stored, base, log), stores, kept)
  {
    var m := Replay(stored, base, log);
    if stores == [] {
      assert log + Writes(stores) == log;
      DurableExactly(stored, parts, base, log, im);
      assert KeptOf(stored, m, stores, []) == m;
    } else {
      var n := |stores| - 1;
      var s, front := stores[n], stores[..n];
      assert log + Writes(stores) == (log + Writes(front)) + [Write(s)];
      LeftMore(stored, parts, base, log + Writes(front), s, im);
      forall m1 ensures MayLeave(stored, parts, base, log + Writes(front), m1) <==>
        exists kept: seq<bool> :: |kept| == n && m1 == KeptOf(stored, m, front, kept)
      {
        AnySubset(stored, parts, base, log, front, m1);
      }
      hide MayLeave;
      if MayLeave(stored, parts, base, log + Writes(stores), im) { SomeKept(stored, parts, base, log + Writes(front), stores, im, m); }
      if kept: seq<bool> :| |kept| == |stores| && im == KeptOf(stored, m, stores, kept) {
        var before := KeptOf(stored, m, front, kept[..n]);
        assert |kept[..n]| == n && MayLeave(stored, parts, base, log + Writes(front), before);
        if kept[n] { assert Keeps(stored, parts, before, s, im); }
      }
    }
  }

  lemma SomeKept<M(!new), S(!new)>(stored: (M, S) -> M, parts: S -> iset<S>, base: M, log: seq<Event<S>>, stores: seq<S>, im: M, m: M)
    requires stores != [] && forall s | s in stores :: parts(s) == iset{s}
    requires MayLeave(stored, parts, base, log + [Write(stores[|stores| - 1])], im)
    requires forall m1 | MayLeave(stored, parts, base, log, m1) ::
      exists kept: seq<bool> :: |kept| == |stores| - 1 && m1 == KeptOf(stored, m, stores[..|stores| - 1], kept)
    ensures exists kept: seq<bool> :: |kept| == |stores| && im == KeptOf(stored, m, stores, kept)
  {
    var n := |stores| - 1;
    var s, front := stores[n], stores[..n];
    LeftMore(stored, parts, base, log, s, im);
    hide MayLeave;
    var m1, last: bool;
    if MayLeave(stored, parts, base, log, im) {
      m1, last := im, false;
    } else {
      m1 :| MayLeave(stored, parts, base, log, m1) && Keeps(stored, parts, m1, s, im);
      last := true;
    }
    var kept: seq<bool> :| |kept| == n && m1 == KeptOf(stored, m, front, kept);
    assert (kept + [last])[..n] == kept;
    assert im == KeptOf(stored, m, stores, kept + [last]);
  }
}
