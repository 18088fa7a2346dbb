/** Counting the integers of an interval. */
module Counting {

  /** The integers of [a, a + n). */
  ghost function Interval(a: int, n: nat): (r: set<int>)
    ensures |r| == n && forall x :: x in r <==> a <= x < a + n
  {
    if n == 0 then {} else Interval(a, n - 1) + {a + n - 1}
  }

  lemma {:induction false} SubsetCard<T>(s: set<T>, t: set<T>)
    requires s <= t
    ensures |s| <= |t|
  {
    if s != {} {
      var x :| x in s;
      SubsetCard(s - {x}, t - {x});
    }
  }

  /** How many elements satisfy f. */
  function CountIf<T>(s: seq<T>, f: T -> bool): (n: nat)
    ensures n <= |s|
  {
    if s == [] then 0 else CountIf(s[..|s| - 1], f) + if f(s[|s| - 1]) then 1 else 0
  }

  lemma {:induction false} CountSet<T>(s: seq<T>, f: T -> bool, i: nat, x: T)
    requires i < |s|
    ensures CountIf(s[i := x], f) == CountIf(s, f) - (if f(s[i]) then 1 else 0) + (if f(x) then 1 else 0)
  {
    var n := |s| - 1;
    if i < n {
      CountSet(s[..n], f, i, x);
      assert s[i := x][..n] == s[..n][i := x];
    } else {
      assert s[i := x][..n] == s[..n];
    }
  }

  /** Elements that satisfy f make the count what it is. */
  lemma {:induction false} CountSome<T>(s: seq<T>, f: T -> bool, i: nat)
    requires i < |s| && f(s[i])
    ensures CountIf(s, f) >= 1
    ensures CountIf(s, f) == 1 ==> forall j | 0 <= j < |s| && j != i :: !f(s[j])
  {
    var n := |s| - 1;
    if i < n {
      CountSome(s[..n], f, i);
      assert forall j | 0 <= j < n :: s[..n][j] == s[j];
    } else if CountIf(s[..n], f) == 0 {
      CountNone(s[..n], f);
      assert forall j | 0 <= j < n :: s[..n][j] == s[j];
    }
  }

  lemma {:induction false} CountNone<T>(s: seq<T>, f: T -> bool)
    ensures CountIf(s, f) == 0 <==> forall j | 0 <= j < |s| :: !f(s[j])
  {
    if s != [] {
      var n := |s| - 1;
      CountNone(s[..n], f);
      assert forall j | 0 <= j < n :: s[..n][j] == s[j];
    }
  }
}
