/** Sums of a weight over a sequence, and how an update or an append changes them. */
module Totals {
  function Total<T>(s: seq<T>, weight: T -> nat): nat {
    if s == [] then 0 else weight(s[0]) + Total(s[1..], weight)
  }

  lemma {:induction false} TotalUpdate<T>(s: seq<T>, weight: T -> nat, i: nat, x: T)
    requires i < |s|
    ensures Total(s[i := x], weight) + weight(s[i]) == Total(s, weight) + weight(x)
    decreases |s|
  {
    if i == 0 {
      assert s[0 := x][1..] == s[1..];
    } else {
      assert s[i := x][1..] == s[1..][i - 1 := x];
      TotalUpdate(s[1..], weight, i - 1, x);
    }
  }

  lemma {:induction false} TotalAppend<T>(s: seq<T>, weight: T -> nat, x: T)
    ensures Total(s + [x], weight) == Total(s, weight) + weight(x)
    decreases |s|
  {
    if s == [] {
      assert [x][1..] == [];
    } else {
      assert (s + [x])[1..] == s[1..] + [x];
      TotalAppend(s[1..], weight, x);
    }
  }

  lemma {:induction false} TotalCovers<T>(s: seq<T>, weight: T -> nat, i: nat)
    requires i < |s|
    ensures weight(s[i]) <= Total(s, weight)
    decreases |s|
  {
    if i > 0 { TotalCovers(s[1..], weight, i - 1); }
  }

  lemma {:induction false} TotalBelow<T>(s: seq<T>, light: T -> nat, heavy: T -> nat)
    requires forall i :: 0 <= i < |s| ==> light(s[i]) <= heavy(s[i])
    ensures Total(s, light) <= Total(s, heavy)
    decreases |s|
  {
    if s != [] { TotalBelow(s[1..], light, heavy); }
  }

  lemma {:induction false} TotalZero<T>(s: seq<T>, weight: T -> nat)
    requires forall i :: 0 <= i < |s| ==> weight(s[i]) == 0
    ensures Total(s, weight) == 0
    decreases |s|
  {
    if s != [] { TotalZero(s[1..], weight); }
  }
}
