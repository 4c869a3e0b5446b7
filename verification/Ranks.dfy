/** Sums over sequences, for the steps that tasklets have left. */
module Ranks {

  function Total<T>(items: seq<T>, f: T -> nat): nat
  {
    if items == [] then 0 else f(items[0]) + Total(items[1..], f)
  }

  lemma {:induction false} TotalUpdate<T>(items: seq<T>, f: T -> nat, i: nat, x: T)
    requires i < |items|
    ensures Total(items[i := x], f) == Total(items, f) - f(items[i]) + f(x)
  {
    if i == 0 {
      assert items[i := x][1..] == items[1..];
    } else {
      TotalUpdate(items[1..], f, i - 1, x);
      assert items[i := x][1..] == items[1..][i - 1 := x];
    }
  }

  lemma {:induction false} TotalAtLeast<T>(items: seq<T>, f: T -> nat, i: nat)
    requires i < |items|
    ensures Total(items, f) >= f(items[i])
  {
    if i > 0 {
      TotalAtLeast(items[1..], f, i - 1);
    }
  }
}
