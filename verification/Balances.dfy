/** Balances of a fixed list of accounts; an account is its position in the list. */
module Balances {

  type Account = nat

  function Sum(b: seq<nat>): nat {
    if b == [] then 0 else Sum(b[..|b| - 1]) + b[|b| - 1]
  }

  lemma {:induction false} SumOfUpdate(b: seq<nat>, i: nat, v: nat)
    requires i < |b|
    ensures Sum(b[i := v]) == Sum(b) - b[i] + v
  {
    var n := |b| - 1;
    if i < n {
      assert b[i := v][..n] == b[..n][i := v];
      SumOfUpdate(b[..n], i, v);
    } else {
      assert b[i := v][..n] == b[..n];
    }
  }

  /** A transfer: debit, then credit, so that a transfer to oneself changes nothing. */
  function Move(b: seq<nat>, from: Account, to: Account, amount: nat): (r: seq<nat>)
    requires from < |b| && to < |b| && amount <= b[from]
    ensures |r| == |b|
  {
    var debited := b[from := b[from] - amount];
    debited[to := debited[to] + amount]
  }

  lemma {:induction false} MoveKeepsSum(b: seq<nat>, from: Account, to: Account, amount: nat)
    requires from < |b| && to < |b| && amount <= b[from]
    ensures Sum(Move(b, from, to, amount)) == Sum(b)
  {
    var debited := b[from := b[from] - amount];
    SumOfUpdate(b, from, b[from] - amount);
    SumOfUpdate(debited, to, debited[to] + amount);
  }

  /** What an account gained or lost. */
  function Change(before: seq<nat>, after: seq<nat>, a: Account): int
    requires a < |before| == |after|
  {
    after[a] as int - before[a] as int
  }
}
