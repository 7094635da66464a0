/**
 The confidential token's ledger: public balances, a receiving and a spendable balance per
 account, and the wrapper's public reserve behind the confidential ones.

 The chain keeps commitments to openings (a value and a blinding factor); an opening is taken
 to be determined by its commitment, so the ledger here holds the openings themselves. Blinding
 factors add modulo the order of the group that the commitments lie in.
 */
module ConfidentialLedger {
  import opened Common
  import opened Balances
  import opened Fields

  datatype Opening = Opening(v: nat, r: nat)

  const ZERO := Opening(0, 0)

  /** The sum of two commitments: points add modulo the order of their group. */
  function Add(a: Opening, b: Opening): Opening {
    Opening(a.v + b.v, InGroup(a.r + b.r))
  }

  datatype Ledger = Ledger(
    pub: seq<nat>,
    registered: seq<bool>,
    receiving: seq<Opening>,
    spendable: seq<Opening>,
    reserve: nat)
  {
    /** An account that is not registered has no confidential balance. */
    predicate WellFormed() {
      && |pub| == |registered| == |receiving| == |spendable|
      && forall a | 0 <= a < |registered| :: !registered[a] ==> receiving[a] == spendable[a] == ZERO
    }

    predicate Has(a: Account) {
      a < |pub|
    }
  }

  function Values(os: seq<Opening>): (vs: seq<nat>)
    ensures |vs| == |os| && forall i | 0 <= i < |os| :: vs[i] == os[i].v
  {
    seq(|os|, i requires 0 <= i < |os| => os[i].v)
  }

  function Confidential(l: Ledger): nat {
    Sum(Values(l.receiving)) + Sum(Values(l.spendable))
  }

  /** All the money there is: public, receiving and spendable. */
  function Total(l: Ledger): nat {
    Sum(l.pub) + Confidential(l)
  }

  /** The wrapper holds exactly what it owes. */
  predicate Backed(l: Ledger) {
    l.reserve == Confidential(l)
  }

  datatype Op =
    | Register(account: Account)
    | Deposit(from: Account, to: Account, amount: nat)
    | Merge(account: Account)
    | Transfer(from: Account, to: Account, claim: Opening, amount: nat, nextR: nat, txR: nat)
    | Withdraw(from: Account, to: Account, claim: Opening, amount: nat, nextR: nat)
    | PublicPayment(from: Account, to: Account, amount: nat)

  function Actor(op: Op): Account {
    match op
    case Register(a) => a
    case Merge(a) => a
    case Deposit(from, _, _) => from
    case Transfer(from, _, _, _, _, _) => from
    case Withdraw(from, _, _, _, _) => from
    case PublicPayment(from, _, _) => from
  }

  /** A registered account of the ledger. */
  predicate Member(l: Ledger, a: Account)
    requires l.WellFormed()
  {
    l.Has(a) && l.registered[a]
  }

  /** The ledger after an operation, or `None` when the token rejects it. */
  function Apply(l: Ledger, op: Op): (after: Option<Ledger>)
    requires l.WellFormed()
    ensures after.Some? ==> after.value.WellFormed() && |after.value.pub| == |l.pub|
  {
    match op
    case Register(a) =>
      if !l.Has(a) || l.registered[a] then None
      else Some(l.(registered := l.registered[a := true]))
    case Deposit(from, to, amount) =>
      if !l.Has(from) || !Member(l, to) || amount == 0 || l.pub[from] < amount then None
      else
        Some(l.(pub := l.pub[from := l.pub[from] - amount],
                receiving := l.receiving[to := Add(l.receiving[to], Opening(amount, 0))],
                reserve := l.reserve + amount))
    case Merge(a) =>
      if !Member(l, a) then None
      else
        Some(l.(spendable := l.spendable[a := Add(l.spendable[a], l.receiving[a])],
                receiving := l.receiving[a := ZERO]))
    case Transfer(from, to, claim, amount, nextR, txR) =>
      if !Member(l, from) || !Member(l, to) || l.spendable[from] != claim || claim.v < amount then None
      else
        Some(l.(spendable := l.spendable[from := Opening(claim.v - amount, nextR)],
                receiving := l.receiving[to := Add(l.receiving[to], Opening(amount, txR))]))
    case Withdraw(from, to, claim, amount, nextR) =>
      if !Member(l, from) || !l.Has(to) || l.spendable[from] != claim || claim.v < amount || l.reserve < amount
      then None
      else
        Some(l.(spendable := l.spendable[from := Opening(claim.v - amount, nextR)],
                pub := l.pub[to := l.pub[to] + amount],
                reserve := l.reserve - amount))
    case PublicPayment(from, to, amount) =>
      if !l.Has(from) || !l.Has(to) || l.pub[from] < amount then None
      else Some(l.(pub := Move(l.pub, from, to, amount)))
  }

  lemma ValuesOfUpdate(os: seq<Opening>, i: nat, o: Opening)
    requires i < |os|
    ensures Sum(Values(os[i := o])) == Sum(Values(os)) - os[i].v + o.v
  {
    assert Values(os[i := o]) == Values(os)[i := o.v];
    SumOfUpdate(Values(os), i, o.v);
  }

  lemma DepositConserves(l: Ledger, from: Account, to: Account, amount: nat)
    requires l.WellFormed() && Apply(l, Deposit(from, to, amount)).Some?
    ensures var after := Apply(l, Deposit(from, to, amount)).value;
            Total(after) == Total(l) && Confidential(after) == Confidential(l) + amount
  {
    SumOfUpdate(l.pub, from, l.pub[from] - amount);
    ValuesOfUpdate(l.receiving, to, Add(l.receiving[to], Opening(amount, 0)));
  }

  lemma MergeConserves(l: Ledger, a: Account)
    requires l.WellFormed() && Apply(l, Merge(a)).Some?
    ensures Confidential(Apply(l, Merge(a)).value) == Confidential(l)
  {
    ValuesOfUpdate(l.spendable, a, Add(l.spendable[a], l.receiving[a]));
    ValuesOfUpdate(l.receiving, a, ZERO);
  }

  lemma TransferConserves(l: Ledger, op: Op)
    requires l.WellFormed() && op.Transfer? && Apply(l, op).Some?
    ensures Confidential(Apply(l, op).value) == Confidential(l)
  {
    ValuesOfUpdate(l.spendable, op.from, Opening(op.claim.v - op.amount, op.nextR));
    ValuesOfUpdate(l.receiving, op.to, Add(l.receiving[op.to], Opening(op.amount, op.txR)));
  }

  lemma WithdrawConserves(l: Ledger, op: Op)
    requires l.WellFormed() && op.Withdraw? && Apply(l, op).Some?
    ensures var after := Apply(l, op).value;
            Total(after) == Total(l) && Confidential(after) == Confidential(l) - op.amount
  {
    ValuesOfUpdate(l.spendable, op.from, Opening(op.claim.v - op.amount, op.nextR));
    SumOfUpdate(l.pub, op.to, l.pub[op.to] + op.amount);
  }

  /** Every operation conserves the total and keeps the wrapper backed. */
  lemma ApplyConserves(l: Ledger, op: Op)
    requires l.WellFormed() && Apply(l, op).Some?
    ensures Total(Apply(l, op).value) == Total(l)
    ensures Backed(l) ==> Backed(Apply(l, op).value)
  {
    match op
    case Register(_) =>
    case Deposit(from, to, amount) => DepositConserves(l, from, to, amount);
    case Merge(a) => MergeConserves(l, a);
    case Transfer(_, _, _, _, _, _) => TransferConserves(l, op);
    case Withdraw(_, _, _, _, _) => WithdrawConserves(l, op);
    case PublicPayment(from, to, amount) => MoveKeepsSum(l.pub, from, to, amount);
  }

  /** The confidential money of one account. */
  function Held(l: Ledger, a: Account): nat
    requires l.WellFormed() && l.Has(a)
  {
    l.receiving[a].v + l.spendable[a].v
  }

  /** The wrapper could pay out all that this account holds. */
  predicate Covered(l: Ledger, a: Account)
    requires l.WellFormed() && l.Has(a)
  {
    Held(l, a) <= l.reserve
  }

  lemma {:induction false} OneOfSum(b: seq<nat>, i: nat)
    requires i < |b|
    ensures b[i] <= Sum(b)
  {
    if i < |b| - 1 {
      OneOfSum(b[..|b| - 1], i);
    }
  }

  /** A backed wrapper covers every account, so it can pay any withdrawal whose owner can prove it. */
  lemma BackedCoversEveryone(l: Ledger, a: Account, to: Account, amount: nat, nextR: nat)
    requires l.WellFormed() && Backed(l) && l.Has(a)
    ensures Covered(l, a)
    ensures Member(l, a) && l.Has(to) && amount <= l.spendable[a].v ==>
              Apply(l, Withdraw(a, to, l.spendable[a], amount, nextR)).Some?
  {
    OneOfSum(Values(l.receiving), a);
    OneOfSum(Values(l.spendable), a);
  }

  function Run(l: Ledger, ops: seq<Op>): (after: Ledger)
    requires l.WellFormed()
    ensures after.WellFormed() && |after.pub| == |l.pub|
    decreases ops
  {
    if ops == [] then l
    else
      var next := Apply(l, ops[0]);
      Run(if next.Some? then next.value else l, ops[1..])
  }

  /** Any interleaving of any accounts' operations conserves the total and stays backed. */
  lemma {:induction false} RunConserves(l: Ledger, ops: seq<Op>)
    requires l.WellFormed() && Backed(l)
    ensures Total(Run(l, ops)) == Total(l) && Backed(Run(l, ops))
    decreases ops
  {
    if ops != [] {
      var next := Apply(l, ops[0]);
      if next.Some? {
        ApplyConserves(l, ops[0]);
      }
      RunConserves(if next.Some? then next.value else l, ops[1..]);
    }
  }

  // ---------------------------------------------------------------- what others can do

  /** All that the rest of the world can do to `me`: add to its receiving and public balances. */
  predicate OnlyCredits(before: Ledger, after: Ledger, me: Account)
    requires before.WellFormed() && before.Has(me)
  {
    && after.WellFormed() && |after.pub| == |before.pub|
    && (forall a | 0 <= a < |before.pub| :: before.registered[a] ==> after.registered[a])
    && after.registered[me] == before.registered[me]
    && after.spendable[me] == before.spendable[me]
    && after.receiving[me].v >= before.receiving[me].v
    && after.pub[me] >= before.pub[me]
    && Covered(after, me)
  }

  predicate ByOthers(ops: seq<Op>, me: Account) {
    forall i | 0 <= i < |ops| :: Actor(ops[i]) != me
  }

  lemma OneOtherOnlyCredits(l: Ledger, op: Op, me: Account)
    requires l.WellFormed() && l.Has(me) && Backed(l) && Actor(op) != me && Apply(l, op).Some?
    ensures Backed(Apply(l, op).value) && OnlyCredits(l, Apply(l, op).value, me)
  {
    ApplyConserves(l, op);
    BackedCoversEveryone(Apply(l, op).value, me, me, 0, 0);
  }

  /** Whatever operations the others perform, `me` is only credited. */
  lemma {:induction false} OthersOnlyCredit(l: Ledger, ops: seq<Op>, me: Account)
    requires l.WellFormed() && l.Has(me) && Backed(l) && ByOthers(ops, me)
    ensures OnlyCredits(l, Run(l, ops), me)
    decreases ops
  {
    if ops == [] {
      BackedCoversEveryone(l, me, me, 0, 0);
    } else {
      assert Actor(ops[0]) != me;
      if Apply(l, ops[0]).Some? {
        OneOtherOnlyCredits(l, ops[0], me);
        OthersOnlyCredit(Apply(l, ops[0]).value, ops[1..], me);
      } else {
        OthersOnlyCredit(l, ops[1..], me);
      }
    }
  }

  /** Registering gives an account no money, and touches no other. */
  lemma RegisterMovesNothing(l: Ledger, me: Account, a: Account)
    requires l.WellFormed() && Apply(l, Register(me)).Some? && l.Has(a)
    ensures var after := Apply(l, Register(me)).value;
            && after == l.(registered := after.registered) && !l.registered[me]
            && after.registered[a] == (l.registered[a] || a == me)
  {}

  /** A deposit takes exactly `amount` from the payer's public balance into the reserve and the payee's receiving. */
  lemma DepositMovesExactly(l: Ledger, from: Account, to: Account, amount: nat, a: Account)
    requires l.WellFormed() && Apply(l, Deposit(from, to, amount)).Some? && l.Has(a)
    ensures var after := Apply(l, Deposit(from, to, amount)).value;
            && after.pub[a] == l.pub[a] - (if a == from then amount else 0)
            && after.receiving[a].v == l.receiving[a].v + (if a == to then amount else 0)
            && after.spendable == l.spendable && after.reserve == l.reserve + amount
  {}

  /** A merge moves exactly all that the account has received into what it can spend. */
  lemma MergeMovesExactly(l: Ledger, me: Account, a: Account)
    requires l.WellFormed() && Apply(l, Merge(me)).Some? && l.Has(a)
    ensures var after := Apply(l, Merge(me)).value;
            && after.receiving[a] == (if a == me then ZERO else l.receiving[a])
            && after.spendable[a].v == l.spendable[a].v + (if a == me then l.receiving[a].v else 0)
            && after.pub == l.pub && after.reserve == l.reserve
  {}

  /** A withdrawal takes exactly `amount` from what its owner can spend and pays it out of the reserve. */
  lemma WithdrawPaysExactly(l: Ledger, op: Op, a: Account)
    requires l.WellFormed() && op.Withdraw? && Apply(l, op).Some? && l.Has(a)
    ensures var after := Apply(l, op).value;
            && after.pub[a] == l.pub[a] + (if a == op.to then op.amount else 0)
            && after.spendable[a].v == l.spendable[a].v - (if a == op.from then op.amount else 0)
            && after.receiving == l.receiving && after.reserve == l.reserve - op.amount
  {}

  /** Spending needs the opening that the chain holds, and no more can be spent than it is worth. */
  lemma SpendNeedsOpening(l: Ledger, op: Op)
    requires l.WellFormed() && (op.Transfer? || op.Withdraw?) && Apply(l, op).Some?
    ensures Member(l, op.from) && op.claim == l.spendable[op.from] && op.amount <= op.claim.v
    ensures op.Transfer? ==> Member(l, op.to)
  {}

  /** A public payment goes through exactly when its payer has the money, and moves just that. */
  lemma {:induction false} PaymentMovesExactly(l: Ledger, from: Account, to: Account, amount: nat, a: Account)
    requires l.WellFormed() && l.Has(from) && l.Has(to) && l.Has(a)
    ensures var after := Apply(l, PublicPayment(from, to, amount));
            && (after.Some? <==> amount <= l.pub[from])
            && (after.Some? ==>
                  && after.value == l.(pub := after.value.pub)
                  && Change(l.pub, after.value.pub, a) ==
                     (if a == to then amount else 0) - (if a == from then amount else 0))
  {}

  /** A transfer takes exactly `amount` from the sender's spendable and gives it to the recipient's receiving. */
  lemma TransferDeliversExactly(l: Ledger, op: Op, a: Account)
    requires l.WellFormed() && op.Transfer? && Apply(l, op).Some? && l.Has(a)
    ensures var after := Apply(l, op).value;
            && after.receiving[a].v == l.receiving[a].v + (if a == op.to then op.amount else 0)
            && after.spendable[a].v == l.spendable[a].v - (if a == op.from then op.amount else 0)
            && after.pub == l.pub && after.reserve == l.reserve
  {}
}
