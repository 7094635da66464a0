/**
 The wallet's confidential flows: settle, shield, merge and unshield. Each is a sequence of
 awaited steps; at every step the rest of the world may credit the account, the network may
 fail, and a submitted transaction may be rejected, land, or land and still be reported failed.

 The state engine is an interface: after any call the local openings may be anything, and
 "verified" says exactly whether they equal the chain's.
 */
module ConfidentialFlow {
  import opened Common
  import opened Balances
  import opened ConfidentialLedger
  import opened Engine

  datatype Error =
    | NotPositive
    | Unavailable
    | RecipientNotRegistered
    | SenderNotRegistered
    | Syncing
    | SubmissionFailed
    | NothingToMerge
    | NothingReceived
    | MergeFellShort
    | InsufficientAfterShielding
    | InsufficientToUnshield

  /** Errors of the network, of a sync, or of the recipient: the caller may try again. */
  predicate Transient(e: Error) {
    e.Unavailable? || e.SubmissionFailed? || e.Syncing? || e.RecipientNotRegistered?
  }

  /** A transaction of this wallet that landed. */
  datatype Landed =
    | Registered
    | Shielded(amount: nat)
    | Merged
    | Sent(to: Account, amount: nat)
    | Unshielded(amount: nat)

  /** The operations this wallet submits. */
  predicate Own(op: Op, me: Account) {
    match op
    case Register(a) => a == me
    case Deposit(from, to, _) => from == me && to == me
    case Merge(a) => a == me
    case Transfer(from, _, _, _, _, _) => from == me
    case Withdraw(from, to, _, _, _) => from == me && to == me
    case PublicPayment(_, _, _) => false
  }

  function LandedOf(op: Op, me: Account): Landed
    requires Own(op, me)
  {
    match op
    case Register(_) => Registered
    case Deposit(_, _, amount) => Shielded(amount)
    case Merge(_) => Merged
    case Transfer(_, to, _, amount, _, _) => Sent(to, amount)
    case Withdraw(_, _, _, amount, _) => Unshielded(amount)
  }

  /** What an operation of this wallet adds to its confidential money from its public balance. */
  function ShieldedBy(op: Op): nat {
    if op.Deposit? then op.amount else 0
  }

  /** What it takes out of the wallet's confidential money. */
  function SpentBy(op: Op, me: Account): nat {
    if op.Withdraw? || (op.Transfer? && op.to != me) then op.amount else 0
  }

  /** What reconciliation showed a settlement. */
  datatype Seen = Seen(local: Local, verified: Verified)

  function Shortfall(amount: nat, available: nat): nat {
    if available < amount then amount - available else 0
  }

  /** Spendable plus what is verified of receiving. */
  function Usable(seen: Seen): nat {
    seen.local.spendable.v + if seen.verified.receivingOk then seen.local.receiving.v else 0
  }

  /** What is verified falls short, and something received is not verified. */
  predicate Withheld(seen: Seen, amount: nat) {
    Usable(seen) < amount && !seen.verified.receivingOk && seen.local.receiving.v > 0
  }

  /** The settlement has to wait. */
  predicate Waits(seen: Seen, amount: nat) {
    !seen.verified.spendableOk || Withheld(seen, amount)
  }

  function RegisterPlan(registering: bool): seq<Landed> {
    if registering then [Registered] else []
  }

  /** What a shortfall makes a settlement shield, the first of its plan. */
  function ShieldStep(seen: Seen, amount: nat): seq<Landed> {
    if Usable(seen) < amount then [Shielded(Shortfall(amount, Usable(seen)))] else []
  }

  function MergeStep(seen: Seen, amount: nat): seq<Landed> {
    if seen.local.spendable.v < amount then [Merged] else []
  }

  /** What it takes to have `amount` spendable. */
  function FundPlan(seen: Seen, amount: nat): seq<Landed> {
    ShieldStep(seen, amount) + MergeStep(seen, amount)
  }

  /** The transactions a settlement makes, from what it saw. */
  function SettlePlan(registering: bool, seen: Seen, to: Account, amount: nat): seq<Landed> {
    RegisterPlan(registering) + FundPlan(seen, amount) + [Sent(to, amount)]
  }

  function ShieldPlan(registering: bool, amount: nat): seq<Landed> {
    RegisterPlan(registering) + [Shielded(amount), Merged]
  }

  function UnshieldPlan(merging: bool, amount: nat): seq<Landed> {
    (if merging then [Merged] else []) + [Unshielded(amount)]
  }

  predicate StaysRegistered(before: Ledger, after: Ledger)
    requires before.WellFormed() && after.WellFormed()
  {
    |before.pub| <= |after.pub| && forall a | 0 <= a < |before.pub| :: before.registered[a] ==> after.registered[a]
  }

  /** `after` is `before` with exactly `amount` sent to `to`, out of the opening that `me` could spend. */
  predicate Delivers(before: Ledger, after: Ledger, me: Account, to: Account, amount: nat, nextR: nat, txR: nat) {
    && before.WellFormed() && before.Has(me)
    && Apply(before, Transfer(me, to, before.spendable[me], amount, nextR, txR)) == Some(after)
  }

  /** `after` is `before` with exactly `amount` withdrawn to the public balance of `me`. */
  predicate PaysOut(before: Ledger, after: Ledger, me: Account, amount: nat, nextR: nat) {
    && before.WellFormed() && before.Has(me)
    && Apply(before, Withdraw(me, me, before.spendable[me], amount, nextR)) == Some(after)
  }

  class Wallet {
    const me: Account
    var ledger: Ledger
    var local: Local
    ghost var landed: seq<Landed>
    ghost var shielded: nat  // the sum of the deposits that landed
    ghost var spent: nat  // the sum of what left for others or the public balance
    ghost var credited: nat  // the sum of what others sent here
    ghost var trouble: bool  // some call failed, or some balance was out of step with the chain
    ghost var misread: bool  // some balances were read while receiving was out of step with the chain

    ghost predicate Valid()
      reads this
    {
      ledger.WellFormed() && ledger.Has(me) && Covered(ledger, me)
    }

    /** The openings the chain holds for this wallet. */
    ghost function Spendable(): Opening
      reads this
      requires Valid()
    {
      ledger.spendable[me]
    }

    ghost function Receiving(): nat
      reads this
      requires Valid()
    {
      ledger.receiving[me].v
    }

    constructor (l: Ledger, account: Account, cached: Local)
      requires l.WellFormed() && l.Has(account) && Covered(l, account)
      ensures Valid() && ledger == l && me == account && local == cached && landed == []
      ensures shielded == spent == credited == 0 && !trouble && !misread
    {
      ledger, me, local, landed := l, account, cached, [];
      shielded, spent, credited, trouble, misread := 0, 0, 0, false, false;
    }

    // -------------------------------------------------------------- the environment

    /** An await: others act, and the call may fail. */
    method Await() returns (ok: bool)
      requires Valid()
      modifies this`ledger, this`trouble, this`credited
      ensures Valid() && OnlyCredits(old(ledger), ledger, me)
      ensures credited == old(credited) + (Receiving() - old(Receiving()))
      ensures trouble == (old(trouble) || !ok)
    {
      ok := *;
      trouble := trouble || !ok;
      var after: Ledger := *;
      if OnlyCredits(ledger, after, me) {
        credited := credited + (after.receiving[me].v - ledger.receiving[me].v);
        ledger := after;
      }
    }

    /** `readCtRegistered`: a failed read counts as not registered. */
    method ReadRegistered(a: Account) returns (registered: bool)
      requires Valid()
      modifies this`trouble
      ensures registered ==> Member(ledger, a)
      ensures trouble == (old(trouble) || (!registered && Member(ledger, a)))
    {
      registered := *;
      registered := registered && Member(ledger, a);
      trouble := trouble || (!registered && Member(ledger, a));
    }

    /** Submitting a transaction: it lands on some later ledger `before`, or not at all. */
    method Submit(op: Op) returns (ok: bool, ghost before: Ledger)
      requires Valid() && Own(op, me)
      modifies this`ledger, this`landed, this`shielded, this`spent, this`credited, this`trouble
      ensures Valid() && OnlyCredits(old(ledger), before, me)
      ensures credited == old(credited) + (before.receiving[me].v - old(Receiving()))
      ensures landed == old(landed) || landed == old(landed) + [LandedOf(op, me)]
      ensures landed == old(landed) ==> ledger == before && shielded == old(shielded) && spent == old(spent)
      ensures landed != old(landed) ==>
                && Apply(before, op) == Some(ledger)
                && shielded == old(shielded) + ShieldedBy(op) && spent == old(spent) + SpentBy(op, me)
      ensures ok ==> landed != old(landed)
      ensures old(trouble) ==> trouble
      ensures !ok && Apply(before, op).Some? ==> trouble
    {
      ok := Await();
      before := ledger;
      var lands: bool := *;
      var after := Apply(ledger, op);
      if lands && after.Some? {
        ledger := after.value;
        landed := landed + [LandedOf(op, me)];
        shielded := shielded + ShieldedBy(op);
        spent := spent + SpentBy(op, me);
      } else {
        ok := false;
      }
      trouble := trouble || !ok;
    }

    /** `sync`, `rebuildFromEvents` and the like: the cache may become anything. */
    method Resync()
      modifies this`local
    {
      local := *;
    }

    method VerifyAgainstChain() returns (v: Verified)
      requires Valid()
      modifies this`trouble
      ensures v == Check(ledger, local, me)
      ensures trouble == (old(trouble) || v != Verified(true, true))
    {
      v := Check(ledger, local, me);
      trouble := trouble || v != Verified(true, true);
    }

    method ReconcileForRead() returns (v: Verified)
      requires Valid()
      modifies this`local, this`trouble, this`misread
      ensures v == Check(ledger, local, me)
      ensures trouble == (old(trouble) || v != Verified(true, true))
      ensures misread == (old(misread) || !v.receivingOk)
    {
      Resync();
      v := VerifyAgainstChain();
      misread := misread || !v.receivingOk;
    }

    /** Returns once what was asked for is verified, or throws on a timeout. */
    method WaitUntilVerified(needSpendable: bool, needReceiving: bool) returns (ok: bool)
      requires Valid()
      modifies this`local, this`trouble
      ensures ok && needSpendable ==> Check(ledger, local, me).spendableOk
      ensures ok && needReceiving ==> Check(ledger, local, me).receivingOk
      ensures trouble == (old(trouble) || Check(ledger, local, me) != Verified(true, true))
      ensures !ok ==> trouble
    {
      Resync();
      var v := VerifyAgainstChain();
      ok := (!needSpendable || v.spendableOk) && (!needReceiving || v.receivingOk);
    }

    // -------------------------------------------------------------- steps of the flows

    /** On `l` the wallet holds exactly what it held, plus what it shielded and was sent; nothing was spent. */
    twostate predicate KeptUpTo(l: Ledger)
      reads this
      requires old(Valid()) && Valid()
    {
      && l.WellFormed() && l.Has(me) && StaysRegistered(old(ledger), l)
      && Held(l, me) == old(Held(ledger, me)) + (shielded - old(shielded)) + (credited - old(credited))
      && l.pub[me] + (shielded - old(shielded)) >= old(ledger.pub[me])
      && shielded >= old(shielded) && credited >= old(credited)
      && (old(trouble) ==> trouble) && (old(misread) ==> misread)
    }

    twostate predicate KeepsWhatItHolds()
      reads this
      requires old(Valid()) && Valid()
    {
      KeptUpTo(ledger) && spent == old(spent)
    }

    /** Registers unless the chain says it is done. */
    method EnsureRegistered() returns (ok: bool, registering: bool)
      requires Valid()
      modifies this
      ensures Valid() && KeepsWhatItHolds() && shielded == old(shielded)
      ensures ok ==> Member(ledger, me)
      ensures old(landed) <= landed <= old(landed) + RegisterPlan(registering)
      ensures ok ==> landed == old(landed) + RegisterPlan(registering)
      ensures !ok ==> trouble
    {
      registering := false;
      var registered := ReadRegistered(me);
      if registered {
        return true, false;
      }
      registering := true;
      ghost var before;
      ok, before := Submit(Register(me));
      Resync();
    }

    /** Shields `amount` of the wallet's own public balance, and waits until receiving is verified. */
    method Deposit(amount: nat) returns (e: Option<Error>)
      requires Valid()
      modifies this
      ensures Valid() && KeepsWhatItHolds() && Spendable() == old(Spendable())
      ensures || (landed == old(landed) && shielded == old(shielded))
              || (landed == old(landed) + [Shielded(amount)] && shielded == old(shielded) + amount)
      ensures e.None? ==> landed != old(landed) && local.receiving.v >= old(Receiving()) + amount
      ensures !trouble ==> local.spendable == Spendable() || e.Some?
      ensures old(Member(ledger, me)) && 0 < amount <= old(ledger.pub[me]) && e.Some? ==> trouble
      ensures e.Some? ==> Transient(e.value)
      ensures e == Some(Syncing) ==> landed != old(landed)
    {
      ghost var before;
      var ok: bool;
      ok, before := Submit(ConfidentialLedger.Op.Deposit(me, me, amount));
      if !ok {
        return Some(SubmissionFailed);
      }
      ok := Await();
      if !ok {
        return Some(Unavailable);
      }
      ok := WaitUntilVerified(false, true);
      e := if ok then None else Some(Syncing);
    }

    /** Moves all of receiving into spendable, and waits until spendable is verified. */
    method Merge() returns (e: Option<Error>)
      requires Valid()
      modifies this
      ensures Valid() && KeepsWhatItHolds() && shielded == old(shielded)
      ensures || (landed == old(landed) && Spendable() == old(Spendable()))
              || (landed == old(landed) + [Merged] && Spendable().v >= old(Held(ledger, me)))
      ensures e.None? ==> landed != old(landed) && local.spendable == Spendable()
      ensures old(Member(ledger, me)) && e.Some? ==> trouble
      ensures e.Some? ==> Transient(e.value)
    {
      ghost var before;
      var ok: bool;
      ok, before := Submit(ConfidentialLedger.Op.Merge(me));
      if !ok {
        return Some(SubmissionFailed);
      }
      ok := Await();
      if !ok {
        return Some(Unavailable);
      }
      ok := WaitUntilVerified(true, false);
      e := if ok then None else Some(Syncing);
    }

    // -------------------------------------------------------------- settle

    /** Registers the sender, checks the recipient, and reads the balances. */
    method Prepare(recipient: Account) returns (e: Option<Error>, registering: bool, seen: Option<Seen>)
      requires Valid()
      modifies this
      ensures Valid() && KeepsWhatItHolds() && shielded == old(shielded)
      ensures old(landed) <= landed <= old(landed) + RegisterPlan(registering)
      ensures seen.None? ==> e.Some?
      ensures seen.Some? ==>
                && landed == old(landed) + RegisterPlan(registering) && Member(ledger, me)
                && seen == Some(Seen(local, Check(ledger, local, me)))
                && Member(ledger, recipient)
                && e == if seen.value.verified.spendableOk then None else Some(Syncing)
      ensures e.Some? && (recipient == me || old(Member(ledger, recipient))) ==> trouble
      ensures !trouble && seen.Some? ==> seen.value.verified == Verified(true, true)
      ensures seen.Some? && seen.value.verified == Verified(true, true) ==> Usable(seen.value) == Held(ledger, me)
      ensures !misread && seen.Some? ==> seen.value.verified.receivingOk
      ensures e.Some? ==> Transient(e.value)
    {
      registering, seen := false, None;
      var ok := Await();
      if !ok {
        return Some(Unavailable), registering, seen;
      }
      ok, registering := EnsureRegistered();
      if !ok {
        return Some(SubmissionFailed), registering, seen;
      }
      var recipientRegistered := ReadRegistered(recipient);
      if !recipientRegistered {
        return Some(RecipientNotRegistered), registering, seen;
      }
      ok := Await();
      if !ok {
        return Some(Unavailable), registering, seen;
      }
      var verified := ReconcileForRead();
      seen := Some(Seen(local, verified));
      e := if verified.spendableOk then None else Some(Syncing);
    }

    /** Shields what verified funds fall short of. */
    method ShieldShortfall(amount: nat, seen: Seen) returns (e: Option<Error>, verified: Verified)
      requires Valid() && Member(ledger, me)
      requires seen == Seen(local, Check(ledger, local, me)) && seen.verified.spendableOk
      modifies this
      ensures Valid() && KeepsWhatItHolds() && Member(ledger, me) && Spendable() == old(Spendable())
      ensures || (landed == old(landed) && shielded == old(shielded))
              || (landed == old(landed) + ShieldStep(seen, amount)
                  && shielded == old(shielded) + Shortfall(amount, Usable(seen)))
      ensures e.None? ==> landed == old(landed) + ShieldStep(seen, amount) && verified == Check(ledger, local, me)
      ensures e.None? ==> Held(ledger, me) >= amount && (local.spendable.v < amount ==> local.receiving.v > 0)
      ensures e.None? && Usable(seen) >= amount ==> local == old(local)
      ensures Waits(seen, amount) <==> e == Some(Syncing) && landed == old(landed)
      ensures !trouble && seen.verified == Verified(true, true)
              && Shortfall(amount, Usable(seen)) <= old(ledger.pub[me])
              ==> e.None? && verified == Verified(true, true)
      ensures e.Some? ==> Transient(e.value)
    {
      verified := seen.verified;
      var total := local.spendable.v + if verified.receivingOk then local.receiving.v else 0;
      if total >= amount {
        return None, verified;
      }
      if !verified.receivingOk && local.receiving.v > 0 {
        return Some(Syncing), verified;
      }
      e := Deposit(amount - total);
      if e.Some? {
        return;
      }
      var ok := Await();
      if !ok {
        return Some(Unavailable), verified;
      }
      verified := VerifyAgainstChain();
    }

    /** Merges when spendable alone is not enough. */
    method MergeIfShort(amount: nat, verified: Verified) returns (e: Option<Error>)
      requires Valid() && Member(ledger, me) && verified == Check(ledger, local, me)
      requires Held(ledger, me) >= amount && (local.spendable.v < amount ==> local.receiving.v > 0)
      modifies this
      ensures Valid() && KeepsWhatItHolds() && Member(ledger, me) && shielded == old(shielded)
      ensures landed == old(landed) || (landed == old(landed) + [Merged] && old(local).spendable.v < amount)
      ensures e.None? ==> local.spendable.v >= amount
      ensures e.None? ==> landed == old(landed) + if old(local).spendable.v < amount then [Merged] else []
      ensures e.None? && old(local).spendable.v >= amount ==> local == old(local) && Spendable() == old(Spendable())
      ensures old(local).spendable.v < amount && !verified.receivingOk ==> e == Some(Syncing) && landed == old(landed)
      ensures !trouble && verified == Verified(true, true) ==> e.None? && local.spendable == Spendable()
      ensures e.Some? ==> Transient(e.value)
    {
      if local.spendable.v < amount && (local.receiving.v > 0 || local.receiving.r != 0) {
        if !verified.receivingOk {
          return Some(Syncing);
        }
        e := Merge();
        if e.Some? {
          return;
        }
      }
      e := if local.spendable.v < amount then Some(InsufficientAfterShielding) else None;
    }

    /** Shields and merges what the transfer needs. */
    method Fund(amount: nat, seen: Seen) returns (e: Option<Error>)
      requires Valid() && Member(ledger, me)
      requires seen == Seen(local, Check(ledger, local, me)) && seen.verified.spendableOk
      modifies this
      ensures Valid() && KeepsWhatItHolds() && Member(ledger, me)
      ensures old(landed) <= landed <= old(landed) + FundPlan(seen, amount)
      ensures shielded == old(shielded) || shielded == old(shielded) + Shortfall(amount, Usable(seen))
      ensures e.None? ==> local.spendable.v >= amount
      ensures e.None? && local.spendable == Spendable() ==> landed == old(landed) + FundPlan(seen, amount)
      ensures Waits(seen, amount) ==> e == Some(Syncing) && landed == old(landed)
      ensures !trouble && seen.verified == Verified(true, true)
              && Shortfall(amount, Usable(seen)) <= old(ledger.pub[me])
              ==> e.None? && local.spendable == Spendable()
      ensures e.Some? ==> Transient(e.value)
    {
      var verified;
      e, verified := ShieldShortfall(amount, seen);
      if e.Some? {
        return;
      }
      e := MergeIfShort(amount, verified);
    }

    /** Proves and submits the transfer, and records the new spendable opening. */
    method Send(recipient: Account, amount: nat, nextR: nat, txR: nat) returns (e: Option<Error>, ghost before: Ledger)
      requires Valid() && local.spendable.v >= amount
      modifies this
      ensures Valid()
      ensures landed == old(landed) || landed == old(landed) + [Sent(recipient, amount)]
      ensures landed == old(landed) ==> KeepsWhatItHolds()
      ensures landed != old(landed) ==>
                && OnlyCredits(old(ledger), before, me) && KeptUpTo(before)
                && Delivers(before, ledger, me, recipient, amount, nextR, txR)
                && spent == old(spent) + Leaving(recipient, amount)
                && old(local.spendable == Spendable())
      ensures e.None? ==> landed != old(landed) && local.spendable == Spendable()
      ensures shielded == old(shielded) && (old(trouble) ==> trouble) && (old(misread) ==> misread)
      ensures old(Member(ledger, me) && Member(ledger, recipient) && local.spendable == Spendable()) && e.Some?
              ==> trouble
      ensures e.Some? ==> Transient(e.value)
    {
      var ok: bool;
      ok, before := Submit(Transfer(me, recipient, local.spendable, amount, nextR, txR));
      if !ok {
        return Some(SubmissionFailed), before;
      }
      local := local.(spendable := Opening(local.spendable.v - amount, nextR));
      e := None;
    }

    /** What a payment takes from the wallet: nothing when it pays itself. */
    function Leaving(recipient: Account, amount: nat): nat {
      if recipient == me then 0 else amount
    }

    /** The rest of a settlement, once reconciliation has verified what is spendable. */
    method Pay(recipient: Account, amount: nat, seen: Seen, nextR: nat, txR: nat)
      returns (e: Option<Error>, ghost before: Ledger)
      requires Valid() && Member(ledger, me) && Member(ledger, recipient)
      requires seen == Seen(local, Check(ledger, local, me)) && seen.verified.spendableOk
      modifies this
      ensures Valid()
      ensures old(landed) <= landed <= old(landed) + FundPlan(seen, amount) + [Sent(recipient, amount)]
      ensures landed < old(landed) + FundPlan(seen, amount) + [Sent(recipient, amount)] ==> KeepsWhatItHolds()
      ensures landed == old(landed) + FundPlan(seen, amount) + [Sent(recipient, amount)] ==>
                && KeptUpTo(before) && Delivers(before, ledger, me, recipient, amount, nextR, txR)
                && spent == old(spent) + Leaving(recipient, amount)
      ensures e.None? ==> landed == old(landed) + FundPlan(seen, amount) + [Sent(recipient, amount)]
      ensures Waits(seen, amount) ==> e == Some(Syncing) && landed == old(landed)
      ensures e.None? ==> local.spendable == Spendable()
      ensures shielded == old(shielded) || shielded == old(shielded) + Shortfall(amount, Usable(seen))
      ensures !trouble && seen.verified == Verified(true, true)
              && Shortfall(amount, Usable(seen)) <= old(ledger.pub[me])
              ==> e.None?
      ensures credited >= old(credited) && (old(trouble) ==> trouble)
      ensures e.Some? ==> Transient(e.value)
    {
      before := ledger;
      e := Fund(amount, seen);
      if e.Some? {
        return;
      }
      if !Member(ledger, me) {
        return Some(SenderNotRegistered), before;
      }
      e, before := Send(recipient, amount, nextR, txR);
    }

    /** A settlement has somewhere to go, and public money for what it is short. */
    ghost predicate CanSettle(recipient: Account, amount: nat)
      reads this
      requires Valid()
    {
      && amount > 0
      && (recipient == me || Member(ledger, recipient))
      && Shortfall(amount, Held(ledger, me)) <= ledger.pub[me]
    }

    /**
     Settles `amount` to `recipient`. The transactions that land are, in order, a prefix of the
     plan made from what reconciliation saw. When all of them land, as they do on success, the
     ledger is one on which the wallet held all it had and shielded, with exactly `amount` then
     sent to the recipient; otherwise the wallet still holds all of that. On success the local
     spendable equals the chain's. The check after shielding never fires, and nothing but
     a failed call or a balance out of step stops a settlement that can be paid for.
     `creditedAt` is what others had sent here when the balances were read.
     */
    method ExecuteConfidentialSettlement(recipient: Account, amount: nat, nextR: nat, txR: nat)
      returns (r: Result<(), Error>, registering: bool, seen: Option<Seen>, ghost before: Ledger, ghost creditedAt: nat)
      requires Valid()
      modifies this
      ensures Valid()
      ensures seen.None? ==>
                && r.Err? && old(landed) <= landed <= old(landed) + RegisterPlan(registering)
                && KeepsWhatItHolds()
      ensures seen.None? ==> shielded == old(shielded)
      ensures seen.Some? ==>
                old(landed) <= landed <= old(landed) + SettlePlan(registering, seen.value, recipient, amount)
      ensures seen.Some? && landed < old(landed) + SettlePlan(registering, seen.value, recipient, amount)
              ==> KeepsWhatItHolds()
      ensures seen.Some? && landed == old(landed) + SettlePlan(registering, seen.value, recipient, amount) ==>
                && KeptUpTo(before) && Delivers(before, ledger, me, recipient, amount, nextR, txR)
                && spent == old(spent) + Leaving(recipient, amount)
      ensures r.Ok? ==> seen.Some? && landed == old(landed) + SettlePlan(registering, seen.value, recipient, amount)
      ensures r.Ok? ==> local.spendable == Spendable()
      ensures r.Err? ==> if amount == 0 then r.error == NotPositive else Transient(r.error)
      ensures old(CanSettle(recipient, amount)) && !trouble ==> r.Ok?
      ensures seen.Some? ==>
                && (shielded == old(shielded) || shielded == old(shielded) + Shortfall(amount, Usable(seen.value)))
                && (shielded != old(shielded) ==> seen.value.verified.spendableOk)
      ensures seen.Some? && Waits(seen.value, amount) ==>
                r == Err(Syncing) && landed == old(landed) + RegisterPlan(registering)
      ensures old(credited) <= creditedAt <= credited
      ensures seen.Some? && seen.value.verified == Verified(true, true) ==>
                Usable(seen.value) == old(Held(ledger, me)) + (creditedAt - old(credited))
      ensures !misread && seen.Some? ==> seen.value.verified.receivingOk
      ensures (old(trouble) ==> trouble) && (old(misread) ==> misread)
    {
      registering, seen, before, creditedAt := false, None, ledger, credited;
      var e := if amount == 0 then Some(NotPositive) else None;
      if amount > 0 {
        e, registering, seen := Prepare(recipient);
        creditedAt := credited;
      }
      if e.None? {
        PlanAfterRegistering(old(landed), registering, seen.value, recipient, amount);
        e, before := Pay(recipient, amount, seen.value, nextR, txR);
      }
      r := if e.Some? then Err(e.value) else Ok(());
    }

    // -------------------------------------------------------------- shield, merge, unshield

    /** Registers if need be, and deposits. */
    method RegisterAndDeposit(amount: nat) returns (e: Option<Error>, registering: bool)
      requires Valid()
      modifies this
      ensures Valid() && KeepsWhatItHolds()
      ensures old(landed) <= landed <= old(landed) + RegisterPlan(registering) + [Shielded(amount)]
      ensures e.None? ==>
                && landed == old(landed) + RegisterPlan(registering) + [Shielded(amount)]
                && shielded == old(shielded) + amount && Member(ledger, me)
                && local.receiving.v >= amount && Held(ledger, me) >= old(Held(ledger, me)) + amount
      ensures 0 < amount <= old(ledger.pub[me]) && e.Some? ==> trouble
      ensures e.Some? ==> Transient(e.value)
    {
      registering := false;
      var ok := Await();
      if !ok {
        return Some(Unavailable), registering;
      }
      ok, registering := EnsureRegistered();
      if !ok {
        return Some(SubmissionFailed), registering;
      }
      e := Deposit(amount);
    }

    /** Shields `amount`. Neither check on what arrived ever fires, and only a failed call stops it. */
    method ShieldConfidentialAsset(amount: nat) returns (r: Result<(), Error>, registering: bool)
      requires Valid()
      modifies this
      ensures Valid() && KeepsWhatItHolds()
      ensures old(landed) <= landed <= old(landed) + ShieldPlan(registering, amount)
      ensures r.Ok? ==> landed == old(landed) + ShieldPlan(registering, amount) && shielded == old(shielded) + amount
      ensures r.Ok? ==> local.spendable == Spendable() && Spendable().v >= old(Held(ledger, me)) + amount
      ensures r.Err? ==> if amount == 0 then r.error == NotPositive else Transient(r.error)
      ensures 0 < amount <= old(ledger.pub[me]) && !trouble ==> r.Ok?
    {
      registering := false;
      if amount == 0 {
        return Err(NotPositive), registering;
      }
      var e;
      e, registering := RegisterAndDeposit(amount);
      if e.Some? {
        return Err(e.value), registering;
      }
      if local.receiving.v == 0 && local.receiving.r == 0 {
        return Err(NothingReceived), registering;
      }
      e := Merge();
      if e.Some? {
        return Err(e.value), registering;
      }
      if local.spendable.v < amount {
        return Err(MergeFellShort), registering;
      }
      r := Ok(());
    }

    /** Waits once more if receiving was not verified. */
    method EnsureReceiving(seen: Verified) returns (e: Option<Error>)
      requires Valid()
      modifies this
      ensures Valid() && KeepsWhatItHolds() && landed == old(landed) && shielded == old(shielded)
      ensures e.None? ==> seen.receivingOk || Check(ledger, local, me).receivingOk
      ensures e.Some? ==> !seen.receivingOk && trouble && Transient(e.value)
    {
      var verified := seen;
      if !verified.receivingOk {
        var ok := Await();
        if !ok {
          return Some(Unavailable);
        }
        ok := WaitUntilVerified(false, true);
        if !ok {
          return Some(Syncing);
        }
        verified := VerifyAgainstChain();
      }
      e := if verified.receivingOk then None else Some(Syncing);
    }

    /** Moves everything received into spendable; `found` is the receiving opening that was read. */
    method MergeConfidentialAsset() returns (r: Result<(), Error>, ghost found: Option<Opening>)
      requires Valid()
      modifies this
      ensures Valid() && KeepsWhatItHolds()
      ensures old(landed) <= landed <= old(landed) + [Merged]
      ensures r.Ok? ==> landed == old(landed) + [Merged]
      ensures r.Ok? ==> local.spendable == Spendable() && Spendable().v >= old(Held(ledger, me))
      ensures old(Member(ledger, me)) && old(Receiving()) > 0 && !trouble ==> r.Ok?
      ensures r == Err(NothingToMerge) <==> found == Some(ZERO)
    {
      found := None;
      var ok := Await();
      if !ok {
        return Err(Unavailable), found;
      }
      var verified := ReconcileForRead();
      found := Some(local.receiving);
      if local.receiving.v == 0 && local.receiving.r == 0 {
        return Err(NothingToMerge), found;
      }
      var e := EnsureReceiving(verified);
      if e.Some? {
        return Err(e.value), found;
      }
      e := Merge();
      r := if e.Some? then Err(e.value) else Ok(());
    }

    /** Waits until the balances are verified, and merges when spendable alone is not enough. */
    method GatherSpendable(amount: nat) returns (e: Option<Error>, merging: bool)
      requires Valid()
      modifies this
      ensures Valid() && KeepsWhatItHolds() && shielded == old(shielded)
      ensures landed == old(landed) || (merging && landed == old(landed) + [Merged])
      ensures merging ==> old(Spendable()).v < amount && old(Receiving()) + (credited - old(credited)) > 0
      ensures e.None? ==> landed == old(landed) + if merging then [Merged] else []
      ensures e.None? ==> local.spendable == Spendable() && Spendable().v >= amount
      ensures e == Some(InsufficientToUnshield) ==> old(Member(ledger, me)) && old(Held(ledger, me)) < amount
      ensures old(Member(ledger, me)) && amount <= old(Held(ledger, me)) && e.Some? ==> trouble
    {
      merging := false;
      var ok := Await();
      if !ok {
        return Some(Unavailable), merging;
      }
      ok := WaitUntilVerified(true, true);
      if !ok {
        return Some(Syncing), merging;
      }
      if local.spendable.v < amount && local.receiving.v > 0 {
        merging := true;
        e := Merge();
        if e.Some? {
          return;
        }
      }
      e := if local.spendable.v < amount then Some(InsufficientToUnshield) else None;
    }

    /**
     Unshields `amount`: exactly that much moves to the public balance, out of all that the wallet held.
     It is refused for lack of funds only when the account held less at the start.
     */
    method UnshieldConfidentialAsset(amount: nat, nextR: nat)
      returns (r: Result<(), Error>, merging: bool, ghost before: Ledger)
      requires Valid()
      modifies this
      ensures Valid() && shielded == old(shielded)
      ensures old(landed) <= landed <= old(landed) + UnshieldPlan(merging, amount)
      ensures landed < old(landed) + UnshieldPlan(merging, amount) ==> KeepsWhatItHolds()
      ensures landed == old(landed) + UnshieldPlan(merging, amount) ==>
                KeptUpTo(before) && PaysOut(before, ledger, me, amount, nextR) && spent == old(spent) + amount
      ensures r.Ok? ==> landed == old(landed) + UnshieldPlan(merging, amount) && local.spendable == Spendable()
      ensures r == Err(InsufficientToUnshield) ==> old(Member(ledger, me)) && old(Held(ledger, me)) < amount
      ensures old(Member(ledger, me)) && 0 < amount <= old(Held(ledger, me)) && !trouble ==> r.Ok?
      ensures merging ==> old(Spendable()).v < amount && old(Receiving()) + (credited - old(credited)) > 0
    {
      merging, before := false, ledger;
      if amount == 0 {
        return Err(NotPositive), merging, before;
      }
      var e;
      e, merging := GatherSpendable(amount);
      if e.Some? {
        return Err(e.value), merging, before;
      }
      if !Member(ledger, me) {
        return Err(SenderNotRegistered), merging, before;
      }
      var ok;
      ok, before := WithdrawOwn(amount, nextR);
      r := if ok then Ok(()) else Err(SubmissionFailed);
    }

    /** Proves and submits the withdrawal, and records the new spendable opening. */
    method WithdrawOwn(amount: nat, nextR: nat) returns (ok: bool, ghost before: Ledger)
      requires Valid() && local.spendable.v >= amount
      modifies this
      ensures Valid()
      ensures landed == old(landed) || landed == old(landed) + [Unshielded(amount)]
      ensures landed == old(landed) ==> KeepsWhatItHolds()
      ensures landed != old(landed) ==>
                && OnlyCredits(old(ledger), before, me) && KeptUpTo(before)
                && PaysOut(before, ledger, me, amount, nextR) && spent == old(spent) + amount
      ensures ok ==> landed != old(landed) && local.spendable == Spendable()
      ensures shielded == old(shielded) && (old(trouble) ==> trouble) && (old(misread) ==> misread)
      ensures old(Member(ledger, me)) && old(local.spendable == Spendable()) && !ok ==> trouble
    {
      ok, before := Submit(Withdraw(me, me, local.spendable, amount, nextR));
      if !ok {
        return;
      }
      local := local.(spendable := Opening(local.spendable.v - amount, nextR));
    }

    // -------------------------------------------------------------- trying again

    /** One attempt in numbers: whether its transfer landed, and what others had sent when it read the balances. */
    method TryOnce(recipient: Account, amount: nat, nextR: nat, txR: nat)
      returns (ok: bool, ghost sent: bool, ghost at: nat)
      requires Valid()
      modifies this
      ensures Valid() && (ok ==> sent)
      ensures Sends(landed) == Sends(old(landed)) + if sent then [Sent(recipient, amount)] else []
      ensures spent == old(spent) + if sent then Leaving(recipient, amount) else 0
      ensures Held(ledger, me) ==
              old(Held(ledger, me)) + (shielded - old(shielded)) + (credited - old(credited)) - (spent - old(spent))
      ensures shielded >= old(shielded) && old(credited) <= at <= credited
      ensures !misread && shielded > old(shielded) ==>
                shielded - old(shielded) == amount - (old(Held(ledger, me)) + (at - old(credited)))
      ensures old(CanSettle(recipient, amount)) && !trouble ==> ok
      ensures (old(trouble) ==> trouble) && (old(misread) ==> misread)
    {
      var r, registering, seen;
      ghost var before;
      r, registering, seen, before, at := ExecuteConfidentialSettlement(recipient, amount, nextR, txR);
      ok := r.Ok?;
      sent := seen.Some? && landed == old(landed) + SettlePlan(registering, seen.value, recipient, amount);
      SendsOfAttempt(old(landed), landed, registering, seen, recipient, amount);
      if sent {
        DeliveryTakes(before, ledger, me, recipient, amount, nextR, txR);
      }
    }

    /**
     A holder who tries again after every failure, at most once for each pair of blinding factors.
     `lost` counts the failed attempts whose transfer had landed all the same. The recipient is paid the
     amount that often, and once more on success, and nobody else is paid anything.

     If receiving was in step with the chain whenever balances were read, all deposits together come to
     what the settlement was short at the last of them: the amount, plus what lost transfers had taken
     by then, less what was held at first and what others had sent. So retries shield more than the
     original shortfall exactly when lost transfers had taken more than others had sent.
     */
    method SettleUntilDone(recipient: Account, amount: nat, tries: seq<(nat, nat)>)
      returns (ok: bool, ghost lost: nat, ghost lostAt: nat, ghost creditedAt: nat)
      requires Valid()
      modifies this
      ensures Valid()
      ensures Sends(landed) ==
              Sends(old(landed)) + Times(Sent(recipient, amount), lost + if ok then 1 else 0)
      ensures spent == old(spent) + Leaving(recipient, amount) * (lost + if ok then 1 else 0)
      ensures Held(ledger, me) ==
              old(Held(ledger, me)) + (shielded - old(shielded)) + (credited - old(credited)) - (spent - old(spent))
      ensures lostAt <= lost && old(credited) <= creditedAt <= credited && shielded >= old(shielded)
      ensures !misread && shielded > old(shielded) ==>
                shielded - old(shielded) ==
                amount + Leaving(recipient, amount) * lostAt - (old(Held(ledger, me)) + (creditedAt - old(credited)))
      ensures !misread ==>
                (shielded - old(shielded) > Shortfall(amount, old(Held(ledger, me))) <==>
                 shielded > old(shielded) && Leaving(recipient, amount) * lostAt > creditedAt - old(credited))
      ensures !misread && lost == 0 ==> shielded - old(shielded) <= Shortfall(amount, old(Held(ledger, me)))
      ensures old(CanSettle(recipient, amount)) && !trouble && tries != [] ==> ok
    {
      ghost var gone := 0;
      ghost var goneAt := 0;
      ok, lost, lostAt, creditedAt := false, 0, 0, credited;
      for i := 0 to |tries|
        invariant Valid() && !ok
        invariant gone == Leaving(recipient, amount) * lost && goneAt == Leaving(recipient, amount) * lostAt
        invariant Sends(landed) == Sends(old(landed)) + Times(Sent(recipient, amount), lost)
        invariant spent == old(spent) + gone
        invariant Held(ledger, me) ==
                  old(Held(ledger, me)) + (shielded - old(shielded)) + (credited - old(credited)) - (spent - old(spent))
        invariant old(CanSettle(recipient, amount)) ==> if i == 0 then CanSettle(recipient, amount) else trouble
        invariant lostAt <= lost && old(credited) <= creditedAt <= credited && shielded >= old(shielded)
        invariant !misread && shielded > old(shielded) ==>
                    shielded - old(shielded) ==
                    amount + goneAt - (old(Held(ledger, me)) + (creditedAt - old(credited)))
      {
        ghost var shieldedBefore := shielded;
        ghost var sent, at;
        ok, sent, at := TryOnce(recipient, amount, tries[i].0, tries[i].1);
        if shielded > shieldedBefore {
          lostAt, creditedAt, goneAt := lost, at, gone;
        }
        OneMore(Leaving(recipient, amount), lost);
        TimesMore(Sent(recipient, amount), lost);
        if ok {
          return;
        }
        if sent {
          lost, gone := lost + 1, gone + Leaving(recipient, amount);
        }
      }
    }
  }

  lemma PlanAfterRegistering(landed: seq<Landed>, registering: bool, seen: Seen, to: Account, amount: nat)
    ensures landed + RegisterPlan(registering) + FundPlan(seen, amount) + [Sent(to, amount)] ==
            landed + SettlePlan(registering, seen, to, amount)
  {}

  lemma OneMore(x: nat, n: nat)
    ensures x * (n + 1) == x * n + x
  {}

  lemma DeliveryTakes(before: Ledger, after: Ledger, me: Account, to: Account, amount: nat, nextR: nat, txR: nat)
    requires Delivers(before, after, me, to, amount, nextR, txR)
    ensures Held(after, me) == Held(before, me) - if to == me then 0 else amount
  {}

  /** The payments among what landed: to whom, and how much. */
  function Sends(ls: seq<Landed>): seq<Landed> {
    if ls == [] then []
    else Sends(ls[..|ls| - 1]) + if ls[|ls| - 1].Sent? then [ls[|ls| - 1]] else []
  }

  function Times(one: Landed, n: nat): seq<Landed> {
    seq(n, _ => one)
  }

  lemma TimesMore(one: Landed, n: nat)
    ensures Times(one, n) + [one] == Times(one, n + 1) && Times(one, n) + [] == Times(one, n)
  {}

  lemma {:induction false} SendsJoin(a: seq<Landed>, b: seq<Landed>)
    ensures Sends(a + b) == Sends(a) + Sends(b)
    decreases b
  {
    if b == [] {
      assert a + b == a;
    } else {
      assert (a + b)[..|a + b| - 1] == a + b[..|b| - 1];
      SendsJoin(a, b[..|b| - 1]);
    }
  }

  lemma {:induction false} NothingSent(ls: seq<Landed>)
    requires forall i | 0 <= i < |ls| :: !ls[i].Sent?
    ensures Sends(ls) == []
  {
    if ls != [] {
      NothingSent(ls[..|ls| - 1]);
    }
  }

  /** A plan that lands sends once, and a part of it nothing. */
  lemma {:induction false} SendsOfPlan(funding: seq<Landed>, to: Account, amount: nat, made: seq<Landed>)
    requires (forall i | 0 <= i < |funding| :: !funding[i].Sent?) && made <= funding + [Sent(to, amount)]
    ensures Sends(made) == if made == funding + [Sent(to, amount)] then [Sent(to, amount)] else []
  {
    var plan := funding + [Sent(to, amount)];
    if made == plan {
      NothingSent(funding);
      assert plan[..|plan| - 1] == funding;
    } else {
      assert made == plan[..|made|];
      NothingSent(made);
    }
  }

  lemma {:induction false} MadeOf(before: seq<Landed>, after: seq<Landed>, plan: seq<Landed>)
    returns (made: seq<Landed>)
    requires before <= after <= before + plan
    ensures after == before + made && made <= plan && (after == before + plan <==> made == plan)
  {
    made := after[|before|..];
    assert made == plan[..|made|];
  }

  lemma {:induction false} SendsOfLanded(
    before: seq<Landed>, after: seq<Landed>, funding: seq<Landed>, plan: seq<Landed>, to: Account, amount: nat)
    requires forall i | 0 <= i < |funding| :: !funding[i].Sent?
    requires plan == funding + [Sent(to, amount)] && before <= after <= before + plan
    ensures Sends(after) == Sends(before) + if after == before + plan then [Sent(to, amount)] else []
  {
    var made := MadeOf(before, after, plan);
    SendsJoin(before, made);
    SendsOfPlan(funding, to, amount, made);
  }

  /** What lands of an attempt sends its amount to its recipient if it is the whole plan, and otherwise nothing. */
  lemma {:induction false} SendsOfAttempt(
    before: seq<Landed>, after: seq<Landed>, registering: bool, seen: Option<Seen>, to: Account, amount: nat)
    requires seen.None? ==> before <= after <= before + RegisterPlan(registering)
    requires seen.Some? ==> before <= after <= before + SettlePlan(registering, seen.value, to, amount)
    ensures var sent := seen.Some? && after == before + SettlePlan(registering, seen.value, to, amount);
            Sends(after) == Sends(before) + if sent then [Sent(to, amount)] else []
  {
    if seen.Some? {
      var funding := RegisterPlan(registering) + FundPlan(seen.value, amount);
      SendsOfLanded(before, after, funding, SettlePlan(registering, seen.value, to, amount), to, amount);
    } else {
      var made := MadeOf(before, after, RegisterPlan(registering));
      SendsJoin(before, made);
      NothingSent(made);
    }
  }

  // ---------------------------------------------------------------- paying twice

  /** The ledger after operations of this wallet that all land. */
  function AfterAll(l: Ledger, ops: seq<Op>): Option<Ledger>
    requires l.WellFormed()
    decreases ops
  {
    if ops == [] then Some(l)
    else
      match Apply(l, ops[0])
      case None => None
      case Some(next) => AfterAll(next, ops[1..])
  }

  /** These operations of `me` all land, and are what the plan says. */
  predicate Lands(l: Ledger, ops: seq<Op>, me: Account, plan: seq<Landed>, after: Ledger)
    requires l.WellFormed()
  {
    && AfterAll(l, ops) == Some(after)
    && |ops| == |plan|
    && forall i | 0 <= i < |ops| :: Own(ops[i], me) && LandedOf(ops[i], me) == plan[i]
  }

  function SeenOn(l: Ledger, me: Account): Seen
    requires l.WellFormed() && l.Has(me)
  {
    Seen(Local(l.spendable[me], l.receiving[me]), Verified(true, true))
  }

  /** Two members, one of which holds nothing confidential. */
  predicate CanStart(l: Ledger, me: Account, to: Account) {
    l.WellFormed() && Member(l, me) && Member(l, to) && me != to && Held(l, me) == 0
  }

  /** An attempt from nothing confidential whose whole plan lands. */
  lemma AttemptLands(l: Ledger, me: Account, to: Account, amount: nat, nextR: nat, txR: nat)
    returns (ops: seq<Op>, after: Ledger)
    requires CanStart(l, me, to) && 0 < amount <= l.pub[me]
    ensures Lands(l, ops, me, SettlePlan(false, SeenOn(l, me), to, amount), after) && CanStart(after, me, to)
    ensures after.pub[me] == l.pub[me] - amount && after.receiving[to].v == l.receiving[to].v + amount
  {
    var first := ConfidentialLedger.Op.Deposit(me, me, amount);
    var l1 := Apply(l, first).value;
    var second := ConfidentialLedger.Op.Merge(me);
    var l2 := Apply(l1, second).value;
    var third := Transfer(me, to, l2.spendable[me], amount, nextR, txR);
    after := Apply(l2, third).value;
    ops := [first, second, third];
    assert ops[1..] == [second, third] && ops[1..][1..] == [third] && ops[1..][1..][1..] == [];
    assert AfterAll(l2, [third]) == Some(after);
  }

  /**
   The case that costs twice is reachable: when the first of two attempts lands in full but is reported
   failed, the second, made from what is then on the ledger, shields and pays the same amount again.
   */
  lemma LostTransferIsPaidTwice(l: Ledger, me: Account, to: Account, amount: nat, nextR: nat, txR: nat)
    returns (first: seq<Op>, between: Ledger, second: seq<Op>, after: Ledger)
    requires CanStart(l, me, to) && 0 < amount && 2 * amount <= l.pub[me]
    ensures Lands(l, first, me, SettlePlan(false, SeenOn(l, me), to, amount), between) && CanStart(between, me, to)
    ensures Lands(between, second, me, SettlePlan(false, SeenOn(between, me), to, amount), after)
    ensures CanStart(after, me, to)
    ensures after.pub[me] == l.pub[me] - 2 * amount && after.receiving[to].v == l.receiving[to].v + 2 * amount
    ensures Shortfall(amount, Held(l, me)) == amount
  {
    first, between := AttemptLands(l, me, to, amount, nextR, txR);
    second, after := AttemptLands(between, me, to, amount, nextR, txR);
  }
}
