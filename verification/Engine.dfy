/**
 The wallet's state engine: it replays the token's events into the openings of one account.

 Hashing and curve arithmetic are parameters: `Keys` holds what one viewing key masks and unmasks.
 Rows are the issuer index's, with withdrawals still sealed as the chain reports them.
 */
module Engine {
  import opened Common
  import opened Balances
  import opened ConfidentialLedger
  import opened Fields
  import I = EventIndex

  /** The openings in the wallet's cache. */
  datatype Local = Local(spendable: Opening, receiving: Opening)

  const NOTHING := Local(ZERO, ZERO)

  datatype Verified = Verified(spendableOk: bool, receivingOk: bool)

  /** Whether the cache commits to what the chain holds; it does not for an account the chain does not know. */
  function Check(l: Ledger, local: Local, me: Account): Verified
    requires l.WellFormed() && l.Has(me)
  {
    if !l.registered[me] then Verified(false, false)
    else Verified(local.spendable == l.spendable[me], local.receiving == l.receiving[me])
  }

  // ---------------------------------------------------------------- masks

  type Point = (nat, nat)

  datatype Keys = Keys(
    balanceMask: nat -> nat,  // of the salt
    spendR: nat -> nat,
    amountMask: (Point, nat) -> nat,  // of the ephemeral point and the salt
    txBlind: (Point, nat) -> nat)

  ghost predicate YieldsBlinding(k: Keys) {
    && (forall sigma :: k.spendR(sigma) < FR_MODULUS)
    && forall p, sigma :: k.txBlind(p, sigma) < FR_MODULUS
  }

  function Mask(v: nat, mask: nat): nat {
    InField(v + mask)
  }

  function Unmask(c: nat, mask: nat): nat {
    InField(c - mask)
  }

  lemma MaskResidue(v: nat, mask: nat, m: nat)
    requires m > 0
    ensures ((v + mask) % m - mask) % m == v % m
  {
    var q := (v + mask) / m;
    assert (v + mask) % m - mask == v + (-q) * m;
    Residue(v, -q, m);
  }

  /** Unmasking gives back every value of the field. */
  lemma UnmaskOfMask(v: nat, mask: nat)
    requires v < FR_MODULUS
    ensures Unmask(Mask(v, mask), mask) == v
  {
    MaskResidue(v, mask, FR_MODULUS);
    Small(v, FR_MODULUS);
  }

  function OpenSpendable(k: Keys, bTilde: nat, sigma: nat): Opening {
    Opening(Unmask(bTilde, k.balanceMask(sigma)), k.spendR(sigma))
  }

  function DecryptIncoming(k: Keys, c: I.Cipher): Opening {
    Opening(Unmask(c.vTilde, k.amountMask((c.rX, c.rY), c.sigma)), k.txBlind((c.rX, c.rY), c.sigma))
  }

  // ---------------------------------------------------------------- replaying

  /** How the wallet adds openings: blinding factors as field elements. */
  function FrAdd(a: Opening, b: Opening): Opening {
    Opening(a.v + b.v, InField(a.r + b.r))
  }

  /** A withdrawal that still has its seal; anything else has all the engine reads. */
  predicate Complete(p: I.Payload) {
    p.Withdraw? ==> p.seal.Some?
  }

  predicate AllComplete(rows: seq<I.Row>) {
    forall i | 0 <= i < |rows| :: Complete(rows[i].payload)
  }

  function Credited(o: Local, amount: nat): Local {
    o.(receiving := Opening(o.receiving.v + amount, o.receiving.r))
  }

  /** What one event does to an account's openings. A spend overwrites spendable; a credit adds to receiving. */
  function Step(o: Local, p: I.Payload, me: string, k: Keys): Local
    requires Complete(p)
  {
    match p
    case Register(_, _) => o
    case Deposit(_, to, amount) =>
      if to == me then Credited(o, amount) else o
    case Merge(a) => if a == me then Local(FrAdd(o.spendable, o.receiving), ZERO) else o
    case Withdraw(from, _, _, seal) =>
      if from == me then o.(spendable := OpenSpendable(k, seal.value.bTilde, seal.value.sigma)) else o
    case Transfer(from, to, c) =>
      var spent := if from == me then o.(spendable := OpenSpendable(k, c.bTilde, c.sigma)) else o;
      if to == me then spent.(receiving := FrAdd(spent.receiving, DecryptIncoming(k, c))) else spent
    case Other => o
  }

  function Replay(o: Local, rows: seq<I.Row>, me: string, k: Keys): Local
    requires AllComplete(rows)
  {
    if rows == [] then o
    else Step(Replay(o, rows[..|rows| - 1], me, k), rows[|rows| - 1].payload, me, k)
  }

  datatype AccountState = AccountState(
    openings: Local,
    registered: bool,
    syncedLedger: nat,
    optimistic: set<string>)  // transactions whose effect was applied before their events came

  const FRESH_STATE := AccountState(NOTHING, false, 0, {})

  predicate Registers(p: I.Payload, me: string) {
    p.Register? && p.account == me
  }

  predicate AnyRegisters(events: seq<I.Row>, me: string) {
    exists i :: 0 <= i < |events| && Registers(events[i].payload, me)
  }

  function AfterEvent(s: AccountState, ev: I.Row, me: string, k: Keys): AccountState
    requires Complete(ev.payload)
  {
    var seen := s.(syncedLedger := Max(s.syncedLedger, ev.ledger));
    if ev.txHash in s.optimistic then seen
    else seen.(openings := Step(s.openings, ev.payload, me, k), registered := s.registered || Registers(ev.payload, me))
  }

  function AfterEvents(s: AccountState, events: seq<I.Row>, me: string, k: Keys): AccountState
    requires AllComplete(events)
  {
    if events == [] then s
    else AfterEvent(AfterEvents(s, events[..|events| - 1], me, k), events[|events| - 1], me, k)
  }

  class StateEngine {
    const address: string
    const keys: Keys
    var state: AccountState

    constructor (me: string, k: Keys, saved: AccountState)
      ensures address == me && keys == k && state == saved
    {
      address, keys, state := me, k, saved;
    }

    /** Applies one event in place. */
    method ApplyEvent(ev: I.Row)
      requires Complete(ev.payload)
      modifies this
      ensures state == AfterEvent(old(state), ev, address, keys)
    {
      if ev.txHash in state.optimistic {
        state := state.(syncedLedger := Max(state.syncedLedger, ev.ledger));
        return;
      }
      var o := state.openings;
      match ev.payload {
        case Register(account, _) =>
          if account == address {
            state := state.(registered := true);
          }
        case Deposit(_, to, amount) =>
          if to == address {
            o := o.(receiving := Opening(o.receiving.v + amount, o.receiving.r));
          }
        case Merge(account) =>
          if account == address {
            o := o.(spendable := FrAdd(o.spendable, o.receiving));
            o := o.(receiving := ZERO);
          }
        case Withdraw(from, _, _, seal) =>
          if from == address {
            o := o.(spendable := OpenSpendable(keys, seal.value.bTilde, seal.value.sigma));
          }
        case Transfer(from, to, c) =>
          if from == address {
            o := o.(spendable := OpenSpendable(keys, c.bTilde, c.sigma));
          }
          if to == address {
            o := o.(receiving := FrAdd(o.receiving, DecryptIncoming(keys, c)));
          }
        case Other =>
      }
      state := state.(openings := o, syncedLedger := Max(state.syncedLedger, ev.ledger));
    }

    /** The loop of `sync`: the openings are those of the replay of all events without a marker. */
    method Sync(events: seq<I.Row>, latestLedger: nat)
      requires AllComplete(events)
      modifies this
      ensures state.openings == Replay(old(state).openings, Unmarked(events, old(state).optimistic), address, keys)
      ensures state.registered ==
              (old(state).registered || AnyRegisters(Unmarked(events, old(state).optimistic), address))
      ensures state.optimistic == old(state).optimistic
      ensures state.syncedLedger == Max(Newest(old(state).syncedLedger, events), latestLedger)
    {
      for i := 0 to |events|
        invariant state == AfterEvents(old(state), events[..i], address, keys)
      {
        assert events[..i + 1][..i] == events[..i];
        ApplyEvent(events[i]);
      }
      assert events[..|events|] == events;
      EventsAreReplayed(old(state), events, address, keys);
      state := state.(syncedLedger := Max(state.syncedLedger, latestLedger));
    }

    /** Adds a deposit to receiving before its event has come, and marks its transaction. */
    method CreditReceiving(amount: nat, txHash: string)
      modifies this
      ensures state == old(state).(openings := Credited(old(state).openings, amount),
                                   optimistic := old(state).optimistic + {txHash})
    {
      var receiving := state.openings.receiving;
      state := state.(openings := state.openings.(receiving := Opening(receiving.v + amount, receiving.r)));
      state := state.(optimistic := state.optimistic + {txHash});
    }

    /** `rebuildFromEvents`: from nothing, ignoring what was cached. */
    method RebuildFromEvents(events: seq<I.Row>, latestLedger: nat)
      requires AllComplete(events)
      modifies this
      ensures state.openings == Replay(NOTHING, events, address, keys) && state.optimistic == {}
      ensures state.registered == AnyRegisters(events, address)
    {
      state := FRESH_STATE;
      Sync(events, latestLedger);
      NothingMarked(events);
    }
  }

  /** The rows that are kept. */
  function Filter(rows: seq<I.Row>, keeps: I.Row -> bool): (kept: seq<I.Row>)
    ensures AllComplete(rows) ==> AllComplete(kept)
  {
    if rows == [] then []
    else
      var front := Filter(rows[..|rows| - 1], keeps);
      if keeps(rows[|rows| - 1]) then front + [rows[|rows| - 1]] else front
  }

  function Unmarked(rows: seq<I.Row>, marked: set<string>): (kept: seq<I.Row>)
    ensures AllComplete(rows) ==> AllComplete(kept)
  {
    Filter(rows, (row: I.Row) => row.txHash !in marked)
  }

  lemma {:induction false} NothingMarked(rows: seq<I.Row>)
    ensures Unmarked(rows, {}) == rows
  {
    if rows != [] {
      NothingMarked(rows[..|rows| - 1]);
    }
  }

  /** The greatest of a ledger and those of the events, marked or not. */
  function Newest(ledger: nat, events: seq<I.Row>): (n: nat)
    ensures n >= ledger && forall i | 0 <= i < |events| :: n >= events[i].ledger
    ensures n == ledger || exists i | 0 <= i < |events| :: n == events[i].ledger
  {
    if events == [] then ledger
    else
      var front, last := events[..|events| - 1], events[|events| - 1];
      assert forall i | 0 <= i < |front| :: front[i] == events[i];
      Max(Newest(ledger, front), last.ledger)
  }

  lemma RegistersSnoc(events: seq<I.Row>, last: I.Row, me: string)
    ensures AnyRegisters(events + [last], me) <==> AnyRegisters(events, me) || Registers(last.payload, me)
  {
    var all := events + [last];
    assert all[|events|] == last;
    if AnyRegisters(events, me) {
      var i :| 0 <= i < |events| && Registers(events[i].payload, me);
      assert Registers(all[i].payload, me);
    }
  }

  lemma {:induction false} EventsAreReplayed(s: AccountState, events: seq<I.Row>, me: string, k: Keys)
    requires AllComplete(events)
    ensures var after := AfterEvents(s, events, me, k);
            && after.openings == Replay(s.openings, Unmarked(events, s.optimistic), me, k)
            && after.optimistic == s.optimistic && after.syncedLedger == Newest(s.syncedLedger, events)
            && (after.registered <==> s.registered || AnyRegisters(Unmarked(events, s.optimistic), me))
  {
    if events != [] {
      var front, last := events[..|events| - 1], events[|events| - 1];
      EventsAreReplayed(s, front, me, k);
      var kept := Unmarked(front, s.optimistic);
      assert (kept + [last])[..|kept|] == kept;
      RegistersSnoc(kept, last, me);
    }
  }

  // ---------------------------------------------------------------- what the chain reports

  /** The accounts' addresses and keys. */
  datatype World = World(names: seq<string>, keys: seq<Keys>)

  ghost predicate Fits(w: World, l: Ledger) {
    && |w.names| == |w.keys| == |l.pub|
    && (forall i, j | 0 <= i < j < |w.names| :: w.names[i] != w.names[j])
    && forall i | 0 <= i < |w.keys| :: YieldsBlinding(w.keys[i])
  }

  /** All accounts of an operation are in the ledger. */
  predicate InRange(op: Op, n: nat) {
    match op
    case Register(a) => a < n
    case Merge(a) => a < n
    case Deposit(from, to, _) => from < n && to < n
    case Transfer(from, to, _, _, _, _) => from < n && to < n
    case Withdraw(from, to, _, _, _) => from < n && to < n
    case PublicPayment(from, to, _) => from < n && to < n
  }

  /**
   What the token reports for an operation that went through. The proofs of transfers and withdrawals make
   the numbers in them the masked new balance and amount, and the new blinding factors those of the salt.
   */
  predicate Reports(op: Op, p: I.Payload, w: World)
    requires |w.names| == |w.keys| && InRange(op, |w.names|)
  {
    match op
    case Register(a) => p.Register? && p.account == w.names[a]
    case Deposit(from, to, amount) => p == I.Payload.Deposit(w.names[from], w.names[to], amount)
    case Merge(a) => p == I.Payload.Merge(w.names[a])
    case Transfer(from, to, claim, amount, nextR, txR) =>
      && p.Transfer? && p.sender == w.names[from] && p.recipient == w.names[to] && amount <= claim.v
      && p.cipher.bTilde == Mask(claim.v - amount, w.keys[from].balanceMask(p.cipher.sigma))
      && nextR == w.keys[from].spendR(p.cipher.sigma)
      && p.cipher.vTilde == Mask(amount, w.keys[to].amountMask((p.cipher.rX, p.cipher.rY), p.cipher.sigma))
      && txR == w.keys[to].txBlind((p.cipher.rX, p.cipher.rY), p.cipher.sigma)
    case Withdraw(from, to, claim, amount, nextR) =>
      && p.Withdraw? && p.owner == w.names[from] && p.payee == w.names[to] && p.amount == amount
      && p.seal.Some? && amount <= claim.v
      && p.seal.value.bTilde == Mask(claim.v - amount, w.keys[from].balanceMask(p.seal.value.sigma))
      && nextR == w.keys[from].spendR(p.seal.value.sigma)
    case PublicPayment(_, _, _) => p.Other?
  }

  /** An operation that is tried, and what the token reports if it goes through. */
  datatype Try = Try(op: Op, event: I.Payload)

  function Ops(tries: seq<Try>): (ops: seq<Op>)
    ensures |ops| == |tries| && forall i | 0 <= i < |tries| :: ops[i] == tries[i].op
  {
    seq(|tries|, i requires 0 <= i < |tries| => tries[i].op)
  }

  function AfterTry(l: Ledger, t: Try): (after: Ledger)
    requires l.WellFormed()
    ensures after.WellFormed() && |after.pub| == |l.pub|
  {
    var next := Apply(l, t.op);
    if next.Some? then next.value else l
  }

  function AfterTries(l: Ledger, tries: seq<Try>): (after: Ledger)
    requires l.WellFormed()
    ensures after.WellFormed() && |after.pub| == |l.pub|
  {
    if tries == [] then l else AfterTry(AfterTries(l, tries[..|tries| - 1]), tries[|tries| - 1])
  }

  /** The token's events of a run, in order. */
  function Events(l: Ledger, tries: seq<Try>): seq<I.Payload>
    requires l.WellFormed()
  {
    if tries == [] then []
    else
      var front, last := tries[..|tries| - 1], tries[|tries| - 1];
      Events(l, front)
      + if Apply(AfterTries(l, front), last.op).Some? && !last.op.PublicPayment? then [last.event] else []
  }

  /** Whatever goes through is reported truly. */
  ghost predicate AllReported(l: Ledger, tries: seq<Try>, w: World)
    requires l.WellFormed() && |w.names| == |w.keys| == |l.pub|
  {
    tries == [] ||
    (var front, last := tries[..|tries| - 1], tries[|tries| - 1];
     && AllReported(l, front, w)
     && (Apply(AfterTries(l, front), last.op).Some? ==>
           InRange(last.op, |w.names|) && Reports(last.op, last.event, w)))
  }

  function OpeningsOf(l: Ledger, a: Account): Local
    requires l.WellFormed() && l.Has(a)
  {
    Local(l.spendable[a], l.receiving[a])
  }

  predicate Reduced(o: Local) {
    o.spendable.r < FR_MODULUS && o.receiving.r < FR_MODULUS
  }

  lemma AmountsAreSmall(l: Ledger, op: Op)
    requires l.WellFormed() && Total(l) < FR_MODULUS && Apply(l, op).Some?
    requires op.Transfer? || op.Withdraw?
    ensures op.claim.v < FR_MODULUS && op.amount <= op.claim.v
  {
    OneOfSum(Values(l.spendable), op.from);
  }

  /** The plain sums of the blinding factors behind an account's openings. */
  datatype Blindings = Blindings(receiving: nat, spendable: nat)

  function BlindingsOf(o: Local): Blindings {
    Blindings(o.receiving.r, o.spendable.r)
  }

  /** A transfer's blinding factor is added, a merge moves the sum, and a spend starts a new one. */
  function AddBlindings(b: Blindings, op: Op, me: Account): Blindings {
    match op
    case Merge(a) => if a == me then Blindings(0, b.spendable + b.receiving) else b
    case Withdraw(from, _, _, _, nextR) => if from == me then b.(spendable := nextR) else b
    case Transfer(from, to, _, _, nextR, txR) =>
      Blindings(b.receiving + (if to == me then txR else 0), if from == me then nextR else b.spendable)
    case _ => b
  }

  /** A cached opening, the chain's, and the plain sum of blinding factors behind both. */
  predicate IsTracked(mine: Opening, chain: Opening, sum: nat) {
    mine.v == chain.v && mine.r == InField(sum) && chain.r == InGroup(sum)
  }

  predicate Tracks(mine: Local, chain: Local, b: Blindings) {
    IsTracked(mine.receiving, chain.receiving, b.receiving) && IsTracked(mine.spendable, chain.spendable, b.spendable)
  }

  lemma SumIsTracked(a: Opening, b: Opening, s: nat, c: Opening, d: Opening, t: nat)
    requires IsTracked(a, b, s) && IsTracked(c, d, t)
    ensures IsTracked(FrAdd(a, c), Add(b, d), s + t)
  {
    SumInField(s, t);
    SumInGroup(s, t);
  }

  /** A blinding factor of the field is the same in the group. */
  lemma FreshIsTracked(o: Opening)
    requires o.r < FR_MODULUS
    ensures IsTracked(o, o, o.r)
  {
    ReducedStays(o.r);
  }

  lemma DepositIsTracked(a: Opening, b: Opening, s: nat, amount: nat)
    requires IsTracked(a, b, s)
    ensures IsTracked(Opening(a.v + amount, a.r), Add(b, Opening(amount, 0)), s)
  {
    ReducedStays(b.r);
  }

  /** What a transfer leaves its sender, and gives to its recipient. */
  function Rest(op: Op): Opening
    requires (op.Transfer? || op.Withdraw?) && op.amount <= op.claim.v
  {
    Opening(op.claim.v - op.amount, op.nextR)
  }

  function Credit(op: Op): Opening
    requires op.Transfer?
  {
    Opening(op.amount, op.txR)
  }

  lemma {:induction false} TransferIsOpened(l: Ledger, op: Op, p: I.Payload, w: World)
    requires l.WellFormed() && Fits(w, l) && Total(l) < FR_MODULUS && op.Transfer?
    requires Apply(l, op).Some? && InRange(op, |w.names|) && Reports(op, p, w)
    ensures op.amount <= op.claim.v && op.nextR < FR_MODULUS && op.txR < FR_MODULUS
    ensures OpenSpendable(w.keys[op.from], p.cipher.bTilde, p.cipher.sigma) == Rest(op)
    ensures DecryptIncoming(w.keys[op.to], p.cipher) == Credit(op)
  {
    AmountsAreSmall(l, op);
    UnmaskOfMask(op.claim.v - op.amount, w.keys[op.from].balanceMask(p.cipher.sigma));
    UnmaskOfMask(op.amount, w.keys[op.to].amountMask((p.cipher.rX, p.cipher.rY), p.cipher.sigma));
  }

  lemma {:induction false} TransferIsReplayed(
    l: Ledger, op: Op, p: I.Payload, w: World, me: Account, mine: Local)
    requires l.WellFormed() && l.Has(me) && Fits(w, l) && Total(l) < FR_MODULUS && op.Transfer?
    requires Apply(l, op).Some? && InRange(op, |w.names|) && Reports(op, p, w)
    ensures op.amount <= op.claim.v
    ensures Step(mine, p, w.names[me], w.keys[me]) ==
            Local(if op.from == me then Rest(op) else mine.spendable,
                  if op.to == me then FrAdd(mine.receiving, Credit(op)) else mine.receiving)
  {
    TransferIsOpened(l, op, p, w);
  }

  lemma {:induction false} TransferIsTracked(
    l: Ledger, op: Op, p: I.Payload, w: World, me: Account, mine: Local, b: Blindings)
    requires l.WellFormed() && l.Has(me) && Fits(w, l) && Total(l) < FR_MODULUS && op.Transfer?
    requires Apply(l, op).Some? && InRange(op, |w.names|) && Reports(op, p, w) && Tracks(mine, OpeningsOf(l, me), b)
    ensures Tracks(Step(mine, p, w.names[me], w.keys[me]), OpeningsOf(Apply(l, op).value, me), AddBlindings(b, op, me))
  {
    TransferIsOpened(l, op, p, w);
    TransferIsReplayed(l, op, p, w, me, mine);
    FreshIsTracked(Rest(op));
    FreshIsTracked(Credit(op));
    SumIsTracked(mine.receiving, l.receiving[me], b.receiving, Credit(op), Credit(op), op.txR);
  }

  lemma {:induction false} WithdrawIsTracked(
    l: Ledger, op: Op, p: I.Payload, w: World, me: Account, mine: Local, b: Blindings)
    requires l.WellFormed() && l.Has(me) && Fits(w, l) && Total(l) < FR_MODULUS && op.Withdraw?
    requires Apply(l, op).Some? && InRange(op, |w.names|) && Reports(op, p, w) && Tracks(mine, OpeningsOf(l, me), b)
    ensures Complete(p)
    ensures Tracks(Step(mine, p, w.names[me], w.keys[me]), OpeningsOf(Apply(l, op).value, me), AddBlindings(b, op, me))
  {
    AmountsAreSmall(l, op);
    UnmaskOfMask(op.claim.v - op.amount, w.keys[op.from].balanceMask(p.seal.value.sigma));
    FreshIsTracked(Rest(op));
  }

  /** One event moves a replay as its operation moves the chain: alike in value, each with its own modulus. */
  lemma {:induction false} StepIsTracked(
    l: Ledger, op: Op, p: I.Payload, w: World, me: Account, mine: Local, b: Blindings)
    requires l.WellFormed() && l.Has(me) && Fits(w, l) && Total(l) < FR_MODULUS
    requires Apply(l, op).Some? && InRange(op, |w.names|) && Reports(op, p, w) && Tracks(mine, OpeningsOf(l, me), b)
    ensures Complete(p)
    ensures Tracks(Step(mine, p, w.names[me], w.keys[me]), OpeningsOf(Apply(l, op).value, me), AddBlindings(b, op, me))
  {
    if op.Transfer? {
      TransferIsTracked(l, op, p, w, me, mine, b);
    } else if op.Withdraw? {
      WithdrawIsTracked(l, op, p, w, me, mine, b);
    } else if op.Deposit? {
      DepositIsTracked(mine.receiving, l.receiving[me], b.receiving, op.amount);
    } else if op.Merge? {
      FreshIsTracked(ZERO);
      SumIsTracked(
        mine.spendable, l.spendable[me], b.spendable, mine.receiving, l.receiving[me], b.receiving);
    }
  }

  function Payloads(rows: seq<I.Row>): (ps: seq<I.Payload>)
    ensures |ps| == |rows| && forall i | 0 <= i < |rows| :: ps[i] == rows[i].payload
  {
    seq(|rows|, i requires 0 <= i < |rows| => rows[i].payload)
  }

  lemma TryKeepsTotal(l: Ledger, t: Try)
    requires l.WellFormed()
    ensures Total(AfterTry(l, t)) == Total(l)
  {
    if Apply(l, t.op).Some? {
      ApplyConserves(l, t.op);
    }
  }

  lemma CompleteSnoc(rows: seq<I.Row>)
    requires rows != []
    ensures AllComplete(rows) <==> AllComplete(rows[..|rows| - 1]) && Complete(rows[|rows| - 1].payload)
  {
    assert rows == rows[..|rows| - 1] + [rows[|rows| - 1]];
  }

  /** The plain sums after a run. */
  function BlindingsAfter(l: Ledger, tries: seq<Try>, me: Account): Blindings
    requires l.WellFormed() && l.Has(me)
  {
    if tries == [] then BlindingsOf(OpeningsOf(l, me))
    else
      var front, last := tries[..|tries| - 1], tries[|tries| - 1];
      var before := BlindingsAfter(l, front, me);
      if Apply(AfterTries(l, front), last.op).Some? then AddBlindings(before, last.op, me) else before
  }

  lemma {:induction false} TryIsTracked(l: Ledger, t: Try, w: World, me: Account, mine: Local, b: Blindings)
    requires l.WellFormed() && l.Has(me) && Fits(w, l) && Total(l) < FR_MODULUS && Tracks(mine, OpeningsOf(l, me), b)
    requires Apply(l, t.op).Some? ==> InRange(t.op, |w.names|) && Reports(t.op, t.event, w)
    ensures Apply(l, t.op).Some? ==> Complete(t.event)
    ensures var after := OpeningsOf(AfterTry(l, t), me);
            if Apply(l, t.op).None? then after == OpeningsOf(l, me)
            else Tracks(Step(mine, t.event, w.names[me], w.keys[me]), after, AddBlindings(b, t.op, me))
    ensures t.op.PublicPayment? ==>
              OpeningsOf(AfterTry(l, t), me) == OpeningsOf(l, me) && AddBlindings(b, t.op, me) == b
  {
    if Apply(l, t.op).Some? {
      StepIsTracked(l, t.op, t.event, w, me, mine, b);
    }
  }

  /**
   Replaying all that the token reports of a run, from the openings the chain held, follows the chain:
   the values are always the chain's, since all the money there is fits the field, and the blinding
   factors are the same plain sums, reduced in the field here and in the group there.
   */
  lemma {:induction false} ReplayFollowsChain(l: Ledger, tries: seq<Try>, rows: seq<I.Row>, w: World, me: Account)
    requires l.WellFormed() && l.Has(me) && Fits(w, l) && Total(l) < FR_MODULUS && Reduced(OpeningsOf(l, me))
    requires AllReported(l, tries, w) && Payloads(rows) == Events(l, tries)
    ensures AllComplete(rows) && Total(AfterTries(l, tries)) == Total(l)
    ensures Tracks(Replay(OpeningsOf(l, me), rows, w.names[me], w.keys[me]),
                   OpeningsOf(AfterTries(l, tries), me), BlindingsAfter(l, tries, me))
  {
    if tries == [] {
      FreshIsTracked(l.receiving[me]);
      FreshIsTracked(l.spendable[me]);
    } else {
      var front, last := tries[..|tries| - 1], tries[|tries| - 1];
      var before, o := AfterTries(l, front), OpeningsOf(l, me);
      if Apply(before, last.op).Some? && !last.op.PublicPayment? {
        var earlier := rows[..|rows| - 1];
        assert Payloads(rows)[..|rows| - 1] == Payloads(earlier) && rows[|rows| - 1].payload == last.event;
        ReplayFollowsChain(l, front, earlier, w, me);
        TryIsTracked(before, last, w, me, Replay(o, earlier, w.names[me], w.keys[me]), BlindingsAfter(l, front, me));
        CompleteSnoc(rows);
      } else {
        ReplayFollowsChain(l, front, rows, w, me);
        TryIsTracked(before, last, w, me, Replay(o, rows, w.names[me], w.keys[me]), BlindingsAfter(l, front, me));
      }
      TryKeepsTotal(before, last);
    }
  }

  /** The wallet counts as registered exactly if it was, or the chain registered it during the run. */
  lemma {:induction false} RegistrationFollowsChain(
    l: Ledger, tries: seq<Try>, rows: seq<I.Row>, w: World, me: Account)
    requires l.WellFormed() && l.Has(me) && Fits(w, l)
    requires AllReported(l, tries, w) && Payloads(rows) == Events(l, tries)
    ensures AfterTries(l, tries).registered[me] <==> l.registered[me] || AnyRegisters(rows, w.names[me])
  {
    if tries != [] {
      var front, last := tries[..|tries| - 1], tries[|tries| - 1];
      var before := AfterTries(l, front);
      if Apply(before, last.op).Some? && !last.op.PublicPayment? {
        var earlier := LastEvent(l, tries, rows);
        RegistrationFollowsChain(l, front, earlier, w, me);
        RegistersSnoc(earlier, rows[|rows| - 1], w.names[me]);
        TryRegisters(before, last, w, me);
      } else {
        RegistrationFollowsChain(l, front, rows, w, me);
      }
    }
  }

  lemma {:induction false} LastEvent(l: Ledger, tries: seq<Try>, rows: seq<I.Row>) returns (earlier: seq<I.Row>)
    requires l.WellFormed() && tries != [] && Payloads(rows) == Events(l, tries)
    requires var last := tries[|tries| - 1];
             Apply(AfterTries(l, tries[..|tries| - 1]), last.op).Some? && !last.op.PublicPayment?
    ensures rows != [] && rows == earlier + [rows[|rows| - 1]]
    ensures Payloads(earlier) == Events(l, tries[..|tries| - 1])
    ensures rows[|rows| - 1].payload == tries[|tries| - 1].event
  {
    earlier := rows[..|rows| - 1];
    assert Payloads(rows)[..|rows| - 1] == Payloads(earlier);
  }

  lemma {:induction false} TryRegisters(l: Ledger, t: Try, w: World, me: Account)
    requires l.WellFormed() && l.Has(me) && Fits(w, l)
    requires Apply(l, t.op).Some? && InRange(t.op, |w.names|) && Reports(t.op, t.event, w)
    ensures AfterTry(l, t).registered[me] <==> l.registered[me] || Registers(t.event, w.names[me])
  {}

  lemma {:induction false} AfterTriesIsRun(l: Ledger, tries: seq<Try>)
    requires l.WellFormed()
    ensures AfterTries(l, tries) == Run(l, Ops(tries))
  {
    if tries != [] {
      var front, last := tries[..|tries| - 1], tries[|tries| - 1];
      AfterTriesIsRun(l, front);
      RunSnoc(l, Ops(front), last.op);
      assert Ops(tries) == Ops(front) + [last.op];
    }
  }

  lemma {:induction false} RunSnoc(l: Ledger, ops: seq<Op>, op: Op)
    requires l.WellFormed()
    ensures var before := Run(l, ops);
            Run(l, ops + [op]) == if Apply(before, op).Some? then Apply(before, op).value else before
    decreases ops
  {
    if ops == [] {
      assert [op][1..] == [];
    } else {
      var next := Apply(l, ops[0]);
      assert (ops + [op])[1..] == ops[1..] + [op];
      RunSnoc(if next.Some? then next.value else l, ops[1..], op);
    }
  }

  lemma TrackedAgreesIff(mine: Opening, chain: Opening, sum: nat)
    requires IsTracked(mine, chain, sum)
    ensures mine == chain <==> Unwrapped(sum)
  {
    UnwrappedIff(sum);
  }

  /**
   A wallet that rebuilds from all events of a run in which it started with nothing has the values the
   chain holds, and each of its openings verifies exactly if the sum of blinding factors behind it is unwrapped.
   */
  lemma {:induction false} RebuiltOpeningsVerify(l: Ledger, tries: seq<Try>, rows: seq<I.Row>, w: World, me: Account)
    requires l.WellFormed() && l.Has(me) && Fits(w, l) && Total(l) < FR_MODULUS && OpeningsOf(l, me) == NOTHING
    requires AllReported(l, tries, w) && Payloads(rows) == Events(l, tries)
    ensures AllComplete(rows)
    ensures var after, mine := Run(l, Ops(tries)), Replay(NOTHING, rows, w.names[me], w.keys[me]);
            var sums := BlindingsAfter(l, tries, me);
            && mine.receiving.v == after.receiving[me].v && mine.spendable.v == after.spendable[me].v
            && (mine.receiving == after.receiving[me] <==> Unwrapped(sums.receiving))
            && (mine.spendable == after.spendable[me] <==> Unwrapped(sums.spendable))
            && Check(after, mine, me) == Verified(after.registered[me] && Unwrapped(sums.spendable),
                                                  after.registered[me] && Unwrapped(sums.receiving))
  {
    ReplayFollowsChain(l, tries, rows, w, me);
    AfterTriesIsRun(l, tries);
    var mine, chain := Replay(NOTHING, rows, w.names[me], w.keys[me]), OpeningsOf(AfterTries(l, tries), me);
    TrackedAgreesIff(mine.receiving, chain.receiving, BlindingsAfter(l, tries, me).receiving);
    TrackedAgreesIff(mine.spendable, chain.spendable, BlindingsAfter(l, tries, me).spendable);
  }

  lemma {:induction false} BlindingsGrow(l: Ledger, op: Op, p: I.Payload, w: World, me: Account, b: Blindings)
    requires Fits(w, l) && me < |w.names| && InRange(op, |w.names|) && Reports(op, p, w)
    ensures var after := AddBlindings(b, op, me);
            after.receiving + after.spendable <= b.receiving + b.spendable + 2 * FR_MODULUS
  {}

  lemma {:induction false} FewBlindings(l: Ledger, tries: seq<Try>, w: World, me: Account)
    requires l.WellFormed() && l.Has(me) && Fits(w, l) && Reduced(OpeningsOf(l, me)) && AllReported(l, tries, w)
    ensures var b := BlindingsAfter(l, tries, me);
            b.receiving + b.spendable < (2 * |tries| + 2) * FR_MODULUS
  {
    if tries != [] {
      var front, last := tries[..|tries| - 1], tries[|tries| - 1];
      FewBlindings(l, front, w, me);
      if Apply(AfterTries(l, front), last.op).Some? {
        BlindingsGrow(l, last.op, last.event, w, me, BlindingsAfter(l, front, me));
      }
    }
  }

  /** In any run of fewer operations than half the group's order, unwrapped means below the field's modulus. */
  lemma {:induction false} UnwrappedInRun(l: Ledger, tries: seq<Try>, w: World, me: Account)
    requires l.WellFormed() && l.Has(me) && Fits(w, l) && Reduced(OpeningsOf(l, me)) && AllReported(l, tries, w)
    requires 2 * |tries| + 2 <= GROUP_ORDER
    ensures var sums := BlindingsAfter(l, tries, me);
            && (Unwrapped(sums.receiving) <==> sums.receiving < FR_MODULUS)
            && (Unwrapped(sums.spendable) <==> sums.spendable < FR_MODULUS)
  {
    FewBlindings(l, tries, w, me);
    ProductGrows(2 * |tries| + 2, GROUP_ORDER, FR_MODULUS);
    UnwrappedIsSmall(BlindingsAfter(l, tries, me).receiving);
    UnwrappedIsSmall(BlindingsAfter(l, tries, me).spendable);
  }

  /** The wallet's addition is the chain's, for openings of the field, exactly if the blinding factors stay in it. */
  lemma AdditionsAgreeIff(a: Opening, b: Opening)
    requires a.r < FR_MODULUS && b.r < FR_MODULUS
    ensures FrAdd(a, b) == Add(a, b) <==> a.r + b.r < FR_MODULUS
  {
    UnwrappedIff(a.r + b.r);
    UnwrappedIsSmall(a.r + b.r);
  }
}
