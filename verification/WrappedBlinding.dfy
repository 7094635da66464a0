/**
 A run in which the wallet's replay misses nothing and still does not verify: two incoming transfers whose
 blinding factors add up to more than the field's modulus, which the chain's points do not wrap at.
 */
module WrappedBlinding {
  import opened Common
  import opened Balances
  import opened ConfidentialLedger
  import opened Engine
  import opened Fields
  import I = EventIndex

  const SENDER: Account := 0
  const RECIPIENT: Account := 1

  /** Two accounts that have not registered, one with two coins. */
  const START := Ledger([2, 0], [false, false], [ZERO, ZERO], [ZERO, ZERO], 0)

  /** The largest blinding factor there is. */
  const BLINDING: nat := FR_MODULUS - 1

  function Wallet(): Keys {
    Keys((_: nat) => 0, (_: nat) => 0, (_: Point, _: nat) => 0, (_: Point, _: nat) => BLINDING)
  }

  function Wallets(): World {
    World(["a", "b"], [Wallet(), Wallet()])
  }

  /** Sending one coin of `held`. */
  function SendOne(held: nat): Try
    requires held > 0
  {
    Try(Transfer(SENDER, RECIPIENT, Opening(held, 0), 1, 0, BLINDING),
        I.Payload.Transfer("a", "b", I.Cipher(0, 0, 0, Mask(1, 0), Mask(held - 1, 0), 0, 0, 0, 0)))
  }

  const REGISTER_SENDER := Try(Register(SENDER), I.Payload.Register("a", 0))
  const REGISTER_RECIPIENT := Try(Register(RECIPIENT), I.Payload.Register("b", 0))
  const SHIELD := Try(Deposit(SENDER, SENDER, 2), I.Payload.Deposit("a", "a", 2))
  const MERGE_SENDER := Try(Merge(SENDER), I.Payload.Merge("a"))
  const MERGE_RECIPIENT := Try(Merge(RECIPIENT), I.Payload.Merge("b"))

  /** One more operation that goes through, from what is known of the run before it. */
  lemma {:induction false} OneMore(tries: seq<Try>, before: Ledger, t: Try, after: Ledger, sums: Blindings)
    requires AfterTries(START, tries) == before && AllReported(START, tries, Wallets())
    requires before.WellFormed() && Apply(before, t.op) == Some(after)
    requires InRange(t.op, 2) && Reports(t.op, t.event, Wallets())
    requires BlindingsAfter(START, tries, RECIPIENT) == sums
    ensures AfterTries(START, tries + [t]) == after && AllReported(START, tries + [t], Wallets())
    ensures BlindingsAfter(START, tries + [t], RECIPIENT) == AddBlindings(sums, t.op, RECIPIENT)
  {
    assert (tries + [t])[..|tries|] == tries;
  }

  /** The accounts registered, and the sender has `held` spendable; the recipient has what is given. */
  function Between(held: nat, receiving: Opening, spendable: Opening): Ledger {
    Ledger([0, 0], [true, true], [ZERO, receiving], [Opening(held, 0), spendable], 2)
  }

  lemma {:induction false} Registering()
    ensures var one := START.(registered := [true, false]);
            && Apply(START, REGISTER_SENDER.op) == Some(one)
            && Apply(one, REGISTER_RECIPIENT.op) == Some(START.(registered := [true, true]))
  {
    assert [false, false][0 := true] == [true, false];
    assert [true, false][1 := true] == [true, true];
  }

  lemma {:induction false} Shielding()
    ensures var deposited := Ledger([0, 0], [true, true], [Opening(2, 0), ZERO], [ZERO, ZERO], 2);
            && Apply(START.(registered := [true, true]), SHIELD.op) == Some(deposited)
            && Apply(deposited, MERGE_SENDER.op) == Some(Between(2, ZERO, ZERO))
  {
    ReducedStays(0);
    assert [2, 0][0 := 0] == [0, 0];
    assert [ZERO, ZERO][0 := Opening(2, 0)] == [Opening(2, 0), ZERO];
    assert [Opening(2, 0), ZERO][0 := ZERO] == [ZERO, ZERO];
  }

  lemma {:induction false} Sending(held: nat, receiving: Opening)
    requires held > 0
    ensures Apply(Between(held, receiving, ZERO), SendOne(held).op) ==
            Some(Between(held - 1, Add(receiving, Opening(1, BLINDING)), ZERO))
  {
    var l := Between(held, receiving, ZERO);
    assert l.spendable[0 := Opening(held - 1, 0)] == [Opening(held - 1, 0), ZERO];
    assert l.receiving[1 := Add(receiving, Opening(1, BLINDING))] == [ZERO, Add(receiving, Opening(1, BLINDING))];
  }

  lemma {:induction false} Merging(receiving: Opening)
    ensures Apply(Between(0, receiving, ZERO), MERGE_RECIPIENT.op) ==
            Some(Between(0, ZERO, Add(ZERO, receiving)))
  {
    var l := Between(0, receiving, ZERO);
    assert l.spendable[1 := Add(ZERO, receiving)] == [Opening(0, 0), Add(ZERO, receiving)];
    assert l.receiving[1 := ZERO] == [ZERO, ZERO];
  }

  /** The sender registers, shields its two coins, and merges; the recipient registers. */
  function Preparation(): seq<Try> {
    [] + [REGISTER_SENDER] + [REGISTER_RECIPIENT] + [SHIELD] + [MERGE_SENDER]
  }

  lemma {:induction false} Prepared()
    ensures AfterTries(START, Preparation()) == Between(2, ZERO, ZERO)
    ensures AllReported(START, Preparation(), Wallets())
    ensures BlindingsAfter(START, Preparation(), RECIPIENT) == Blindings(0, 0)
  {
    var one, both := START.(registered := [true, false]), START.(registered := [true, true]);
    var deposited := Ledger([0, 0], [true, true], [Opening(2, 0), ZERO], [ZERO, ZERO], 2);
    Registering();
    Shielding();
    OneMore([], START, REGISTER_SENDER, one, Blindings(0, 0));
    OneMore([] + [REGISTER_SENDER], one, REGISTER_RECIPIENT, both, Blindings(0, 0));
    OneMore([] + [REGISTER_SENDER] + [REGISTER_RECIPIENT], both, SHIELD, deposited, Blindings(0, 0));
    OneMore([] + [REGISTER_SENDER] + [REGISTER_RECIPIENT] + [SHIELD], deposited, MERGE_SENDER,
            Between(2, ZERO, ZERO), Blindings(0, 0));
  }

  /** Both coins are sent to the recipient, one by one. */
  function Sends(): seq<Try> {
    Preparation() + [SendOne(2)] + [SendOne(1)]
  }

  lemma {:induction false} Sent() returns (receiving: Opening)
    ensures AfterTries(START, Sends()) == Between(0, receiving, ZERO) && receiving.v == 2
    ensures AllReported(START, Sends(), Wallets())
    ensures BlindingsAfter(START, Sends(), RECIPIENT) == Blindings(2 * BLINDING, 0)
  {
    var first := Add(ZERO, Opening(1, BLINDING));
    receiving := Add(first, Opening(1, BLINDING));
    Prepared();
    Sending(2, ZERO);
    OneMore(Preparation(), Between(2, ZERO, ZERO), SendOne(2), Between(1, first, ZERO), Blindings(0, 0));
    Sending(1, first);
    OneMore(Preparation() + [SendOne(2)], Between(1, first, ZERO), SendOne(1), Between(0, receiving, ZERO),
            Blindings(BLINDING, 0));
  }

  lemma {:induction false} Merged() returns (spendable: Opening)
    ensures AfterTries(START, Sends() + [MERGE_RECIPIENT]) == Between(0, ZERO, spendable) && spendable.v == 2
    ensures AllReported(START, Sends() + [MERGE_RECIPIENT], Wallets())
    ensures BlindingsAfter(START, Sends() + [MERGE_RECIPIENT], RECIPIENT) == Blindings(0, 2 * BLINDING)
  {
    var receiving := Sent();
    spendable := Add(ZERO, receiving);
    Merging(receiving);
    OneMore(Sends(), Between(0, receiving, ZERO), MERGE_RECIPIENT, Between(0, ZERO, spendable),
            Blindings(2 * BLINDING, 0));
  }

  lemma TwiceWraps()
    ensures !Unwrapped(2 * BLINDING) && Unwrapped(0)
  {
    UnwrappedIsSmall(2 * BLINDING);
    UnwrappedIsSmall(0);
  }

  lemma {:induction false} StartIsSmall()
    ensures START.WellFormed() && START.Has(RECIPIENT) && Fits(Wallets(), START)
    ensures Total(START) < FR_MODULUS && OpeningsOf(START, RECIPIENT) == NOTHING
  {
    assert Values([ZERO, ZERO]) == [0, 0];
    assert [0, 0][..1] == [0] && [2, 0][..1] == [2] && [0][..0] == [] && [2][..0] == [];
    assert Sum([0, 0]) == 0 && Sum([2, 0]) == 2;
  }

  /** The recipient, who replays every event, has the value sent, and its receiving balance does not verify. */
  lemma {:induction false} ReceivingDoesNotVerify(rows: seq<I.Row>)
    requires Payloads(rows) == Events(START, Sends())
    ensures AllReported(START, Sends(), Wallets()) && Fits(Wallets(), START) && AllComplete(rows)
    ensures var after, mine := Run(START, Ops(Sends())), Replay(NOTHING, rows, "b", Wallet());
            mine.receiving.v == 2 && Check(after, mine, RECIPIENT) == Verified(true, false)
  {
    var receiving := Sent();
    TwiceWraps();
    StartIsSmall();
    RebuiltOpeningsVerify(START, Sends(), rows, Wallets(), RECIPIENT);
    AfterTriesIsRun(START, Sends());
  }

  /** Nor does the spendable one once it has merged, and neither transfer nor withdrawal takes its opening. */
  lemma {:induction false} SpendableDoesNotVerify(rows: seq<I.Row>, to: Account, amount: nat, nextR: nat, txR: nat)
    requires Payloads(rows) == Events(START, Sends() + [MERGE_RECIPIENT])
    ensures AllReported(START, Sends() + [MERGE_RECIPIENT], Wallets()) && Fits(Wallets(), START) && AllComplete(rows)
    ensures var after := Run(START, Ops(Sends() + [MERGE_RECIPIENT]));
            var mine := Replay(NOTHING, rows, "b", Wallet());
            && mine.spendable.v == 2 && Check(after, mine, RECIPIENT) == Verified(false, true)
            && Apply(after, Transfer(RECIPIENT, to, mine.spendable, amount, nextR, txR)).None?
            && Apply(after, Withdraw(RECIPIENT, to, mine.spendable, amount, nextR)).None?
  {
    var spendable := Merged();
    TwiceWraps();
    StartIsSmall();
    RebuiltOpeningsVerify(START, Sends() + [MERGE_RECIPIENT], rows, Wallets(), RECIPIENT);
    AfterTriesIsRun(START, Sends() + [MERGE_RECIPIENT]);
  }
}
