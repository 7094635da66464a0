/**
 Replays that miss events. The engine's replay of some of an account's events is off from the replay of
 all of them by a gap that is followed event by event: a merge that is read carries what receiving lacks
 over to spendable, and an own spend that is read repairs spendable.

 The events missed are those an index drops, or those passed over because they were counted ahead.
 */
module PartialReplay {
  import opened Common
  import opened Balances
  import opened ConfidentialLedger
  import opened Engine
  import opened Fields
  import I = EventIndex

  /** By how much an opening is off: in value, and in blinding factor up to the field. */
  datatype Delta = Delta(v: int, r: int)

  const NONE := Delta(0, 0)

  function Plus(d: Delta, e: Delta): Delta {
    Delta(d.v + e.v, d.r + e.r)
  }

  function Change(before: Opening, after: Opening): Delta {
    Delta(after.v - before.v, after.r - before.r)
  }

  predicate Closed(d: Delta) {
    d.v == 0 && InField(d.r) == 0
  }

  /** What a blinding factor is off by beyond `d`, in the field. */
  function Beyond(all: int, mine: int, d: int): nat {
    InField(all - mine - d)
  }

  predicate IsOff(all: Opening, mine: Opening, d: Delta) {
    all.v == mine.v + d.v && Beyond(all.r, mine.r, d.r) == 0
  }

  /** What a partial replay lacks. */
  datatype Gap = Gap(receiving: Delta, spendable: Delta)

  const NO_GAP := Gap(NONE, NONE)

  predicate IsOffBy(all: Local, mine: Local, g: Gap) {
    IsOff(all.receiving, mine.receiving, g.receiving) && IsOff(all.spendable, mine.spendable, g.spendable)
  }

  predicate Spends(p: I.Payload, me: string) {
    (p.Withdraw? && p.owner == me) || (p.Transfer? && p.sender == me)
  }

  predicate Merges(p: I.Payload, me: string) {
    p.Merge? && p.merger == me
  }

  /** A merge that is read carries what receiving lacks over to spendable; a spend that is read repairs spendable. */
  function GapAfterRead(g: Gap, p: I.Payload, me: string): Gap {
    if Merges(p, me) then Gap(NONE, Plus(g.spendable, g.receiving))
    else if Spends(p, me) then g.(spendable := NONE)
    else g
  }

  /** An event that is not read adds what it did to the openings. */
  function GapAfterLost(g: Gap, before: Local, after: Local): Gap {
    Gap(Plus(g.receiving, Change(before.receiving, after.receiving)),
        Plus(g.spendable, Change(before.spendable, after.spendable)))
  }

  /** What is lacking after these rows, of which only some are read, when `g` was lacking before. */
  function GapAfter(g: Gap, o: Local, rows: seq<I.Row>, keeps: I.Row -> bool, me: string, k: Keys): Gap
    requires AllComplete(rows)
  {
    if rows == [] then g
    else
      var front, last := rows[..|rows| - 1], rows[|rows| - 1];
      var before := Replay(o, front, me, k);
      var lacking := GapAfter(g, o, front, keeps, me, k);
      if keeps(last) then GapAfterRead(lacking, last.payload, me)
      else GapAfterLost(lacking, before, Step(before, last.payload, me, k))
  }

  lemma SumsAgree(a: int, b: int, d: int, c: int, e: int, f: int, m: nat)
    requires m > 0 && (a - b - d) % m == 0 && (c - e - f) % m == 0
    ensures ((a + c) % m - (b + e) % m - (d + f)) % m == 0
  {
    var x, y := (a - b - d) / m, (c - e - f) / m;
    var p, q := (a + c) / m, (b + e) / m;
    assert (a + c) % m - (b + e) % m - (d + f) == 0 + (x + y - p + q) * m;
    Residue(0, x + y - p + q, m);
  }

  lemma OffAfterAdd(a: Opening, b: Opening, d: Delta, c: Opening, e: Opening, f: Delta)
    requires IsOff(a, b, d) && IsOff(c, e, f)
    ensures IsOff(FrAdd(a, c), FrAdd(b, e), Plus(d, f))
  {
    SumsAgree(a.r, b.r, d.r, c.r, e.r, f.r, FR_MODULUS);
  }

  lemma SameIsOff(o: Opening)
    ensures IsOff(o, o, NONE)
  {}

  lemma MergeKeepsGap(all: Local, mine: Local, g: Gap)
    requires IsOffBy(all, mine, g)
    ensures IsOffBy(Local(FrAdd(all.spendable, all.receiving), ZERO),
                    Local(FrAdd(mine.spendable, mine.receiving), ZERO),
                    Gap(NONE, Plus(g.spendable, g.receiving)))
  {
    SameIsOff(ZERO);
    OffAfterAdd(all.spendable, mine.spendable, g.spendable, all.receiving, mine.receiving, g.receiving);
  }

  lemma CreditKeepsGap(all: Local, mine: Local, g: Gap, credit: Opening)
    requires IsOffBy(all, mine, g)
    ensures IsOffBy(all.(receiving := FrAdd(all.receiving, credit)),
                    mine.(receiving := FrAdd(mine.receiving, credit)), g)
  {
    SameIsOff(credit);
    OffAfterAdd(all.receiving, mine.receiving, g.receiving, credit, credit, NONE);
    assert Plus(g.receiving, NONE) == g.receiving;
  }

  lemma SpendKeepsGap(all: Local, mine: Local, g: Gap, rest: Opening)
    requires IsOffBy(all, mine, g)
    ensures IsOffBy(all.(spendable := rest), mine.(spendable := rest), g.(spendable := NONE))
  {
    SameIsOff(rest);
  }

  lemma {:induction false} StepOfMerge(o: Local, p: I.Payload, me: string, k: Keys)
    requires Merges(p, me)
    ensures Step(o, p, me, k) == Local(FrAdd(o.spendable, o.receiving), ZERO)
  {}

  lemma {:induction false} GapOfMerge(g: Gap, p: I.Payload, me: string)
    requires Merges(p, me)
    ensures GapAfterRead(g, p, me) == Gap(NONE, Plus(g.spendable, g.receiving))
  {}

  lemma {:induction false} ReadMergeKeepsGap(all: Local, mine: Local, g: Gap, p: I.Payload, me: string, k: Keys)
    requires Merges(p, me) && IsOffBy(all, mine, g)
    ensures IsOffBy(Step(all, p, me, k), Step(mine, p, me, k), GapAfterRead(g, p, me))
  {
    StepOfMerge(all, p, me, k);
    StepOfMerge(mine, p, me, k);
    GapOfMerge(g, p, me);
    MergeKeepsGap(all, mine, g);
  }

  lemma {:induction false} ReadWithdrawKeepsGap(all: Local, mine: Local, g: Gap, p: I.Payload, me: string, k: Keys)
    requires p.Withdraw? && Complete(p) && p.owner == me && IsOffBy(all, mine, g)
    ensures IsOffBy(Step(all, p, me, k), Step(mine, p, me, k), GapAfterRead(g, p, me))
  {
    SpendKeepsGap(all, mine, g, OpenSpendable(k, p.seal.value.bTilde, p.seal.value.sigma));
  }

  lemma {:induction false} ReadTransferKeepsGap(all: Local, mine: Local, g: Gap, p: I.Payload, me: string, k: Keys)
    requires p.Transfer? && IsOffBy(all, mine, g)
    ensures IsOffBy(Step(all, p, me, k), Step(mine, p, me, k), GapAfterRead(g, p, me))
  {
    var rest, credit := OpenSpendable(k, p.cipher.bTilde, p.cipher.sigma), DecryptIncoming(k, p.cipher);
    if p.sender == me {
      SpendKeepsGap(all, mine, g, rest);
      CreditKeepsGap(all.(spendable := rest), mine.(spendable := rest), g.(spendable := NONE), credit);
    } else {
      CreditKeepsGap(all, mine, g, credit);
    }
  }

  lemma {:induction false} ReadOtherKeepsGap(all: Local, mine: Local, g: Gap, p: I.Payload, me: string, k: Keys)
    requires Complete(p) && !p.Transfer? && !Merges(p, me) && !Spends(p, me) && IsOffBy(all, mine, g)
    ensures IsOffBy(Step(all, p, me, k), Step(mine, p, me, k), GapAfterRead(g, p, me))
  {}

  lemma {:induction false} ReadKeepsGap(all: Local, mine: Local, g: Gap, p: I.Payload, me: string, k: Keys)
    requires Complete(p) && IsOffBy(all, mine, g)
    ensures IsOffBy(Step(all, p, me, k), Step(mine, p, me, k), GapAfterRead(g, p, me))
  {
    if Merges(p, me) {
      ReadMergeKeepsGap(all, mine, g, p, me, k);
    } else if p.Transfer? {
      ReadTransferKeepsGap(all, mine, g, p, me, k);
    } else if Spends(p, me) {
      ReadWithdrawKeepsGap(all, mine, g, p, me, k);
    } else {
      ReadOtherKeepsGap(all, mine, g, p, me, k);
    }
  }

  lemma LostAdds(all: Opening, mine: Opening, d: Delta, after: Opening)
    requires IsOff(all, mine, d)
    ensures IsOff(after, mine, Plus(d, Change(all, after)))
  {}

  /** A replay of some of the rows is off by exactly the gap. */
  lemma {:induction false} ReplayIsOffByGap(
    all: Local, mine: Local, g: Gap, rows: seq<I.Row>, keeps: I.Row -> bool, me: string, k: Keys)
    requires AllComplete(rows) && IsOffBy(all, mine, g)
    ensures IsOffBy(Replay(all, rows, me, k), Replay(mine, Filter(rows, keeps), me, k),
                    GapAfter(g, all, rows, keeps, me, k))
  {
    if rows != [] {
      var front, last := rows[..|rows| - 1], rows[|rows| - 1];
      ReplayIsOffByGap(all, mine, g, front, keeps, me, k);
      var kept := Filter(front, keeps);
      var a, b := Replay(all, front, me, k), Replay(mine, kept, me, k);
      var lacking := GapAfter(g, all, front, keeps, me, k);
      if keeps(last) {
        assert (kept + [last])[..|kept|] == kept;
        ReadKeepsGap(a, b, lacking, last.payload, me, k);
      } else {
        var after := Step(a, last.payload, me, k);
        LostAdds(a.receiving, b.receiving, lacking.receiving, after.receiving);
        LostAdds(a.spendable, b.spendable, lacking.spendable, after.spendable);
      }
    }
  }

  lemma {:induction false} ReplayStaysReduced(o: Local, rows: seq<I.Row>, me: string, k: Keys)
    requires AllComplete(rows) && Reduced(o) && YieldsBlinding(k)
    ensures Reduced(Replay(o, rows, me, k))
  {
    if rows != [] {
      ReplayStaysReduced(o, rows[..|rows| - 1], me, k);
    }
  }

  lemma SmallMultiple(d: int, m: nat)
    requires m > 0 && -(m as int) < d < m && d % m == 0
    ensures d == 0
  {
    assert d == d / m * m;
  }

  lemma SameIffClosed(all: Opening, mine: Opening, d: Delta)
    requires IsOff(all, mine, d) && all.r < FR_MODULUS && mine.r < FR_MODULUS
    ensures all == mine <==> Closed(d)
  {
    var q := (all.r - mine.r - d.r) / FR_MODULUS;
    Residue(d.r, q, FR_MODULUS);
    assert all.r - mine.r == d.r + q * FR_MODULUS;
    if Closed(d) {
      SmallMultiple(all.r - mine.r, FR_MODULUS);
    }
  }

  lemma BothSameIffClosed(all: Local, mine: Local, g: Gap)
    requires IsOffBy(all, mine, g) && Reduced(all) && Reduced(mine)
    ensures mine.receiving == all.receiving <==> Closed(g.receiving)
    ensures mine.spendable == all.spendable <==> Closed(g.spendable)
  {
    SameIffClosed(all.receiving, mine.receiving, g.receiving);
    SameIffClosed(all.spendable, mine.spendable, g.spendable);
  }

  /** Reading only some events gives the opening that reading all of them gives exactly when its gap is closed. */
  lemma {:induction false} PartialReplayAgreesIff(o: Local, rows: seq<I.Row>, keeps: I.Row -> bool, me: string, k: Keys)
    requires AllComplete(rows) && Reduced(o) && YieldsBlinding(k)
    ensures var all, mine := Replay(o, rows, me, k), Replay(o, Filter(rows, keeps), me, k);
            var gap := GapAfter(NO_GAP, o, rows, keeps, me, k);
            && (mine.receiving == all.receiving <==> Closed(gap.receiving))
            && (mine.spendable == all.spendable <==> Closed(gap.spendable))
  {
    var all, mine := Replay(o, rows, me, k), Replay(o, Filter(rows, keeps), me, k);
    var gap := GapAfter(NO_GAP, o, rows, keeps, me, k);
    ReplayIsOffByGap(o, o, NO_GAP, rows, keeps, me, k);
    ReplayStaysReduced(o, rows, me, k);
    ReplayStaysReduced(o, Filter(rows, keeps), me, k);
    BothSameIffClosed(all, mine, gap);
  }

  /** An opening that lacks `d`, where the chain's has this sum of blinding factors, is the chain's all the same. */
  predicate IsMadeUp(sum: nat, d: Delta) {
    d.v == 0 && InField(sum - d.r) == InGroup(sum)
  }

  lemma SameInFieldIff(n: nat, d: int)
    ensures InField(n - d) == InField(n) <==> InField(d) == 0
  {
    SameAfterLess(n, d, FR_MODULUS);
  }

  /** When the gap is closed the sum must be unwrapped; when the sum is unwrapped the gap must be closed. */
  lemma MadeUpIff(sum: nat, d: Delta)
    ensures Closed(d) ==> (IsMadeUp(sum, d) <==> Unwrapped(sum))
    ensures Unwrapped(sum) ==> (IsMadeUp(sum, d) <==> Closed(d))
  {
    UnwrappedIff(sum);
    SameInFieldIff(sum, d.r);
  }

  lemma PartialIsChainIff(all: Opening, mine: Opening, chain: Opening, d: Delta, sum: nat)
    requires IsOff(all, mine, d) && IsTracked(all, chain, sum) && mine.r < FR_MODULUS
    ensures mine == chain <==> IsMadeUp(sum, d)
  {
    LessInField(sum, mine.r, d.r);
  }

  /** Reading some of a run's events gives an opening the chain holds exactly when the gap makes up for it. */
  lemma {:induction false} PartialReplayIsChainIff(
    l: Ledger, tries: seq<Try>, rows: seq<I.Row>, keeps: I.Row -> bool, w: World, me: Account)
    requires l.WellFormed() && l.Has(me) && Fits(w, l) && Total(l) < FR_MODULUS && Reduced(OpeningsOf(l, me))
    requires AllReported(l, tries, w) && Payloads(rows) == Events(l, tries) && AllComplete(rows)
    ensures var chain := OpeningsOf(Run(l, Ops(tries)), me);
            var mine := Replay(OpeningsOf(l, me), Filter(rows, keeps), w.names[me], w.keys[me]);
            var gap := GapAfter(NO_GAP, OpeningsOf(l, me), rows, keeps, w.names[me], w.keys[me]);
            var sums := BlindingsAfter(l, tries, me);
            && (mine.receiving == chain.receiving <==> IsMadeUp(sums.receiving, gap.receiving))
            && (mine.spendable == chain.spendable <==> IsMadeUp(sums.spendable, gap.spendable))
  {
    var o, name, k := OpeningsOf(l, me), w.names[me], w.keys[me];
    var all, mine := Replay(o, rows, name, k), Replay(o, Filter(rows, keeps), name, k);
    var chain, sums := OpeningsOf(AfterTries(l, tries), me), BlindingsAfter(l, tries, me);
    var gap := GapAfter(NO_GAP, o, rows, keeps, name, k);
    ReplayFollowsChain(l, tries, rows, w, me);
    AfterTriesIsRun(l, tries);
    SameIsOff(o.receiving);
    SameIsOff(o.spendable);
    ReplayIsOffByGap(o, o, NO_GAP, rows, keeps, name, k);
    ReplayStaysReduced(o, Filter(rows, keeps), name, k);
    PartialIsChainIff(all.receiving, mine.receiving, chain.receiving, gap.receiving, sums.receiving);
    PartialIsChainIff(all.spendable, mine.spendable, chain.spendable, gap.spendable, sums.spendable);
  }

  predicate Credits(p: I.Payload, me: string) {
    (p.Deposit? && p.beneficiary == me) || (p.Transfer? && p.recipient == me)
  }

  /** A lost event leaves alone what it is not about. */
  lemma {:induction false} LostElsewhere(g: Gap, o: Local, p: I.Payload, me: string, k: Keys)
    requires Complete(p) && !Merges(p, me)
    ensures !Spends(p, me) ==> GapAfterLost(g, o, Step(o, p, me, k)).spendable == g.spendable
    ensures !Credits(p, me) ==> GapAfterLost(g, o, Step(o, p, me, k)).receiving == g.receiving
  {}

  /** Whatever was lost before it, an own spend that is read repairs spendable until the next merge or lost spend. */
  lemma {:induction false} SpendRepairs(
    g: Gap, o: Local, rows: seq<I.Row>, i: nat, keeps: I.Row -> bool, me: string, k: Keys)
    requires AllComplete(rows) && i < |rows| && keeps(rows[i]) && Spends(rows[i].payload, me)
    requires forall j | i < j < |rows| ::
               !Merges(rows[j].payload, me) && (Spends(rows[j].payload, me) ==> keeps(rows[j]))
    ensures GapAfter(g, o, rows, keeps, me, k).spendable == NONE
  {
    GapSnoc(g, o, rows, keeps, me, k);
    if i < |rows| - 1 {
      var front, last := rows[..|rows| - 1], rows[|rows| - 1];
      SpendRepairs(g, o, front, i, keeps, me, k);
      if !keeps(last) {
        LostElsewhere(GapAfter(g, o, front, keeps, me, k), Replay(o, front, me, k), last.payload, me, k);
      }
    }
  }

  /** A merge that is read empties receiving, which then agrees until a credit is lost. */
  lemma {:induction false} MergeClearsReceiving(
    g: Gap, o: Local, rows: seq<I.Row>, i: nat, keeps: I.Row -> bool, me: string, k: Keys)
    requires AllComplete(rows) && i < |rows| && keeps(rows[i]) && Merges(rows[i].payload, me)
    requires forall j | i < j < |rows| ::
               Merges(rows[j].payload, me) || Credits(rows[j].payload, me) ==> keeps(rows[j])
    ensures GapAfter(g, o, rows, keeps, me, k).receiving == NONE
  {
    GapSnoc(g, o, rows, keeps, me, k);
    if i < |rows| - 1 {
      var front, last := rows[..|rows| - 1], rows[|rows| - 1];
      MergeClearsReceiving(g, o, front, i, keeps, me, k);
      if !keeps(last) {
        LostElsewhere(GapAfter(g, o, front, keeps, me, k), Replay(o, front, me, k), last.payload, me, k);
      }
    }
  }

  lemma {:induction false} UnmentionedIsIdle(o: Local, row: I.Row, me: string, k: Keys)
    requires Complete(row.payload) && !I.Mentions(row, me)
    ensures Step(o, row.payload, me, k) == o
  {}

  lemma {:induction false} StepAfterListed(
    o: Local, front: seq<I.Row>, last: I.Row, rows: seq<I.Row>, listed: seq<I.Row>, me: string, k: Keys)
    requires AllComplete(rows) && AllComplete(front) && Complete(last.payload) && rows == front + [last]
    requires AllComplete(listed) && listed == I.ListEvents(front, me)
    requires Replay(o, listed, me, k) == Replay(o, front, me, k)
    ensures AllComplete(I.ListEvents(rows, me)) && Replay(o, I.ListEvents(rows, me), me, k) == Replay(o, rows, me, k)
  {
    assert rows[..|rows| - 1] == front && (listed + [last])[..|listed|] == listed;
    if !I.Mentions(last, me) {
      UnmentionedIsIdle(Replay(o, front, me, k), last, me, k);
    }
  }

  /** To the engine, an account's listed events come to what the whole log comes to. */
  lemma {:induction false} ListedEventsSuffice(o: Local, rows: seq<I.Row>, me: string, k: Keys)
    requires AllComplete(rows)
    ensures AllComplete(I.ListEvents(rows, me))
    ensures Replay(o, I.ListEvents(rows, me), me, k) == Replay(o, rows, me, k)
  {
    if rows != [] {
      var front, last := rows[..|rows| - 1], rows[|rows| - 1];
      ListedEventsSuffice(o, front, me, k);
      StepAfterListed(o, front, last, rows, I.ListEvents(front, me), me, k);
    }
  }

  /** So does whether the account is registered. */
  lemma {:induction false} ListedEventsRegister(rows: seq<I.Row>, me: string)
    ensures AnyRegisters(I.ListEvents(rows, me), me) <==> AnyRegisters(rows, me)
  {
    if rows != [] {
      var front, last := rows[..|rows| - 1], rows[|rows| - 1];
      assert rows == front + [last];
      ListedEventsRegister(front, me);
      RegistersSnoc(front, last, me);
      RegistersSnoc(I.ListEvents(front, me), last, me);
    }
  }

  lemma IdleAddsNothing(before: Local, after: Local)
    requires after == before
    ensures GapAfterLost(NO_GAP, before, after) == NO_GAP
  {}

  lemma ReadAddsNothing(p: I.Payload, me: string)
    ensures GapAfterRead(NO_GAP, p, me) == NO_GAP
  {}

  lemma {:induction false} GapSnoc(g: Gap, o: Local, rows: seq<I.Row>, keeps: I.Row -> bool, me: string, k: Keys)
    requires AllComplete(rows) && rows != []
    ensures var front, last := rows[..|rows| - 1], rows[|rows| - 1];
            var before, lacking := Replay(o, front, me, k), GapAfter(g, o, front, keeps, me, k);
            GapAfter(g, o, rows, keeps, me, k) ==
            if keeps(last) then GapAfterRead(lacking, last.payload, me)
            else GapAfterLost(lacking, before, Step(before, last.payload, me, k))
  {}

  /** When all rows that name the account are read, nothing is lacking. */
  lemma {:induction false} NothingLost(o: Local, rows: seq<I.Row>, keeps: I.Row -> bool, me: string, k: Keys)
    requires AllComplete(rows)
    requires forall i | 0 <= i < |rows| && I.Mentions(rows[i], me) :: keeps(rows[i])
    ensures GapAfter(NO_GAP, o, rows, keeps, me, k) == NO_GAP
  {
    if rows != [] {
      var front, last := rows[..|rows| - 1], rows[|rows| - 1];
      forall i | 0 <= i < |front| && I.Mentions(front[i], me) ensures keeps(front[i]) {
        assert front[i] == rows[i];
      }
      NothingLost(o, front, keeps, me, k);
      GapSnoc(NO_GAP, o, rows, keeps, me, k);
      if keeps(last) {
        ReadAddsNothing(last.payload, me);
      } else {
        var before := Replay(o, front, me, k);
        UnmentionedIsIdle(before, last, me, k);
        IdleAddsNothing(before, Step(before, last.payload, me, k));
      }
    }
  }

  // ---------------------------------------------------------------- deposits counted ahead of their event

  predicate AnyMerges(rows: seq<I.Row>, me: string) {
    exists i :: 0 <= i < |rows| && Merges(rows[i].payload, me)
  }

  /** The gap of openings that were credited ahead: they hold too much. */
  function Ahead(amount: nat): Gap {
    Gap(Delta(-(amount as int), 0), NONE)
  }

  function NotMarked(txHash: string): I.Row -> bool {
    (row: I.Row) => row.txHash != txHash
  }

  /** Receiving holds too much until the first merge, which carries the excess over. */
  lemma {:induction false} AheadUntilMerged(
    o: Local, rows: seq<I.Row>, amount: nat, keeps: I.Row -> bool, me: string, k: Keys)
    requires AllComplete(rows) && forall i | 0 <= i < |rows| :: keeps(rows[i])
    ensures var gap := GapAfter(Ahead(amount), o, rows, keeps, me, k);
            && gap.receiving == (if AnyMerges(rows, me) then NONE else Ahead(amount).receiving)
            && (!AnyMerges(rows, me) ==> gap.spendable == NONE)
  {
    if rows != [] {
      var front, last := rows[..|rows| - 1], rows[|rows| - 1];
      AheadUntilMerged(o, front, amount, keeps, me, k);
      GapSnoc(Ahead(amount), o, rows, keeps, me, k);
      AnyMergesSnoc(front, last, me);
      assert rows == front + [last];
    }
  }

  lemma {:induction false} AnyMergesSnoc(rows: seq<I.Row>, last: I.Row, me: string)
    ensures AnyMerges(rows + [last], me) <==> AnyMerges(rows, me) || Merges(last.payload, me)
  {
    var all := rows + [last];
    assert all[|rows|] == last;
    if AnyMerges(rows, me) {
      var i :| 0 <= i < |rows| && Merges(rows[i].payload, me);
      assert Merges(all[i].payload, me);
    }
  }

  /** A deposit that is passed over adds its amount to the gap. */
  lemma {:induction false} PassedOver(
    g: Gap, o: Local, earlier: seq<I.Row>, deposit: I.Row, rows: seq<I.Row>, keeps: I.Row -> bool, me: string, k: Keys)
    requires AllComplete(earlier) && AllComplete(rows) && rows == earlier + [deposit] && !keeps(deposit)
    requires deposit.payload.Deposit? && deposit.payload.beneficiary == me
    ensures var lacking := GapAfter(g, o, earlier, keeps, me, k);
            GapAfter(g, o, rows, keeps, me, k) ==
            Gap(Plus(lacking.receiving, Delta(deposit.payload.amount, 0)), lacking.spendable)
  {
    assert rows[..|rows| - 1] == earlier;
  }

  lemma AheadCancels(amount: nat)
    ensures Plus(Ahead(amount).receiving, Delta(amount, 0)) == NONE
    ensures Plus(NONE, Delta(amount, 0)) == Delta(amount, 0)
  {}

  lemma {:induction false} GapAtDeposit(
    o: Local, earlier: seq<I.Row>, deposit: I.Row, rows: seq<I.Row>, amount: nat, me: string, k: Keys)
    requires AllComplete(earlier) && AllComplete(rows) && rows == earlier + [deposit]
    requires deposit.payload.Deposit? && deposit.payload.beneficiary == me && deposit.payload.amount == amount
    requires forall i | 0 <= i < |earlier| :: earlier[i].txHash != deposit.txHash
    ensures var gap := GapAfter(Ahead(amount), o, rows, NotMarked(deposit.txHash), me, k);
            && gap.receiving == (if AnyMerges(earlier, me) then Delta(amount, 0) else NONE)
            && (!AnyMerges(earlier, me) ==> gap.spendable == NONE)
  {
    AheadUntilMerged(o, earlier, amount, NotMarked(deposit.txHash), me, k);
    PassedOver(Ahead(amount), o, earlier, deposit, rows, NotMarked(deposit.txHash), me, k);
    AheadCancels(amount);
  }

  lemma NoneIsClosed()
    ensures Closed(NONE)
  {}

  lemma ClosedOrNot(amount: nat)
    requires amount > 0
    ensures Closed(NONE) && !Closed(Delta(amount, 0))
  {}

  lemma AheadIsOff(o: Local, amount: nat)
    ensures IsOffBy(o, Credited(o, amount), Ahead(amount)) && (Reduced(o) ==> Reduced(Credited(o, amount)))
  {}

  /**
   A deposit that was credited before its event came is counted once: when the event comes, and is passed
   over, the openings are again those of replaying everything, exactly if no merge came before it.
   */
  lemma {:induction false} CreditedOnceIff(
    o: Local, earlier: seq<I.Row>, deposit: I.Row, rows: seq<I.Row>, amount: nat, me: string, k: Keys)
    requires AllComplete(rows) && Reduced(o) && YieldsBlinding(k) && rows == earlier + [deposit]
    requires deposit.payload.Deposit? && deposit.payload.beneficiary == me && deposit.payload.amount == amount > 0
    requires forall i | 0 <= i < |earlier| :: earlier[i].txHash != deposit.txHash
    ensures !AnyMerges(earlier, me) <==>
              Replay(Credited(o, amount), Unmarked(rows, {deposit.txHash}), me, k) == Replay(o, rows, me, k)
  {
    var keeps := NotMarked(deposit.txHash);
    var kept, gap := Filter(rows, keeps), GapAfter(Ahead(amount), o, rows, keeps, me, k);
    UnmarkedIsFilter(rows, deposit.txHash);
    EarlierIsComplete(earlier, deposit, rows);
    GapAtDeposit(o, earlier, deposit, rows, amount, me, k);
    ClosedOrNot(amount);
    AheadIsOff(o, amount);
    ReplayIsOffByGap(o, Credited(o, amount), Ahead(amount), rows, keeps, me, k);
    ReplayStaysReduced(o, rows, me, k);
    ReplayStaysReduced(Credited(o, amount), kept, me, k);
    BothSameIffClosed(Replay(o, rows, me, k), Replay(Credited(o, amount), kept, me, k), gap);
  }

  lemma {:induction false} EarlierIsComplete(earlier: seq<I.Row>, last: I.Row, rows: seq<I.Row>)
    requires AllComplete(rows) && rows == earlier + [last]
    ensures AllComplete(earlier)
  {
    assert forall i | 0 <= i < |earlier| :: earlier[i] == rows[i];
  }

  lemma {:induction false} UnmarkedIsFilter(rows: seq<I.Row>, txHash: string)
    ensures Unmarked(rows, {txHash}) == Filter(rows, NotMarked(txHash))
  {
    if rows != [] {
      UnmarkedIsFilter(rows[..|rows| - 1], txHash);
    }
  }

  // ---------------------------------------------------------------- how much is lacking

  /** The operations of a run that the token reports. */
  function Reported(l: Ledger, tries: seq<Try>): (done: seq<Op>)
    requires l.WellFormed()
    ensures |done| == |Events(l, tries)|
  {
    if tries == [] then []
    else
      var front, last := tries[..|tries| - 1], tries[|tries| - 1];
      Reported(l, front)
      + if Apply(AfterTries(l, front), last.op).Some? && !last.op.PublicPayment? then [last.op] else []
  }

  function CreditedBy(op: Op, me: Account): nat {
    if (op.Deposit? || op.Transfer?) && op.to == me then op.amount else 0
  }

  function DebitedBy(op: Op, me: Account): nat {
    if (op.Withdraw? || op.Transfer?) && op.from == me then op.amount else 0
  }

  /** What one more operation makes of the lost credits and funds. */
  function CreditsAfter(lost: nat, op: Op, read: bool, me: Account): nat {
    if op == Merge(me) then 0 else lost + if read then 0 else CreditedBy(op, me)
  }

  function FundsAfter(funds: int, lost: nat, op: Op, read: bool, me: Account): int {
    if op == Merge(me) then funds + lost
    else if (op.Withdraw? || op.Transfer?) && op.from == me && read then 0
    else funds - DebitedBy(op, me)
  }

  /** The lost credits since the last merge. */
  function LostCredits(done: seq<Op>, read: seq<bool>, me: Account): nat
    requires |done| == |read|
  {
    if done == [] then 0
    else
      var n := |done| - 1;
      CreditsAfter(LostCredits(done[..n], read[..n], me), done[n], read[n], me)
  }

  /** The lost credits that were merged since the last spend that was read, less the spends lost since then. */
  function LostFunds(done: seq<Op>, read: seq<bool>, me: Account): int
    requires |done| == |read|
  {
    if done == [] then 0
    else
      var n := |done| - 1;
      var funds, lost := LostFunds(done[..n], read[..n], me), LostCredits(done[..n], read[..n], me);
      FundsAfter(funds, lost, done[n], read[n], me)
  }

  /** The event of an operation is the account's own exactly when the operation is. */
  lemma {:induction false} ReportsOfAccount(op: Op, p: I.Payload, w: World, l: Ledger, me: Account)
    requires Fits(w, l) && me < |w.names| && InRange(op, |w.names|) && Reports(op, p, w)
    ensures Merges(p, w.names[me]) <==> op == Merge(me)
    ensures Spends(p, w.names[me]) <==> (op.Withdraw? || op.Transfer?) && op.from == me
  {}

  /** A lost event that is no merge leaves receiving short of its credit and spendable over by what it spent. */
  lemma {:induction false} LostEventMovesAmounts(
    g: Gap, l: Ledger, op: Op, p: I.Payload, w: World, me: Account, o: Local, b: Blindings)
    requires l.WellFormed() && l.Has(me) && Fits(w, l) && Total(l) < FR_MODULUS && Tracks(o, OpeningsOf(l, me), b)
    requires Apply(l, op).Some? && InRange(op, |w.names|) && Reports(op, p, w) && op != Merge(me)
    ensures Complete(p)
    ensures var after := GapAfterLost(g, o, Step(o, p, w.names[me], w.keys[me]));
            && after.receiving.v == g.receiving.v + CreditedBy(op, me)
            && after.spendable.v == g.spendable.v - DebitedBy(op, me)
  {
    StepIsTracked(l, op, p, w, me, o, b);
    if op.Transfer? {
      TransferDeliversExactly(l, op, me);
    }
  }

  lemma LostSnoc(done: seq<Op>, read: seq<bool>, op: Op, last: bool, me: Account)
    requires |done| == |read|
    ensures LostCredits(done + [op], read + [last], me) == CreditsAfter(LostCredits(done, read, me), op, last, me)
    ensures LostFunds(done + [op], read + [last], me) ==
            FundsAfter(LostFunds(done, read, me), LostCredits(done, read, me), op, last, me)
  {
    assert (done + [op])[..|done|] == done && (read + [last])[..|read|] == read;
  }

  lemma {:induction false} EventInAmounts(
    g: Gap, l: Ledger, op: Op, p: I.Payload, read: bool, w: World, me: Account, o: Local, b: Blindings)
    requires l.WellFormed() && l.Has(me) && Fits(w, l) && Total(l) < FR_MODULUS && Tracks(o, OpeningsOf(l, me), b)
    requires Apply(l, op).Some? && InRange(op, |w.names|) && Reports(op, p, w) && g.receiving.v >= 0
    requires Merges(p, w.names[me]) ==> read
    ensures Complete(p)
    ensures var after := if read then GapAfterRead(g, p, w.names[me])
                         else GapAfterLost(g, o, Step(o, p, w.names[me], w.keys[me]));
            && after.receiving.v == CreditsAfter(g.receiving.v, op, read, me)
            && after.spendable.v == FundsAfter(g.spendable.v, g.receiving.v, op, read, me)
  {
    ReportsOfAccount(op, p, w, l, me);
    if !read {
      LostEventMovesAmounts(g, l, op, p, w, me, o, b);
    }
  }

  function Reads(rows: seq<I.Row>, keeps: I.Row -> bool): (read: seq<bool>)
    ensures |read| == |rows| && forall i | 0 <= i < |rows| :: read[i] == keeps(rows[i])
  {
    seq(|rows|, i requires 0 <= i < |rows| => keeps(rows[i]))
  }

  predicate IsInAmounts(gap: Gap, done: seq<Op>, read: seq<bool>, me: Account)
    requires |done| == |read|
  {
    gap.receiving.v == LostCredits(done, read, me) && gap.spendable.v == LostFunds(done, read, me)
  }

  lemma {:induction false} EventKeepsAmounts(
    g: Gap, done: seq<Op>, read: seq<bool>, l: Ledger, op: Op, p: I.Payload, last: bool, w: World, me: Account,
    o: Local, b: Blindings, gap: Gap)
    requires |done| == |read| && IsInAmounts(g, done, read, me)
    requires l.WellFormed() && l.Has(me) && Fits(w, l) && Total(l) < FR_MODULUS && Tracks(o, OpeningsOf(l, me), b)
    requires Apply(l, op).Some? && InRange(op, |w.names|) && Reports(op, p, w) && Complete(p)
    requires Merges(p, w.names[me]) ==> last
    requires gap == if last then GapAfterRead(g, p, w.names[me])
                    else GapAfterLost(g, o, Step(o, p, w.names[me], w.keys[me]))
    ensures IsInAmounts(gap, done + [op], read + [last], me)
  {
    EventInAmounts(g, l, op, p, last, w, me, o, b);
    LostSnoc(done, read, op, last, me);
  }

  /** What holds of the parts of a run whose last operation is reported. */
  lemma {:induction false} LastReported(l: Ledger, tries: seq<Try>, rows: seq<I.Row>, w: World, keeps: I.Row -> bool)
    returns (front: seq<Try>, op: Op, earlier: seq<I.Row>, row: I.Row)
    requires l.WellFormed() && Fits(w, l) && AllReported(l, tries, w) && Payloads(rows) == Events(l, tries)
    requires tries != []
    requires Apply(AfterTries(l, tries[..|tries| - 1]), tries[|tries| - 1].op).Some?
    requires !tries[|tries| - 1].op.PublicPayment?
    ensures front == tries[..|tries| - 1] && op == tries[|tries| - 1].op && rows == earlier + [row]
    ensures AllReported(l, front, w) && Payloads(earlier) == Events(l, front)
    ensures Reported(l, tries) == Reported(l, front) + [op]
    ensures Reads(rows, keeps) == Reads(earlier, keeps) + [keeps(row)]
    ensures Apply(AfterTries(l, front), op).Some? && InRange(op, |w.names|) && Reports(op, row.payload, w)
  {
    front, op, earlier, row := tries[..|tries| - 1], tries[|tries| - 1].op, rows[..|rows| - 1], rows[|rows| - 1];
    assert Payloads(rows)[..|rows| - 1] == Payloads(earlier) && row.payload == tries[|tries| - 1].event;
  }

  /**
   In amounts, when the account's own merges are read: receiving is short of the credits lost since the
   last merge, and spendable of the lost credits merged since the last own spend that was read, less the
   own spends lost since then.
   */
  lemma {:induction false} GapInAmounts(
    l: Ledger, tries: seq<Try>, rows: seq<I.Row>, keeps: I.Row -> bool, w: World, me: Account)
    requires l.WellFormed() && l.Has(me) && Fits(w, l) && Total(l) < FR_MODULUS && Reduced(OpeningsOf(l, me))
    requires AllReported(l, tries, w) && Payloads(rows) == Events(l, tries) && AllComplete(rows)
    requires forall i | 0 <= i < |rows| && Merges(rows[i].payload, w.names[me]) :: keeps(rows[i])
    ensures IsInAmounts(GapAfter(NO_GAP, OpeningsOf(l, me), rows, keeps, w.names[me], w.keys[me]),
                        Reported(l, tries), Reads(rows, keeps), me)
  {
    if tries == [] {
      return;
    }
    var before, tried := AfterTries(l, tries[..|tries| - 1]), tries[|tries| - 1].op;
    if Apply(before, tried).Some? && !tried.PublicPayment? {
      var front, op, earlier, row := LastReported(l, tries, rows, w, keeps);
      assert rows[..|rows| - 1] == earlier && rows[|rows| - 1] == row;
      GapInAmounts(l, front, earlier, keeps, w, me);
      ReplayFollowsChain(l, front, earlier, w, me);
      GapSnoc(NO_GAP, OpeningsOf(l, me), rows, keeps, w.names[me], w.keys[me]);
      EventKeepsAmounts(
        GapAfter(NO_GAP, OpeningsOf(l, me), earlier, keeps, w.names[me], w.keys[me]),
        Reported(l, front), Reads(earlier, keeps), AfterTries(l, front), op, row.payload, keeps(row), w, me,
        Replay(OpeningsOf(l, me), earlier, w.names[me], w.keys[me]), BlindingsAfter(l, front, me),
        GapAfter(NO_GAP, OpeningsOf(l, me), rows, keeps, w.names[me], w.keys[me]));
    } else {
      assert Reported(l, tries) == Reported(l, tries[..|tries| - 1]);
      GapInAmounts(l, tries[..|tries| - 1], rows, keeps, w, me);
    }
  }

  /** What the gap means for the values. */
  lemma ValuesAreOff(all: Local, mine: Local, g: Gap, credits: nat, funds: int)
    requires IsOffBy(all, mine, g) && g.receiving.v == credits && g.spendable.v == funds
    ensures all.receiving.v == mine.receiving.v + credits && all.spendable.v == mine.spendable.v + funds
  {}

  /** By how much the chain exceeds what a replay of some of a run's events gives. */
  lemma {:induction false} PartialReplayMisses(
    l: Ledger, tries: seq<Try>, rows: seq<I.Row>, keeps: I.Row -> bool, w: World, me: Account)
    requires l.WellFormed() && l.Has(me) && Fits(w, l) && Total(l) < FR_MODULUS && Reduced(OpeningsOf(l, me))
    requires AllReported(l, tries, w) && Payloads(rows) == Events(l, tries) && AllComplete(rows)
    requires forall i | 0 <= i < |rows| && Merges(rows[i].payload, w.names[me]) :: keeps(rows[i])
    ensures var chain := OpeningsOf(Run(l, Ops(tries)), me);
            var mine := Replay(OpeningsOf(l, me), Filter(rows, keeps), w.names[me], w.keys[me]);
            && chain.receiving.v == mine.receiving.v + LostCredits(Reported(l, tries), Reads(rows, keeps), me)
            && chain.spendable.v == mine.spendable.v + LostFunds(Reported(l, tries), Reads(rows, keeps), me)
  {
    var o, name, k := OpeningsOf(l, me), w.names[me], w.keys[me];
    ReplayFollowsChain(l, tries, rows, w, me);
    AfterTriesIsRun(l, tries);
    SameIsOff(o.receiving);
    SameIsOff(o.spendable);
    ReplayIsOffByGap(o, o, NO_GAP, rows, keeps, name, k);
    GapInAmounts(l, tries, rows, keeps, w, me);
    ValuesAreOff(
      Replay(o, rows, name, k), Replay(o, Filter(rows, keeps), name, k),
      GapAfter(NO_GAP, o, rows, keeps, name, k),
      LostCredits(Reported(l, tries), Reads(rows, keeps), me), LostFunds(Reported(l, tries), Reads(rows, keeps), me));
  }
}
