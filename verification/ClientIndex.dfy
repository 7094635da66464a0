/**
 The client's reading of the rows that the event index serves. The index writes numbers in
 hexadecimal without padding, the client reads whole bytes, and a row it cannot read it drops.

 Whether a pair of coordinates is accepted as a point is the parameter `validPoint`.
 */
module ClientIndex {
  import opened Common
  import opened Numerals
  import opened EventIndex
  import opened Balances
  import E = Engine
  import F = Fields
  import L = ConfidentialLedger
  import P = PublicInputs
  import R = PartialReplay

  type PointCheck = (nat, nat) -> bool

  /** A row as served: amounts in decimal text, the numbers of a transfer in hexadecimal text. */
  datatype Fields =
    | RegisterRow(account: string, auditorId: nat)
    | DepositRow(from: string, to: string, amount: string)
    | MergeRow(account: string)
    | WithdrawRow(from: string, to: string, amount: string)
    | TransferRow(from: string, to: string, numbers: seq<string>)
    | OtherRow

  datatype Served = Served(ledger: nat, txHash: string, id: string, fields: Fields)

  datatype Error = Missing | OddLength | BadPoint

  function FieldHex(n: nat): string {
    "0x" + Hex(n)
  }

  function Numbers(c: Cipher): seq<nat> {
    [c.rX, c.rY, c.sigma, c.vTilde, c.bTilde, c.vAudR, c.rAudR, c.vAudS, c.bAudS]
  }

  function HexNumbers(ns: seq<nat>): (hs: seq<string>)
    ensures |hs| == |ns| && forall i | 0 <= i < |ns| :: hs[i] == FieldHex(ns[i])
  {
    seq(|ns|, i requires 0 <= i < |ns| => FieldHex(ns[i]))
  }

  /** What the index serves for a row. */
  function Serve(row: Row): Served {
    Served(row.ledger, row.txHash, row.id,
           match row.payload
           case Register(account, auditorId) => RegisterRow(account, auditorId)
           case Deposit(from, to, amount) => DepositRow(from, to, Decimal(amount))
           case Merge(account) => MergeRow(account)
           case Withdraw(from, to, amount, _) => WithdrawRow(from, to, Decimal(amount))
           case Transfer(from, to, cipher) => TransferRow(from, to, HexNumbers(Numbers(cipher)))
           case Other => OtherRow)
  }

  // ---------------------------------------------------------------- the client's parser

  function StripHexPrefix(s: string): string {
    if |s| >= 2 && s[0] == '0' && (s[1] == 'x' || s[1] == 'X') then s[2..] else s
  }

  function ParseHexField(value: string): Result<nat, Error>
    requires IsHexText(StripHexPrefix(value))
  {
    var hex := StripHexPrefix(value);
    if value == "" then Err(Missing)
    else if |hex| % 2 != 0 then Err(OddLength)
    else Ok(Value(256, P.BytesOfHex(hex)))
  }

  predicate AllHex(texts: seq<string>) {
    forall i | 0 <= i < |texts| :: IsHexText(StripHexPrefix(texts[i]))
  }

  /** The fields one after the other, until one throws. */
  function ParseNumbers(texts: seq<string>): (r: Result<seq<nat>, Error>)
    requires AllHex(texts)
    ensures r.Ok? ==> |r.value| == |texts|
  {
    if texts == [] then Ok([])
    else
      var first :- ParseHexField(texts[0]);
      var rest :- ParseNumbers(texts[1..]);
      Ok([first] + rest)
  }

  /** The numbers of a transfer, of which the first two are a point. */
  function ParseCipher(texts: seq<string>, validPoint: PointCheck): Result<Cipher, Error>
    requires |texts| == 9 && AllHex(texts)
  {
    var ns :- ParseNumbers(texts);
    if (ns[0] == 0 && ns[1] == 0) || validPoint(ns[0], ns[1]) then Ok(CipherOf(ns)) else Err(BadPoint)
  }

  function CipherOf(ns: seq<nat>): (c: Cipher)
    requires |ns| == 9
    ensures Numbers(c) == ns
  {
    Cipher(ns[0], ns[1], ns[2], ns[3], ns[4], ns[5], ns[6], ns[7], ns[8])
  }

  /** Rows as the index writes them. */
  predicate Readable(s: Served) {
    match s.fields
    case DepositRow(_, _, amount) => IsDecimal(amount)
    case WithdrawRow(_, _, amount) => IsDecimal(amount)
    case TransferRow(_, _, ns) => |ns| == 9 && AllHex(ns)
    case _ => true
  }

  /** `parseIssuerCtEvent`: whatever it throws becomes null, and withdrawals always are. */
  function ParseIssuerRow(s: Served, validPoint: PointCheck): Option<Row>
    requires Readable(s)
  {
    match s.fields
    case RegisterRow(account, auditorId) =>
      if account == "" then None else Some(Row(s.ledger, s.txHash, s.id, Register(account, auditorId)))
    case DepositRow(from, to, amount) =>
      if from == "" || to == "" then None
      else Some(Row(s.ledger, s.txHash, s.id, Deposit(from, to, ParseDecimal(amount))))
    case MergeRow(account) => if account == "" then None else Some(Row(s.ledger, s.txHash, s.id, Merge(account)))
    case TransferRow(from, to, ns) =>
      if from == "" || to == "" then None
      else
        (match ParseCipher(ns, validPoint)
         case Err(_) => None
         case Ok(cipher) => Some(Row(s.ledger, s.txHash, s.id, Transfer(from, to, cipher))))
    case WithdrawRow(_, _, _) => None
    case OtherRow => None
  }

  // ---------------------------------------------------------------- which rows the client keeps

  /** An even number of hexadecimal digits, with none to spare. */
  predicate EvenDigits(n: nat) {
    |Hex(n)| % 2 == 0
  }

  predicate AllEven(ns: seq<nat>) {
    forall i | 0 <= i < |ns| :: EvenDigits(ns[i])
  }

  predicate CipherKept(c: Cipher, validPoint: PointCheck) {
    validPoint(c.rX, c.rY) && AllEven(Numbers(c))
  }

  /**
   The rows a client reads back: none for withdrawals, and for a transfer only if every one of its nine
   numbers happens to have an even number of hexadecimal digits.
   */
  predicate Kept(row: Row, validPoint: PointCheck) {
    match row.payload
    case Register(account, _) => account != ""
    case Deposit(from, to, _) => from != "" && to != ""
    case Merge(account) => account != ""
    case Withdraw(_, _, _, _) => false
    case Transfer(from, to, cipher) => from != "" && to != "" && CipherKept(cipher, validPoint)
    case Other => false
  }

  lemma FieldIsReadIff(n: nat)
    ensures StripHexPrefix(FieldHex(n)) == Hex(n)
    ensures ParseHexField(FieldHex(n)) == if EvenDigits(n) then Ok(n) else Err(OddLength)
  {
    var h := Hex(n);
    assert ("0x" + h)[2..] == h;
    if EvenDigits(n) {
      P.PairedValue(DigitsIn(h));
      ParseHexOfHex(n);
    }
  }

  /** A prefix in either case is passed over, and no text at all is an error. */
  lemma PrefixIsOptional(h: string)
    requires IsHexText(h) && h != ""
    ensures StripHexPrefix(h) == StripHexPrefix("0x" + h) == StripHexPrefix("0X" + h) == h
    ensures ParseHexField(h) == ParseHexField("0x" + h) == ParseHexField("0X" + h)
    ensures ParseHexField("") == Err(Missing)
  {
    if |h| >= 2 { assert IsHex(h[1]); }
    assert ("0x" + h)[2..] == h && ("0X" + h)[2..] == h;
  }

  /** A number written as 32 bytes. */
  function PaddedHex(n: nat): string {
    "0x" + PadStart(Hex(n), 64)
  }

  function PaddedNumbers(ns: seq<nat>): (hs: seq<string>)
    ensures |hs| == |ns| && forall i | 0 <= i < |ns| :: hs[i] == PaddedHex(ns[i])
  {
    seq(|ns|, i requires 0 <= i < |ns| => PaddedHex(ns[i]))
  }

  lemma {:induction false} PaddedFieldIsRead(n: nat)
    requires n < TWO_TO_256
    ensures IsHexText(StripHexPrefix(PaddedHex(n))) && ParseHexField(PaddedHex(n)) == Ok(n)
  {
    var h := PadStart(Hex(n), 64);
    HexWidth(n, 64);
    assert ("0x" + h)[2..] == h;
    P.PairedValue(DigitsIn(h));
    PadKeepsHex(Hex(n), 64);
    ParseHexOfHex(n);
  }

  lemma {:induction false} PaddedNumbersAreHex(ns: seq<nat>)
    requires forall i | 0 <= i < |ns| :: ns[i] < TWO_TO_256
    ensures AllHex(PaddedNumbers(ns))
  {
    forall i | 0 <= i < |ns| ensures IsHexText(StripHexPrefix(PaddedNumbers(ns)[i])) {
      PaddedFieldIsRead(ns[i]);
    }
  }

  lemma {:induction false} PaddedNumbersAreRead(ns: seq<nat>)
    requires forall i | 0 <= i < |ns| :: ns[i] < TWO_TO_256
    ensures AllHex(PaddedNumbers(ns)) && ParseNumbers(PaddedNumbers(ns)) == Ok(ns)
  {
    PaddedNumbersAreHex(ns);
    if ns != [] {
      var more := ns[1..];
      assert ns == [ns[0]] + more && PaddedNumbers(ns)[1..] == PaddedNumbers(more);
      PaddedFieldIsRead(ns[0]);
      PaddedNumbersAreRead(more);
      ParseBehindFirst(PaddedNumbers(ns), Ok(ns[0]), Ok(more));
    }
  }

  /** It is the missing zeros alone: padded, the numbers of any transfer whose point is accepted would be read. */
  lemma {:induction false} PaddedCipherIsReadIff(c: Cipher, validPoint: PointCheck)
    requires forall i | 0 <= i < 9 :: Numbers(c)[i] < TWO_TO_256
    ensures |PaddedNumbers(Numbers(c))| == 9 && AllHex(PaddedNumbers(Numbers(c)))
    ensures ParseCipher(PaddedNumbers(Numbers(c)), validPoint) ==
            if c.rX == c.rY == 0 || validPoint(c.rX, c.rY) then Ok(c) else Err(BadPoint)
  {
    PaddedNumbersAreRead(Numbers(c));
    assert CipherOf(Numbers(c)) == c;
    ParseOfNumbers(PaddedNumbers(Numbers(c)), Numbers(c), validPoint);
  }

  lemma {:induction false} ParseOfNumbers(texts: seq<string>, ns: seq<nat>, validPoint: PointCheck)
    requires |texts| == 9 && AllHex(texts) && ParseNumbers(texts) == Ok(ns)
    ensures ParseCipher(texts, validPoint) ==
            if ns[0] == ns[1] == 0 || validPoint(ns[0], ns[1]) then Ok(CipherOf(ns)) else Err(BadPoint)
  {}

  lemma ZeroIsNotRead()
    ensures !EvenDigits(0)
  {
    assert DigitsOf(16, 0) == [0];
  }

  lemma HexNumbersAreHex(ns: seq<nat>)
    ensures AllHex(HexNumbers(ns))
  {
    forall i | 0 <= i < |ns| ensures IsHexText(StripHexPrefix(HexNumbers(ns)[i])) {
      FieldIsReadIff(ns[i]);
    }
  }

  lemma ServedIsReadable(row: Row)
    ensures Readable(Serve(row))
  {
    if row.payload.Transfer? {
      HexNumbersAreHex(Numbers(row.payload.cipher));
    }
  }

  lemma HexNumbersTail(ns: seq<nat>)
    requires ns != []
    ensures HexNumbers(ns)[1..] == HexNumbers(ns[1..])
  {}

  lemma AllEvenBehindFirst(n: nat, ns: seq<nat>)
    ensures AllEven([n] + ns) <==> EvenDigits(n) && AllEven(ns)
  {
    if AllEven([n] + ns) {
      assert EvenDigits(([n] + ns)[0]);
      forall i | 0 <= i < |ns| ensures EvenDigits(ns[i]) {
        assert ([n] + ns)[i + 1] == ns[i];
      }
    }
  }

  lemma ParseBehindFirst(texts: seq<string>, first: Result<nat, Error>, rest: Result<seq<nat>, Error>)
    requires texts != [] && AllHex(texts) && AllHex(texts[1..])
    requires ParseHexField(texts[0]) == first && ParseNumbers(texts[1..]) == rest
    ensures first.Err? ==> ParseNumbers(texts) == Err(first.error)
    ensures first.Ok? && rest.Err? ==> ParseNumbers(texts) == Err(rest.error)
    ensures first.Ok? && rest.Ok? ==> ParseNumbers(texts) == Ok([first.value] + rest.value)
  {}

  lemma {:induction false} NumbersAreReadIff(ns: seq<nat>)
    ensures AllHex(HexNumbers(ns))
    ensures ParseNumbers(HexNumbers(ns)) == if AllEven(ns) then Ok(ns) else Err(OddLength)
  {
    HexNumbersAreHex(ns);
    if ns != [] {
      var n, more := ns[0], ns[1..];
      assert ns == [n] + more;
      HexNumbersTail(ns);
      FieldIsReadIff(n);
      NumbersAreReadIff(more);
      AllEvenBehindFirst(n, more);
      ParseBehindFirst(
        HexNumbers(ns),
        if EvenDigits(n) then Ok(n) else Err(OddLength),
        if AllEven(more) then Ok(more) else Err(OddLength));
    }
  }

  lemma {:induction false} CipherIsReadIff(c: Cipher, validPoint: PointCheck)
    ensures |HexNumbers(Numbers(c))| == 9 && AllHex(HexNumbers(Numbers(c)))
    ensures var r := ParseCipher(HexNumbers(Numbers(c)), validPoint);
            if CipherKept(c, validPoint) then r == Ok(c) else r.Err?
  {
    var ns := Numbers(c);
    NumbersAreReadIff(ns);
    ZeroIsNotRead();
    assert CipherOf(ns) == c;
    assert AllEven(ns) ==> EvenDigits(ns[0]);
  }

  /** The client reads a served row back unchanged exactly when it keeps it, and drops it otherwise. */
  lemma {:induction false} ClientReadsIff(row: Row, validPoint: PointCheck)
    ensures Readable(Serve(row))
    ensures ParseIssuerRow(Serve(row), validPoint) == if Kept(row, validPoint) then Some(row) else None
  {
    ServedIsReadable(row);
    if row.payload.Deposit? {
      ParseDecimalOfDecimal(row.payload.amount);
    } else if row.payload.Transfer? {
      CipherIsReadIff(row.payload.cipher, validPoint);
    }
  }

  // ---------------------------------------------------------------- replaying what was kept

  /** The rows a client has after fetching all of these. */
  function ClientRows(rows: seq<Row>, validPoint: PointCheck): seq<Row> {
    if rows == [] then []
    else
      var last := rows[|rows| - 1];
      ServedIsReadable(last);
      var read := ParseIssuerRow(Serve(last), validPoint);
      ClientRows(rows[..|rows| - 1], validPoint) + if read.Some? then [read.value] else []
  }

  lemma {:induction false} ClientRowsSnoc(rows: seq<Row>, row: Row, validPoint: PointCheck)
    ensures ClientRows(rows + [row], validPoint) ==
            if Kept(row, validPoint) then ClientRows(rows, validPoint) + [row] else ClientRows(rows, validPoint)
  {
    assert (rows + [row])[..|rows|] == rows;
    ClientReadsIff(row, validPoint);
    assert ClientRows(rows, validPoint) + [] == ClientRows(rows, validPoint);
  }

  /** All events of the source, in order, as a reader of the RPC has them. */
  function FullRows(log: seq<RpcEvent>): seq<Row> {
    if log == [] then []
    else
      var front := FullRows(log[..|log| - 1]);
      if Known(log[|log| - 1]) then front + [EventOf(log[|log| - 1])] else front
  }

  function OlderThan(seam: nat): Row -> bool {
    (row: Row) => row.ledger < seam
  }

  function Since(seam: nat): Row -> bool {
    (row: Row) => row.ledger >= seam
  }

  /** The events that reach the engine: the issuer's rows before the seam, and the RPC's from there on. */
  function HybridRows(stored: seq<Row>, log: seq<RpcEvent>, seam: nat, validPoint: PointCheck): seq<Row> {
    ClientRows(E.Filter(stored, OlderThan(seam)), validPoint) + E.Filter(FullRows(log), Since(seam))
  }

  /** What reaches the engine of all events. */
  function Reaches(seam: nat, validPoint: PointCheck): Row -> bool {
    (row: Row) => row.ledger >= seam || Kept(row, validPoint)
  }

  predicate Ascending(log: seq<RpcEvent>) {
    forall i, j | 0 <= i < j < |log| :: LedgerOf(log[i]) <= LedgerOf(log[j])
  }

  lemma {:induction false} FilterSnoc(rows: seq<Row>, row: Row, keeps: Row -> bool)
    ensures E.Filter(rows + [row], keeps) == E.Filter(rows, keeps) + if keeps(row) then [row] else []
  {
    assert (rows + [row])[..|rows|] == rows;
  }

  lemma {:induction false} NothingBehindTheSeam(log: seq<RpcEvent>, seam: nat)
    requires forall i | 0 <= i < |log| :: LedgerOf(log[i]) < seam
    ensures E.Filter(FullRows(log), Since(seam)) == []
  {
    if log != [] {
      NothingBehindTheSeam(log[..|log| - 1], seam);
    }
  }

  /** A row that is kept has lost nothing in the index. */
  lemma {:induction false} KeptIsComplete(e: RpcEvent, validPoint: PointCheck)
    ensures Kept(RowOf(e), validPoint) <==> Kept(EventOf(e), validPoint)
    ensures Kept(RowOf(e), validPoint) ==> RowOf(e) == EventOf(e)
  {}

  /** With the source's rows in the index, what reaches the engine is all events but those the client drops. */
  lemma {:induction false} HybridIsFilter(log: seq<RpcEvent>, seam: nat, validPoint: PointCheck)
    requires Ascending(log)
    ensures HybridRows(SourceRows(log), log, seam, validPoint) == E.Filter(FullRows(log), Reaches(seam, validPoint))
  {
    if log != [] {
      var front, last := log[..|log| - 1], log[|log| - 1];
      HybridIsFilter(front, seam, validPoint);
      if Known(last) {
        HybridSnoc(front, last, seam, validPoint);
      }
    }
  }

  lemma {:induction false} HybridSnoc(front: seq<RpcEvent>, last: RpcEvent, seam: nat, validPoint: PointCheck)
    requires forall i | 0 <= i < |front| :: LedgerOf(front[i]) <= LedgerOf(last)
    requires HybridRows(SourceRows(front), front, seam, validPoint) ==
             E.Filter(FullRows(front), Reaches(seam, validPoint))
    ensures ClientRows(E.Filter(SourceRows(front) + [RowOf(last)], OlderThan(seam)), validPoint)
            + E.Filter(FullRows(front) + [EventOf(last)], Since(seam)) ==
            E.Filter(FullRows(front) + [EventOf(last)], Reaches(seam, validPoint))
  {
    var row, event := RowOf(last), EventOf(last);
    var early, recent := E.Filter(SourceRows(front), OlderThan(seam)), E.Filter(FullRows(front), Since(seam));
    FilterSnoc(SourceRows(front), row, OlderThan(seam));
    FilterSnoc(FullRows(front), event, Since(seam));
    FilterSnoc(FullRows(front), event, Reaches(seam, validPoint));
    KeptIsComplete(last, validPoint);
    if LedgerOf(last) < seam {
      NothingBehindTheSeam(front, seam);
      OldRowJoins(early, recent, row, event, validPoint);
    } else {
      NewRowJoins(early, recent, event, validPoint);
    }
  }

  lemma {:induction false} OldRowJoins(
    early: seq<Row>, recent: seq<Row>, row: Row, event: Row, validPoint: PointCheck)
    requires recent == [] && (Kept(row, validPoint) ==> row == event)
    ensures ClientRows(early + [row], validPoint) + (recent + []) ==
            ClientRows(early, validPoint) + recent + if Kept(row, validPoint) then [event] else []
  {
    ClientRowsSnoc(early, row, validPoint);
  }

  lemma {:induction false} NewRowJoins(early: seq<Row>, recent: seq<Row>, event: Row, validPoint: PointCheck)
    ensures ClientRows(early + [], validPoint) + (recent + [event]) ==
            ClientRows(early, validPoint) + recent + [event]
  {
    assert early + [] == early;
  }

  lemma ValidIsAscending(log: seq<RpcEvent>)
    requires ValidLog(log)
    ensures Ascending(log)
  {}

  // ---------------------------------------------------------------- a cold start

  /** The source reports this run of the token, in full. */
  ghost predicate Carries(log: seq<RpcEvent>, l: L.Ledger, tries: seq<E.Try>, w: E.World)
    requires l.WellFormed()
  {
    && ValidLog(log) && E.Fits(w, l) && E.AllReported(l, tries, w)
    && E.Payloads(FullRows(log)) == E.Events(l, tries)
  }

  /**
   A wallet that starts with nothing in its cache, and takes all events before the seam from an index that
   has the source's rows and the others from the RPC, ends with an opening the chain holds exactly where
   what the dropped rows leave of the gap makes up for it. Where no sum of blinding factors has wrapped, the
   gap must be closed; and where the gap is closed, no sum may have wrapped.
   */
  lemma {:induction false} ColdStartAgreesIff(
    l: L.Ledger, tries: seq<E.Try>, w: E.World, me: Account, log: seq<RpcEvent>, seam: nat, validPoint: PointCheck)
    requires l.WellFormed() && l.Has(me) && L.Total(l) < F.FR_MODULUS && E.OpeningsOf(l, me) == E.NOTHING
    requires Carries(log, l, tries, w)
    ensures E.AllComplete(FullRows(log)) && E.AllComplete(HybridRows(SourceRows(log), log, seam, validPoint))
    ensures var chain := L.Run(l, E.Ops(tries));
            var rows := HybridRows(SourceRows(log), log, seam, validPoint);
            var mine := E.Replay(E.NOTHING, rows, w.names[me], w.keys[me]);
            var gap := R.GapAfter(
              R.NO_GAP, E.NOTHING, FullRows(log), Reaches(seam, validPoint), w.names[me], w.keys[me]);
            var sums := E.BlindingsAfter(l, tries, me);
            && (mine.receiving == chain.receiving[me] <==> R.IsMadeUp(sums.receiving, gap.receiving))
            && (mine.spendable == chain.spendable[me] <==> R.IsMadeUp(sums.spendable, gap.spendable))
            && (F.Unwrapped(sums.receiving) ==> (mine.receiving == chain.receiving[me] <==> R.Closed(gap.receiving)))
            && (F.Unwrapped(sums.spendable) ==> (mine.spendable == chain.spendable[me] <==> R.Closed(gap.spendable)))
            && (R.Closed(gap.receiving) ==> (mine.receiving == chain.receiving[me] <==> F.Unwrapped(sums.receiving)))
            && (R.Closed(gap.spendable) ==> (mine.spendable == chain.spendable[me] <==> F.Unwrapped(sums.spendable)))
  {
    ValidIsAscending(log);
    HybridIsFilter(log, seam, validPoint);
    E.ReplayFollowsChain(l, tries, FullRows(log), w, me);
    R.PartialReplayIsChainIff(l, tries, FullRows(log), Reaches(seam, validPoint), w, me);
    var gap := R.GapAfter(R.NO_GAP, E.NOTHING, FullRows(log), Reaches(seam, validPoint), w.names[me], w.keys[me]);
    R.MadeUpIff(E.BlindingsAfter(l, tries, me).receiving, gap.receiving);
    R.MadeUpIff(E.BlindingsAfter(l, tries, me).spendable, gap.spendable);
  }

  lemma {:induction false} MergesReach(rows: seq<Row>, seam: nat, validPoint: PointCheck, me: string)
    requires me != ""
    ensures forall i | 0 <= i < |rows| && R.Merges(rows[i].payload, me) :: Reaches(seam, validPoint)(rows[i])
  {}

  /**
   How much the chain holds beyond what the wallet then has: in receiving the dropped credits since its
   last merge; in spendable the dropped credits merged since its last spend that was read, less its spends
   dropped since then.
   */
  lemma {:induction false} ColdStartMisses(
    l: L.Ledger, tries: seq<E.Try>, w: E.World, me: Account, log: seq<RpcEvent>, seam: nat, validPoint: PointCheck)
    requires l.WellFormed() && l.Has(me) && L.Total(l) < F.FR_MODULUS && E.OpeningsOf(l, me) == E.NOTHING
    requires Carries(log, l, tries, w) && w.names[me] != ""
    ensures E.AllComplete(HybridRows(SourceRows(log), log, seam, validPoint))
    ensures var chain := L.Run(l, E.Ops(tries));
            var rows := HybridRows(SourceRows(log), log, seam, validPoint);
            var mine := E.Replay(E.NOTHING, rows, w.names[me], w.keys[me]);
            var read := R.Reads(FullRows(log), Reaches(seam, validPoint));
            && chain.receiving[me].v == mine.receiving.v + R.LostCredits(R.Reported(l, tries), read, me)
            && chain.spendable[me].v == mine.spendable.v + R.LostFunds(R.Reported(l, tries), read, me)
  {
    ValidIsAscending(log);
    HybridIsFilter(log, seam, validPoint);
    E.RebuiltOpeningsVerify(l, tries, FullRows(log), w, me);
    MergesReach(FullRows(log), seam, validPoint, w.names[me]);
    R.PartialReplayMisses(l, tries, FullRows(log), Reaches(seam, validPoint), w, me);
  }

  /**
   The whole way, from an empty index on: however the issuer's syncs went, once its index began early enough
   and has caught up, a wallet starting cold from it and the RPC lacks exactly what the client drops.
   */
  lemma {:induction false} FreshIndexColdStart(
    l: L.Ledger, tries: seq<E.Try>, w: E.World, me: Account,
    first: seq<RpcEvent>, head: nat, steps: seq<SyncStep>, start: nat, firstLedger: nat,
    log: seq<RpcEvent>, seam: nat, validPoint: PointCheck)
    requires ValidSyncs(first, head, steps) && StartOf(EMPTY_STORE, steps) == Some((start, firstLedger))
    requires log == LastLog(first, steps) && (log != [] ==> firstLedger <= LedgerOf(log[0]))
    requires var store := RunSyncs(EMPTY_STORE, steps); store.cursor.Some? && store.cursor.value.upto == |log|
    requires l.WellFormed() && l.Has(me) && L.Total(l) < F.FR_MODULUS && E.OpeningsOf(l, me) == E.NOTHING
    requires Carries(log, l, tries, w) && w.names[me] != ""
    ensures var rows := HybridRows(RunSyncs(EMPTY_STORE, steps).events, log, seam, validPoint);
            var read := R.Reads(FullRows(log), Reaches(seam, validPoint));
            var chain := L.Run(l, E.Ops(tries));
            && E.AllComplete(rows)
            && var mine := E.Replay(E.NOTHING, rows, w.names[me], w.keys[me]);
            && chain.receiving[me].v == mine.receiving.v + R.LostCredits(R.Reported(l, tries), read, me)
            && chain.spendable[me].v == mine.spendable.v + R.LostFunds(R.Reported(l, tries), read, me)
  {
    FreshIndexIsTheSource(first, head, steps, start, firstLedger);
    ColdStartMisses(l, tries, w, me, log, seam, validPoint);
  }

  /**
   When the client keeps every row before the seam that names the account, it has the values the chain
   holds, and each opening exactly if the sum of blinding factors behind it has not wrapped.
   */
  lemma {:induction false} NothingMissed(
    l: L.Ledger, tries: seq<E.Try>, w: E.World, me: Account, log: seq<RpcEvent>, seam: nat, validPoint: PointCheck)
    requires l.WellFormed() && l.Has(me) && L.Total(l) < F.FR_MODULUS && E.OpeningsOf(l, me) == E.NOTHING
    requires Carries(log, l, tries, w)
    requires var rows := FullRows(log);
             forall i | 0 <= i < |rows| && rows[i].ledger < seam && Mentions(rows[i], w.names[me]) ::
               Kept(rows[i], validPoint)
    ensures E.AllComplete(HybridRows(SourceRows(log), log, seam, validPoint))
    ensures var chain := L.Run(l, E.Ops(tries));
            var rows := HybridRows(SourceRows(log), log, seam, validPoint);
            var mine := E.Replay(E.NOTHING, rows, w.names[me], w.keys[me]);
            var sums := E.BlindingsAfter(l, tries, me);
            && mine.receiving.v == chain.receiving[me].v && mine.spendable.v == chain.spendable[me].v
            && (mine.receiving == chain.receiving[me] <==> F.Unwrapped(sums.receiving))
            && (mine.spendable == chain.spendable[me] <==> F.Unwrapped(sums.spendable))
  {
    var all, keeps := FullRows(log), Reaches(seam, validPoint);
    ValidIsAscending(log);
    HybridIsFilter(log, seam, validPoint);
    E.RebuiltOpeningsVerify(l, tries, all, w, me);
    R.NothingLost(E.NOTHING, all, keeps, w.names[me], w.keys[me]);
    R.PartialReplayAgreesIff(E.NOTHING, all, keeps, w.names[me], w.keys[me]);
    R.NoneIsClosed();
  }
}
