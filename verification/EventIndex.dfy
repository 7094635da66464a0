/**
 The issuer's index of confidential-token events: a saved log that repeated syncs extend from
 a paginated, append-only event source.

 The source's log is a sequence in chain order. A paging cursor is kept with the number of
 log entries it stands behind (`upto`) and its ledger; two cursors are the same string exactly
 when they are equal here.
 */
module EventIndex {
  import opened Common
  import opened Numerals

  // ---------------------------------------------------------------- events

  /** The numbers of a confidential transfer: a point and seven field elements. */
  datatype Cipher = Cipher(
    rX: nat,
    rY: nat,
    sigma: nat,
    vTilde: nat,
    bTilde: nat,
    vAudR: nat,
    rAudR: nat,
    vAudS: nat,
    bAudS: nat)

  /** What a withdrawal says of its sender's new spendable balance. */
  datatype Seal = Seal(sigma: nat, bTilde: nat)

  datatype Payload =
    | Register(account: string, auditorId: nat)
    | Deposit(depositor: string, beneficiary: string, amount: nat)
    | Merge(merger: string)
    | Withdraw(owner: string, payee: string, amount: nat, seal: Option<Seal>)
    | Transfer(sender: string, recipient: string, cipher: Cipher)
    | Other  // a topic the index does not know

  /** An event as the RPC reports it; its id names the TOID of its operation and its index there. */
  datatype RpcEvent = RpcEvent(toid: nat, index: nat, txHash: string, payload: Payload)

  /** A row of the saved log. */
  datatype Row = Row(ledger: nat, txHash: string, id: string, payload: Payload)

  const OPS_PER_TX := 0x1000
  const TOIDS_PER_LEDGER: nat := 0x1_0000_0000

  function LedgerOf(e: RpcEvent): nat {
    e.toid / TOIDS_PER_LEDGER
  }

  predicate Known(e: RpcEvent) {
    !e.payload.Other?
  }

  /** The id string of an RPC event. */
  function RpcId(e: RpcEvent): string {
    PadStart(Decimal(e.toid), 19) + "-" + PadStart(Decimal(e.index), 10)
  }

  /** How many characters precede the first dash. */
  function DashAt(s: string): (n: nat)
    ensures n <= |s| && (forall i | 0 <= i < n :: s[i] != '-') && (n < |s| ==> s[n] == '-')
  {
    if s == "" || s[0] == '-' then 0 else 1 + DashAt(s[1..])
  }

  datatype Coords = Coords(opIndex: nat, eventIndex: nat)

  /** Operation and event index, read from an id; the operation is the low 12 bits of the TOID. */
  function RpcEventCoords(id: string): Option<Coords> {
    var n := DashAt(id);
    var toid := id[..n];
    var rest := if n < |id| then id[n + 1..] else "0";
    var index := rest[..DashAt(rest)];
    if IsDecimal(toid) && IsDecimal(index) then
      Some(Coords(ParseDecimal(toid) % OPS_PER_TX, ParseDecimal(index)))
    else None
  }

  function NaturalEventId(ledger: nat, txHash: string, c: Coords): string {
    Decimal(ledger) + "-" + txHash + "-" + Decimal(c.opIndex) + "-" + Decimal(c.eventIndex)
  }

  function CoordsOf(e: RpcEvent): Coords {
    Coords(e.toid % OPS_PER_TX, e.index)
  }

  /** An event as a reader of the RPC has it. */
  function EventOf(e: RpcEvent): Row {
    Row(LedgerOf(e), e.txHash, NaturalEventId(LedgerOf(e), e.txHash, CoordsOf(e)), e.payload)
  }

  /** The index keeps no seal of a withdrawal. */
  function Indexed(p: Payload): Payload {
    if p.Withdraw? then p.(seal := None) else p
  }

  function RowOf(e: RpcEvent): Row {
    EventOf(e).(payload := Indexed(e.payload))
  }

  lemma DashSplit(a: string, b: string)
    requires '-' !in a
    ensures DashAt(a + "-" + b) == |a|
  {
    var s := a + "-" + b;
    assert forall i | 0 <= i < |a| :: s[i] == a[i] && a[i] in a;
    assert s[|a|] == '-';
  }

  lemma DecimalHasNoDash(s: string)
    requires IsDecimal(s)
    ensures '-' !in s
  {}

  /** The coordinates of an RPC event can be read from its id. */
  lemma CoordsAreRead(e: RpcEvent)
    ensures RpcEventCoords(RpcId(e)) == Some(CoordsOf(e))
  {
    var a, b := PadStart(Decimal(e.toid), 19), PadStart(Decimal(e.index), 10);
    DecimalHasNoDash(a);
    DecimalHasNoDash(b);
    DashSplit(a, b);
    assert RpcId(e)[..|a|] == a && RpcId(e)[|a| + 1..] == b;
    assert DashAt(b) == |b| && b[..|b|] == b;
    PadKeepsDecimal(Decimal(e.toid), 19);
    PadKeepsDecimal(Decimal(e.index), 10);
    ParseDecimalOfDecimal(e.toid);
    ParseDecimalOfDecimal(e.index);
  }

  lemma ToidParts(ledger: nat, low: nat, tx: nat, op: nat)
    requires tx < 0x10_0000 && op < 0x1000 && low == tx * 0x1000 + op
    ensures (ledger * 0x1_0000_0000 + low) / 0x1_0000_0000 == ledger
    ensures (ledger * 0x1_0000_0000 + low) % 0x1000 == op
  {
    DivideAppended(ledger, low, 0x1_0000_0000);
    DivideAppended(ledger * 0x10_0000 + tx, op, 0x1000);
  }

  /** A TOID is the ledger, 20 bits of transaction and 12 of operation. */
  lemma {:induction false} ToidIsRead(e: RpcEvent, ledger: nat, low: nat, tx: nat, op: nat)
    requires tx < 0x10_0000 && op < 0x1000 && low == tx * 0x1000 + op
    requires e.toid == ledger * 0x1_0000_0000 + low
    ensures RowOf(e).ledger == ledger && RowOf(e).txHash == e.txHash
    ensures RpcEventCoords(RpcId(e)) == Some(Coords(op, e.index))
  {
    ToidParts(ledger, low, tx, op);
    assert LedgerOf(e) == ledger && CoordsOf(e) == Coords(op, e.index);
    CoordsAreRead(e);
  }

  lemma JoinIsInjective(a: string, b: string, c: string, d: string)
    requires '-' !in a && '-' !in c && a + "-" + b == c + "-" + d
    ensures a == c && b == d
  {
    DashSplit(a, b);
    DashSplit(c, d);
    var s := a + "-" + b;
    assert s[..|a|] == a && s[|a| + 1..] == b;
    assert s[..|c|] == c && s[|c| + 1..] == d;
  }

  lemma FourParts(a: string, b: string, c: string, d: string)
    ensures a + "-" + b + "-" + c + "-" + d == a + "-" + (b + "-" + (c + "-" + d))
  {}

  lemma NaturalIdIsInjective(l1: nat, h1: string, c1: Coords, l2: nat, h2: string, c2: Coords)
    requires '-' !in h1 && '-' !in h2 && NaturalEventId(l1, h1, c1) == NaturalEventId(l2, h2, c2)
    ensures l1 == l2 && h1 == h2 && c1 == c2
  {
    var a1, a2 := Decimal(l1), Decimal(l2);
    var o1, o2 := Decimal(c1.opIndex), Decimal(c2.opIndex);
    var e1, e2 := Decimal(c1.eventIndex), Decimal(c2.eventIndex);
    DecimalHasNoDash(a1);
    DecimalHasNoDash(a2);
    DecimalHasNoDash(o1);
    DecimalHasNoDash(o2);
    FourParts(a1, h1, o1, e1);
    FourParts(a2, h2, o2, e2);
    JoinIsInjective(a1, h1 + "-" + (o1 + "-" + e1), a2, h2 + "-" + (o2 + "-" + e2));
    JoinIsInjective(h1, o1 + "-" + e1, h2, o2 + "-" + e2);
    JoinIsInjective(o1, e1, o2, e2);
    DecimalIsInjective(l1, l2);
    DecimalIsInjective(c1.opIndex, c2.opIndex);
    DecimalIsInjective(c1.eventIndex, c2.eventIndex);
  }

  predicate Before(a: RpcEvent, b: RpcEvent) {
    a.toid < b.toid || (a.toid == b.toid && a.index < b.index)
  }

  /**
   A log in chain order; within a ledger a transaction hash names one transaction, and hashes
   have no dash (they are hexadecimal).
   */
  ghost predicate ValidLog(log: seq<RpcEvent>) {
    && (forall i, j | 0 <= i < j < |log| :: Before(log[i], log[j]))
    && (forall i | 0 <= i < |log| :: '-' !in log[i].txHash)
    && (forall i, j | 0 <= i < |log| && 0 <= j < |log| && LedgerOf(log[i]) == LedgerOf(log[j])
                      && log[i].txHash == log[j].txHash
          :: log[i].toid / OPS_PER_TX == log[j].toid / OPS_PER_TX)
  }

  /** Distinct events of a log never share a natural id. */
  lemma IdsAreDistinct(log: seq<RpcEvent>, i: nat, j: nat)
    requires ValidLog(log) && i < |log| && j < |log| && RowOf(log[i]).id == RowOf(log[j]).id
    ensures i == j
  {
    var a, b := log[i], log[j];
    NaturalIdIsInjective(LedgerOf(a), a.txHash, CoordsOf(a), LedgerOf(b), b.txHash, CoordsOf(b));
    assert a.toid == a.toid / OPS_PER_TX * OPS_PER_TX + a.toid % OPS_PER_TX;
    assert b.toid == b.toid / OPS_PER_TX * OPS_PER_TX + b.toid % OPS_PER_TX;
    assert a.toid == b.toid && a.index == b.index;
    assert !Before(log[i], log[j]) && !Before(log[j], log[i]);
  }

  lemma LedgersAscend(log: seq<RpcEvent>, i: nat, j: nat)
    requires ValidLog(log) && i <= j < |log|
    ensures LedgerOf(log[i]) <= LedgerOf(log[j])
  {
    if i < j {
      assert Before(log[i], log[j]);
      assert log[i].toid / TOIDS_PER_LEDGER <= log[j].toid / TOIDS_PER_LEDGER;
    }
  }

  // ---------------------------------------------------------------- the sync

  datatype Cursor = Cursor(upto: nat, ledger: nat, token: nat)

  datatype Store = Store(cursor: Option<Cursor>, events: seq<Row>, latestLedger: nat)

  const EMPTY_STORE := Store(None, [], 0)

  /** One answer of the source. */
  datatype Page = Page(events: seq<RpcEvent>, cursor: Option<Cursor>, latestLedger: nat)

  predicate HasId(rows: seq<Row>, id: string) {
    exists i :: 0 <= i < |rows| && rows[i].id == id
  }

  function IdsOf(rows: seq<Row>): set<string> {
    set row | row in rows :: row.id
  }

  lemma IdsAreHeld(rows: seq<Row>, id: string)
    ensures id in IdsOf(rows) <==> HasId(rows, id)
  {
    if HasId(rows, id) {
      var i :| 0 <= i < |rows| && rows[i].id == id;
      assert rows[i] in rows;
    }
  }

  /** The rows after reading one event: unknown topics and known ids are skipped. */
  function IngestOne(rows: seq<Row>, e: RpcEvent): seq<Row> {
    if Known(e) && !HasId(rows, RowOf(e).id) then rows + [RowOf(e)] else rows
  }

  /** The rows after reading events in order. */
  function Ingest(rows: seq<Row>, events: seq<RpcEvent>): seq<Row> {
    if events == [] then rows
    else IngestOne(Ingest(rows, events[..|events| - 1]), events[|events| - 1])
  }

  /** Into a list in ledger order, after every row of its ledger. */
  function InsertRow(rows: seq<Row>, row: Row): seq<Row> {
    if rows == [] || rows[|rows| - 1].ledger <= row.ledger then rows + [row]
    else InsertRow(rows[..|rows| - 1], row) + [rows[|rows| - 1]]
  }

  /** `sort((a, b) => a.ledger - b.ledger)`, which is stable. */
  function SortByLedger(rows: seq<Row>): seq<Row> {
    if rows == [] then [] else InsertRow(SortByLedger(rows[..|rows| - 1]), rows[|rows| - 1])
  }

  /** What a sync saves after reading `fetched`, the last answer having this cursor. */
  function AfterSync(store: Store, fetched: seq<RpcEvent>, cursor: Option<Cursor>, latestLedger: nat): Store {
    Store(if cursor.Some? then cursor else store.cursor,
          SortByLedger(Ingest(store.events, fetched)),
          latestLedger)
  }

  /** The pages from `i` on answer successive requests on `log`, the first from entry `from` on. */
  predicate Answer(log: seq<RpcEvent>, from: nat, pages: seq<Page>, i: nat)
    requires i <= |pages|
    decreases |pages| - i
  {
    i == |pages| ||
    (var end := from + |pages[i].events|;
     && end <= |log| && pages[i].events == log[from..end]
     && (pages[i].cursor.Some? ==> pages[i].cursor.value.upto == end && Answer(log, end, pages, i + 1)))
  }

  /** The cursor that request `i` is made with. */
  function CursorBefore(pages: seq<Page>, first: Option<Cursor>, i: nat): Option<Cursor>
    requires i <= |pages|
  {
    if i == 0 then first else pages[i - 1].cursor
  }

  /** An answer that ends a sync: it has no cursor, repeats the one before, or has reached the head. */
  predicate IsFinal(resp: Page, prev: Option<Cursor>) {
    resp.cursor.None? || resp.cursor == prev || resp.cursor.value.ledger >= resp.latestLedger
  }

  predicate Ends(pages: seq<Page>, first: Option<Cursor>, i: nat)
    requires i < |pages|
  {
    IsFinal(pages[i], CursorBefore(pages, first, i))
  }

  /** None of the first `n` answers ends a sync. */
  predicate NoneEnds(pages: seq<Page>, first: Option<Cursor>, n: nat)
    requires n <= |pages|
  {
    forall i | 0 <= i < n :: !Ends(pages, first, i)
  }

  predicate EndsAt(pages: seq<Page>, first: Option<Cursor>, i: nat) {
    i < |pages| && Ends(pages, first, i) && NoneEnds(pages, first, i)
  }

  /** The number of events in the first `n` answers. */
  function CountEvents(pages: seq<Page>, n: nat): nat
    requires n <= |pages|
  {
    if n == 0 then 0 else CountEvents(pages, n - 1) + |pages[n - 1].events|
  }

  /** Every entry of a ledger before this one is among the first `end`. */
  predicate HasServed(log: seq<RpcEvent>, end: nat, ledger: nat) {
    forall j | end <= j < |log| :: ledger <= LedgerOf(log[j])
  }

  /** The log has been given out in full with answer `i`, the first being of entries from `from` on. */
  predicate AllServed(log: seq<RpcEvent>, from: nat, pages: seq<Page>, i: nat)
    requires i < |pages|
  {
    from + CountEvents(pages, i + 1) >= |log|
  }

  /**
   What the source's answers say is so: it gives no new cursor only when nothing is left, and a
   cursor of some ledger only when it has given out every entry of the ledgers before.
   */
  predicate Truthful(log: seq<RpcEvent>, from: nat, pages: seq<Page>, first: Option<Cursor>) {
    forall i | 0 <= i < |pages| ::
      && (pages[i].cursor.None? || pages[i].cursor == CursorBefore(pages, first, i) ==> AllServed(log, from, pages, i))
      && (pages[i].cursor.Some? ==>
            HasServed(log, from + CountEvents(pages, i + 1), pages[i].cursor.value.ledger))
  }

  /** These rows are the store's and those of the first `n` answers, which take the log from `from` to `end`. */
  ghost predicate HasRead(
    store: Store, log: seq<RpcEvent>, from: nat, pages: seq<Page>, n: nat, end: nat, rows: seq<Row>)
    requires n <= |pages|
  {
    end == from + CountEvents(pages, n) <= |log| && rows == Ingest(store.events, log[from..end])
  }

  /** The number of log entries before a ledger. */
  function EntriesBefore(log: seq<RpcEvent>, ledger: nat): (n: nat)
    ensures n <= |log|
  {
    if log == [] then 0
    else if LedgerOf(log[|log| - 1]) >= ledger then EntriesBefore(log[..|log| - 1], ledger)
    else |log|
  }

  /** Where a sync without a cursor starts reading. */
  function StartLedger(deployedAt: nat, oldest: nat, latestLedger: nat): nat {
    if deployedAt > 0 then Max(deployedAt, oldest)
    else Max(oldest, if latestLedger > 5000 then latestLedger - 5000 else if latestLedger > 0 then 0 else oldest)
  }

  /** The first log entry a sync asks for. */
  function From(store: Store, log: seq<RpcEvent>, startLedger: nat): (n: nat)
    ensures store.cursor.None? ==> n <= |log|
  {
    if store.cursor.Some? then store.cursor.value.upto else EntriesBefore(log, startLedger)
  }

  class Indexer {
    var store: Store

    constructor (saved: Store)
      ensures store == saved
    {
      store := saved;
    }

    /**
     Reads pages until the source has no more, and saves what was new. `pages` are the source's
     answers in order; running out of them stands for a failed request, which saves nothing.
     */
    method Sync(pages: seq<Page>, deployedAt: nat, oldest: nat, ghost log: seq<RpcEvent>)
      returns (ok: bool, ghost last: nat, ghost end: nat)
      requires store.cursor.Some? ==> store.cursor.value.upto <= |log|
      requires Answer(log, From(store, log, StartLedger(deployedAt, oldest, store.latestLedger)), pages, 0)
      modifies this
      ensures if ok then EndsAt(pages, old(store).cursor, last) else NoneEnds(pages, old(store).cursor, |pages|)
      ensures !ok ==> store == old(store)
      ensures ok ==>
                var from := From(old(store), log, StartLedger(deployedAt, oldest, old(store).latestLedger));
                && end == from + CountEvents(pages, last + 1) <= |log|
                && (pages[last].cursor.Some? ==> pages[last].cursor.value.upto == end)
                && store == AfterSync(old(store), log[from..end], pages[last].cursor, pages[last].latestLedger)
                && (Truthful(log, from, pages, old(store).cursor) ==> HasServed(log, end, store.latestLedger))
    {
      var startLedger := StartLedger(deployedAt, oldest, store.latestLedger);
      var decoded, cursor, latestLedger;
      ghost var from := From(store, log, startLedger);
      ok, decoded, cursor, latestLedger, last, end := ReadPages(store, pages, log, from);
      if ok {
        assert Truthful(log, from, pages, store.cursor) ==> HasServed(log, end, latestLedger);
        store := Store(if cursor.Some? then cursor else store.cursor, SortByLedger(decoded), latestLedger);
      }
    }

    /** The loop over the answers, from entry `from` of the log on. */
    static method ReadPages(saved: Store, pages: seq<Page>, ghost log: seq<RpcEvent>, ghost from: nat)
      returns (ok: bool, decoded: seq<Row>, cursor: Option<Cursor>, latestLedger: nat, ghost last: nat, ghost end: nat)
      requires from <= |log| && Answer(log, from, pages, 0)
      ensures if ok then EndsAt(pages, saved.cursor, last) else NoneEnds(pages, saved.cursor, |pages|)
      ensures ok ==>
                && cursor == pages[last].cursor && latestLedger == pages[last].latestLedger
                && HasRead(saved, log, from, pages, last + 1, end, decoded)
                && (cursor.Some? ==> cursor.value.upto == end)
    {
      decoded, cursor, latestLedger := saved.events, saved.cursor, saved.latestLedger;
      var seen := IdsOf(decoded);
      ok, last, end := false, 0, from;
      var i := 0;
      while true
        invariant !ok && 0 <= i <= |pages| && Answer(log, end, pages, i)
        invariant HasRead(saved, log, from, pages, i, end, decoded) && seen == IdsOf(decoded)
        invariant NoneEnds(pages, saved.cursor, i) && cursor == CursorBefore(pages, saved.cursor, i)
        decreases |pages| - i
      {
        if i == |pages| {
          break;
        }
        var resp := pages[i];
        latestLedger := resp.latestLedger;
        ghost var before := decoded;
        decoded, seen := ReadPage(decoded, seen, resp.events);
        PageRead(saved, log, from, pages, i, end, before, decoded);
        end := end + |resp.events|;
        last := i;
        i := i + 1;
        var prev := cursor;
        cursor := resp.cursor;
        if resp.cursor.None? || resp.cursor == prev || resp.cursor.value.ledger >= resp.latestLedger {
          ok := true;
          break;
        }
      }
    }

    /** The loop over one page; `seen` holds the ids of the rows so far. */
    static method ReadPage(rows: seq<Row>, ids: set<string>, events: seq<RpcEvent>)
        returns (decoded: seq<Row>, seen: set<string>)
      requires ids == IdsOf(rows)
      ensures decoded == Ingest(rows, events) && seen == IdsOf(decoded)
    {
      decoded, seen := rows, ids;
      for j := 0 to |events|
        invariant decoded == Ingest(rows, events[..j]) && seen == IdsOf(decoded)
      {
        var parsed := RowOf(events[j]);
        IngestSnoc(rows, events[..j], events[j]);
        IdsAreHeld(decoded, parsed.id);
        assert events[..j + 1] == events[..j] + [events[j]];
        if Known(events[j]) && parsed.id !in seen {
          IdsOfSnoc(decoded, parsed);
          seen := seen + {parsed.id};
          decoded := decoded + [parsed];
        }
      }
      assert events[..|events|] == events;
    }
  }

  lemma IngestSnoc(rows: seq<Row>, events: seq<RpcEvent>, e: RpcEvent)
    ensures Ingest(rows, events + [e]) == IngestOne(Ingest(rows, events), e)
  {
    var all := events + [e];
    assert all[..|all| - 1] == events;
  }

  lemma {:induction false} IngestJoin(rows: seq<Row>, a: seq<RpcEvent>, b: seq<RpcEvent>)
    ensures Ingest(rows, a + b) == Ingest(Ingest(rows, a), b)
    decreases |b|
  {
    if b == [] {
      assert a + b == a;
    } else {
      var front, e := b[..|b| - 1], b[|b| - 1];
      IngestJoin(rows, a, front);
      IngestSnoc(rows, a + front, e);
      assert a + b == a + front + [e];
    }
  }

  lemma IngestMore(
    rows: seq<Row>, log: seq<RpcEvent>, from: nat, middle: nat, end: nat, events: seq<RpcEvent>, all: seq<Row>)
    requires from <= middle <= end <= |log| && events == log[middle..end]
    requires all == Ingest(Ingest(rows, log[from..middle]), events)
    ensures all == Ingest(rows, log[from..end])
  {
    IngestJoin(rows, log[from..middle], events);
    assert log[from..end] == log[from..middle] + events;
  }

  lemma PageRead(
    store: Store, log: seq<RpcEvent>, from: nat, pages: seq<Page>, i: nat, middle: nat, rows: seq<Row>, all: seq<Row>)
    requires i < |pages| && HasRead(store, log, from, pages, i, middle, rows) && Answer(log, middle, pages, i)
    requires all == Ingest(rows, pages[i].events)
    ensures var end := middle + |pages[i].events|;
            && HasRead(store, log, from, pages, i + 1, end, all)
            && (pages[i].cursor.Some? ==> pages[i].cursor.value.upto == end && Answer(log, end, pages, i + 1))
  {
    IngestMore(store.events, log, from, middle, middle + |pages[i].events|, pages[i].events, all);
  }

  lemma IdsOfSnoc(rows: seq<Row>, row: Row)
    ensures IdsOf(rows + [row]) == IdsOf(rows) + {row.id}
  {
    var all := rows + [row];
    assert all[|rows|] == row;
    forall r | r in rows ensures r.id in IdsOf(all) {
      assert r in all;
    }
  }

  // ---------------------------------------------------------------- what every sync keeps

  predicate Increasing(ks: seq<nat>) {
    forall i, j | 0 <= i < j < |ks| :: ks[i] < ks[j]
  }

  predicate InLog(log: seq<RpcEvent>, ks: seq<nat>) {
    forall i | 0 <= i < |ks| :: ks[i] < |log|
  }

  /** The rows of the log entries `ks`. */
  function RowsAt(log: seq<RpcEvent>, ks: seq<nat>): (rows: seq<Row>)
    requires InLog(log, ks)
    ensures |rows| == |ks|
  {
    if ks == [] then [] else RowsAt(log, ks[..|ks| - 1]) + [RowOf(log[ks[|ks| - 1]])]
  }

  lemma RowsAtSnoc(log: seq<RpcEvent>, ks: seq<nat>, k: nat)
    requires InLog(log, ks) && k < |log|
    ensures RowsAt(log, ks + [k]) == RowsAt(log, ks) + [RowOf(log[k])]
  {
    assert (ks + [k])[..|ks|] == ks;
  }

  lemma {:induction false} RowAt(log: seq<RpcEvent>, ks: seq<nat>, i: nat)
    requires InLog(log, ks) && i < |ks|
    ensures RowsAt(log, ks)[i] == RowOf(log[ks[i]])
  {
    if i < |ks| - 1 {
      RowAt(log, ks[..|ks| - 1], i);
    }
  }

  /** `ks` has every known entry of [from, to). */
  predicate HasAll(log: seq<RpcEvent>, ks: seq<nat>, from: nat, to: nat) {
    forall k | from <= k < to && k < |log| && Known(log[k]) :: k in ks
  }

  /** Whatever is kept of a ledger is an initial part of it. */
  predicate KeepsLedgerPrefixes(log: seq<RpcEvent>, ks: seq<nat>)
    requires InLog(log, ks)
  {
    forall k, j | k in ks && 0 <= j < k && Known(log[j]) && LedgerOf(log[j]) == LedgerOf(log[k]) :: j in ks
  }

  /** `start` is the first entry of ledger `first` or later. */
  predicate StartsLedger(log: seq<RpcEvent>, start: nat, first: nat) {
    && (forall i | 0 <= i < start && i < |log| :: LedgerOf(log[i]) < first)
    && (forall j | start <= j < |log| :: first <= LedgerOf(log[j]))
  }

  predicate LedgersOrdered(log: seq<RpcEvent>) {
    forall i, j | 0 <= i <= j < |log| :: LedgerOf(log[i]) <= LedgerOf(log[j])
  }

  lemma {:induction false} EntriesBeforeStartsLedger(log: seq<RpcEvent>, ledger: nat)
    requires LedgersOrdered(log)
    ensures StartsLedger(log, EntriesBefore(log, ledger), ledger)
  {
    if log != [] && LedgerOf(log[|log| - 1]) >= ledger {
      EntriesBeforeStartsLedger(log[..|log| - 1], ledger);
    }
  }

  /**
   The saved log is the rows of the entries `ks` of the source: in source order, each known and
   each once, with every known entry from `start` up to the saved cursor.
   */
  ghost predicate Agrees(store: Store, log: seq<RpcEvent>, ks: seq<nat>, start: nat, first: nat) {
    && InLog(log, ks) && Increasing(ks)
    && (forall i | 0 <= i < |ks| :: Known(log[ks[i]]))
    && store.events == RowsAt(log, ks)
    && KeepsLedgerPrefixes(log, ks)
    && (store.cursor.Some? ==>
          && start <= store.cursor.value.upto <= |log|
          && StartsLedger(log, start, first)
          && HasAll(log, ks, start, store.cursor.value.upto))
  }

  // Sorting, on entry numbers instead of rows.

  function InsertEntry(log: seq<RpcEvent>, ks: seq<nat>, k: nat): (r: seq<nat>)
    requires InLog(log, ks) && k < |log|
    ensures InLog(log, r)
  {
    if ks == [] || LedgerOf(log[ks[|ks| - 1]]) <= LedgerOf(log[k]) then ks + [k]
    else InsertEntry(log, ks[..|ks| - 1], k) + [ks[|ks| - 1]]
  }

  function SortEntries(log: seq<RpcEvent>, ks: seq<nat>): (r: seq<nat>)
    requires InLog(log, ks)
    ensures InLog(log, r)
  {
    if ks == [] then []
    else InsertEntry(log, SortEntries(log, ks[..|ks| - 1]), ks[|ks| - 1])
  }

  lemma {:induction false} InsertEntryMembers(log: seq<RpcEvent>, ks: seq<nat>, k: nat, x: nat)
    requires InLog(log, ks) && k < |log|
    ensures x in InsertEntry(log, ks, k) <==> x in ks || x == k
  {
    if ks != [] {
      assert ks == ks[..|ks| - 1] + [ks[|ks| - 1]];
      InsertEntryMembers(log, ks[..|ks| - 1], k, x);
    }
  }

  lemma {:induction false} SortEntriesMembers(log: seq<RpcEvent>, ks: seq<nat>, x: nat)
    requires InLog(log, ks)
    ensures x in SortEntries(log, ks) <==> x in ks
  {
    if ks != [] {
      var front, last := ks[..|ks| - 1], ks[|ks| - 1];
      assert ks == front + [last];
      SortEntriesMembers(log, front, x);
      InsertEntryMembers(log, SortEntries(log, front), last, x);
    }
  }

  lemma InsertRowBefore(rows: seq<Row>, last: Row, row: Row)
    requires last.ledger > row.ledger
    ensures InsertRow(rows + [last], row) == InsertRow(rows, row) + [last]
  {
    assert (rows + [last])[..|rows|] == rows;
  }

  lemma {:induction false} InsertRowIsInsertEntry(log: seq<RpcEvent>, ks: seq<nat>, k: nat)
    requires InLog(log, ks) && k < |log|
    ensures InsertRow(RowsAt(log, ks), RowOf(log[k])) == RowsAt(log, InsertEntry(log, ks, k))
  {
    if ks == [] || LedgerOf(log[ks[|ks| - 1]]) <= LedgerOf(log[k]) {
      RowsAtSnoc(log, ks, k);
    } else {
      var front, last := ks[..|ks| - 1], ks[|ks| - 1];
      InsertRowBefore(RowsAt(log, front), RowOf(log[last]), RowOf(log[k]));
      InsertRowIsInsertEntry(log, front, k);
      RowsAtSnoc(log, InsertEntry(log, front, k), last);
    }
  }

  lemma {:induction false} SortIsSortEntries(log: seq<RpcEvent>, ks: seq<nat>)
    requires InLog(log, ks)
    ensures SortByLedger(RowsAt(log, ks)) == RowsAt(log, SortEntries(log, ks))
  {
    if ks != [] {
      var front := ks[..|ks| - 1];
      assert RowsAt(log, ks)[..|ks| - 1] == RowsAt(log, front);
      SortIsSortEntries(log, front);
      InsertRowIsInsertEntry(log, SortEntries(log, front), ks[|ks| - 1]);
    }
  }

  /** `k` may be appended: it is not there, and comes after all that is there of its ledger. */
  predicate Appendable(log: seq<RpcEvent>, ks: seq<nat>, k: nat)
    requires InLog(log, ks) && k < |log|
  {
    forall x | x in ks :: x != k && (LedgerOf(log[x]) == LedgerOf(log[k]) ==> x < k)
  }

  lemma {:induction false} InsertKeepsOrder(log: seq<RpcEvent>, ks: seq<nat>, k: nat)
    requires ValidLog(log) && InLog(log, ks) && k < |log| && Increasing(ks) && Appendable(log, ks, k)
    ensures Increasing(InsertEntry(log, ks, k))
  {
    if ks != [] {
      var n := |ks| - 1;
      var last := ks[n];
      assert last in ks;
      if LedgerOf(log[last]) <= LedgerOf(log[k]) {
        if k < last { LedgersAscend(log, k, last); }
      } else {
        if last <= k { LedgersAscend(log, last, k); }
        var front := ks[..n];
        InsertKeepsOrder(log, front, k);
        var inserted := InsertEntry(log, front, k);
        forall i | 0 <= i < |inserted| ensures inserted[i] < last {
          InsertEntryMembers(log, front, k, inserted[i]);
        }
      }
    }
  }

  /** Entries whose ledgers are each in order sort into source order. */
  lemma {:induction false} SortRestoresOrder(log: seq<RpcEvent>, ks: seq<nat>)
    requires ValidLog(log) && InLog(log, ks)
    requires forall i | 0 <= i < |ks| :: Appendable(log, ks[..i], ks[i])
    ensures Increasing(SortEntries(log, ks))
  {
    if ks != [] {
      var n := |ks| - 1;
      forall i | 0 <= i < n ensures Appendable(log, ks[..n][..i], ks[..n][i]) {
        assert ks[..n][..i] == ks[..i];
      }
      SortRestoresOrder(log, ks[..n]);
      var sorted := SortEntries(log, ks[..n]);
      forall x | x in sorted ensures x in ks[..n] {
        SortEntriesMembers(log, ks[..n], x);
      }
      InsertKeepsOrder(log, SortEntries(log, ks[..n]), ks[n]);
    }
  }

  lemma {:induction false} SortedStaysPut(log: seq<RpcEvent>, ks: seq<nat>)
    requires InLog(log, ks)
    requires forall i | 0 < i < |ks| :: LedgerOf(log[ks[i - 1]]) <= LedgerOf(log[ks[i]])
    ensures SortEntries(log, ks) == ks
  {
    if ks != [] {
      var n := |ks| - 1;
      var front := ks[..n];
      SortedStaysPut(log, front);
      assert front == [] || front[|front| - 1] == ks[n - 1];
      assert InsertEntry(log, front, ks[n]) == front + [ks[n]];
      assert ks == front + [ks[n]];
    }
  }

  // De-duplication, on entry numbers.

  /** The known entries of [from, end) that are not in `ks`. */
  function NewEntries(log: seq<RpcEvent>, ks: seq<nat>, from: nat, end: nat): (js: seq<nat>)
    requires from <= end <= |log|
    ensures Increasing(js)
    ensures forall i | 0 <= i < |js| :: from <= js[i] < end && Known(log[js[i]]) && js[i] !in ks
    ensures forall j | from <= j < end && Known(log[j]) && j !in ks :: j in js
    decreases end
  {
    if from == end then []
    else
      var js := NewEntries(log, ks, from, end - 1);
      if Known(log[end - 1]) && end - 1 !in ks then js + [end - 1] else js
  }

  lemma {:induction false} IngestsNewEntries(log: seq<RpcEvent>, ks: seq<nat>, from: nat, end: nat)
    requires ValidLog(log) && InLog(log, ks) && from <= end <= |log|
    ensures InLog(log, ks + NewEntries(log, ks, from, end))
    ensures Ingest(RowsAt(log, ks), log[from..end]) == RowsAt(log, ks + NewEntries(log, ks, from, end))
    decreases end
  {
    if from == end {
      assert ks + [] == ks;
    } else {
      var k := end - 1;
      IngestsNewEntries(log, ks, from, k);
      NewEntriesSnoc(log, ks, from, k);
      SliceSnoc(log, from, k);
      IngestsOneMore(log, RowsAt(log, ks), log[from..k], log[from..end],
                     ks + NewEntries(log, ks, from, k), ks + NewEntries(log, ks, from, end), k);
    }
  }

  lemma SliceSnoc(log: seq<RpcEvent>, from: nat, k: nat)
    requires from <= k < |log|
    ensures log[from..k + 1] == log[from..k] + [log[k]]
  {}

  lemma NewEntriesSnoc(log: seq<RpcEvent>, ks: seq<nat>, from: nat, k: nat)
    requires from <= k < |log|
    ensures var all := ks + NewEntries(log, ks, from, k);
            ks + NewEntries(log, ks, from, k + 1) == if Known(log[k]) && k !in all then all + [k] else all
  {
    var js := NewEntries(log, ks, from, k);
    assert k !in js;
    assert ks + (js + [k]) == ks + js + [k];
  }

  lemma IngestsOneMore(
    log: seq<RpcEvent>, rows: seq<Row>, events: seq<RpcEvent>, more: seq<RpcEvent>, all: seq<nat>, all': seq<nat>,
    k: nat)
    requires ValidLog(log) && InLog(log, all) && k < |log| && Ingest(rows, events) == RowsAt(log, all)
    requires more == events + [log[k]] && all' == if Known(log[k]) && k !in all then all + [k] else all
    ensures InLog(log, all') && Ingest(rows, more) == RowsAt(log, all')
  {
    IngestSnoc(rows, events, log[k]);
    IngestOneIsAppend(log, all, k);
  }

  lemma IngestOneIsAppend(log: seq<RpcEvent>, ks: seq<nat>, k: nat)
    requires ValidLog(log) && InLog(log, ks) && k < |log|
    ensures IngestOne(RowsAt(log, ks), log[k]) == RowsAt(log, if Known(log[k]) && k !in ks then ks + [k] else ks)
  {
    SeenIffKept(log, ks, k);
    RowsAtSnoc(log, ks, k);
  }

  lemma SeenIffKept(log: seq<RpcEvent>, ks: seq<nat>, k: nat)
    requires ValidLog(log) && InLog(log, ks) && k < |log|
    ensures HasId(RowsAt(log, ks), RowOf(log[k]).id) <==> k in ks
  {
    var rows := RowsAt(log, ks);
    if HasId(rows, RowOf(log[k]).id) {
      var i :| 0 <= i < |rows| && rows[i].id == RowOf(log[k]).id;
      RowAt(log, ks, i);
      IdsAreDistinct(log, ks[i], k);
    }
    if k in ks {
      var i :| 0 <= i < |ks| && ks[i] == k;
      RowAt(log, ks, i);
    }
  }

  // ---------------------------------------------------------------- one sync, and any run of them

  /** The entries kept after a sync that read [from, end). */
  function KeptAfter(log: seq<RpcEvent>, ks: seq<nat>, from: nat, end: nat): seq<nat>
    requires InLog(log, ks) && from <= end <= |log|
  {
    SortEntries(log, ks + NewEntries(log, ks, from, end))
  }

  /** What a sync may read from: its cursor, or the first entry of a ledger. */
  predicate ReadsFrom(store: Store, log: seq<RpcEvent>, start: nat, first: nat, from: nat) {
    if store.cursor.Some? then from == store.cursor.value.upto else from == start && StartsLedger(log, start, first)
  }

  lemma NewEntriesAreAppendable(
    store: Store, log: seq<RpcEvent>, ks: seq<nat>, start: nat, first: nat, from: nat, end: nat, j: nat)
    requires ValidLog(log) && Agrees(store, log, ks, start, first) && from <= end <= |log|
    requires j in NewEntries(log, ks, from, end)
    ensures Appendable(log, ks, j)
  {
    assert j !in ks && Known(log[j]);
  }

  lemma EachIsAppendable(
    store: Store, log: seq<RpcEvent>, ks: seq<nat>, start: nat, first: nat, from: nat, end: nat, i: nat)
    requires ValidLog(log) && Agrees(store, log, ks, start, first) && from <= end <= |log|
    requires i < |ks + NewEntries(log, ks, from, end)|
    ensures var all := ks + NewEntries(log, ks, from, end); Appendable(log, all[..i], all[i])
  {
    var js := NewEntries(log, ks, from, end);
    var all := ks + js;
    if i < |ks| {
      assert all[..i] == ks[..i];
    } else {
      var j := js[i - |ks|];
      assert j in js;
      NewEntriesAreAppendable(store, log, ks, start, first, from, end, j);
      assert all[..i] == ks + js[..i - |ks|];
    }
  }

  lemma KeptAfterIsOrdered(store: Store, log: seq<RpcEvent>, ks: seq<nat>, start: nat, first: nat, from: nat, end: nat)
    requires ValidLog(log) && Agrees(store, log, ks, start, first) && from <= end <= |log|
    ensures Increasing(KeptAfter(log, ks, from, end))
  {
    var all := ks + NewEntries(log, ks, from, end);
    forall i | 0 <= i < |all| ensures Appendable(log, all[..i], all[i]) {
      EachIsAppendable(store, log, ks, start, first, from, end, i);
    }
    SortRestoresOrder(log, all);
  }

  lemma KeptAfterIsSaved(log: seq<RpcEvent>, ks: seq<nat>, from: nat, end: nat)
    requires ValidLog(log) && InLog(log, ks) && from <= end <= |log|
    ensures SortByLedger(Ingest(RowsAt(log, ks), log[from..end])) == RowsAt(log, KeptAfter(log, ks, from, end))
  {
    IngestsNewEntries(log, ks, from, end);
    SortIsSortEntries(log, ks + NewEntries(log, ks, from, end));
  }

  lemma KeptAfterMembers(log: seq<RpcEvent>, ks: seq<nat>, from: nat, end: nat, k: nat)
    requires InLog(log, ks) && from <= end <= |log|
    ensures k in KeptAfter(log, ks, from, end) <==> k in ks || (from <= k < end && Known(log[k]))
  {
    var js := NewEntries(log, ks, from, end);
    assert k in ks + js <==> k in ks || k in js;
    SortEntriesMembers(log, ks + js, k);
  }

  lemma KeptAfterKeepsPrefixes(
    store: Store, log: seq<RpcEvent>, ks: seq<nat>, start: nat, first: nat, from: nat, end: nat)
    requires ValidLog(log) && Agrees(store, log, ks, start, first)
    requires ReadsFrom(store, log, start, first, from) && from <= end <= |log|
    ensures KeepsLedgerPrefixes(log, KeptAfter(log, ks, from, end))
  {
    var kept := KeptAfter(log, ks, from, end);
    forall k, j | k in kept && 0 <= j < k && Known(log[j]) && LedgerOf(log[j]) == LedgerOf(log[k]) ensures j in kept {
      KeptAfterMembers(log, ks, from, end, k);
      KeptAfterMembers(log, ks, from, end, j);
    }
  }

  /** A sync keeps the saved log in agreement with the source, keeps every entry it had, and adds every one it read. */
  lemma SyncKeepsAgreement(
    store: Store, log: seq<RpcEvent>, ks: seq<nat>, start: nat, first: nat, from: nat, end: nat,
    cursor: Option<Cursor>, latest: nat)
    requires ValidLog(log) && Agrees(store, log, ks, start, first)
    requires ReadsFrom(store, log, start, first, from) && from <= end <= |log|
    requires cursor.Some? ==> cursor.value.upto == end
    ensures Agrees(AfterSync(store, log[from..end], cursor, latest), log, KeptAfter(log, ks, from, end), start, first)
    ensures forall k :: k in KeptAfter(log, ks, from, end) <==> k in ks || (from <= k < end && Known(log[k]))
  {
    var kept := KeptAfter(log, ks, from, end);
    KeptAfterIsOrdered(store, log, ks, start, first, from, end);
    KeptAfterIsSaved(log, ks, from, end);
    KeptAfterKeepsPrefixes(store, log, ks, start, first, from, end);
    forall k: nat ensures k in kept <==> k in ks || (from <= k < end && Known(log[k])) {
      KeptAfterMembers(log, ks, from, end, k);
    }
    forall i | 0 <= i < |kept| ensures Known(log[kept[i]]) {
      KeptAfterMembers(log, ks, from, end, kept[i]);
    }
  }

  lemma {:induction false} NoNewEntries(log: seq<RpcEvent>, ks: seq<nat>, from: nat, end: nat)
    requires from <= end <= |log| && HasAll(log, ks, from, end)
    ensures NewEntries(log, ks, from, end) == []
    decreases end
  {
    if from < end {
      NoNewEntries(log, ks, from, end - 1);
    }
  }

  /** When there is nothing new to read, a sync changes no row. */
  lemma NothingNewChangesNothing(
    store: Store, log: seq<RpcEvent>, ks: seq<nat>, start: nat, first: nat, from: nat, end: nat,
    cursor: Option<Cursor>, latest: nat)
    requires ValidLog(log) && Agrees(store, log, ks, start, first) && from <= end <= |log|
    requires HasAll(log, ks, from, end)
    ensures AfterSync(store, log[from..end], cursor, latest).events == store.events
  {
    IngestsNewEntries(log, ks, from, end);
    var js := NewEntries(log, ks, from, end);
    NoNewEntries(log, ks, from, end);
    assert ks + js == ks;
    SortIsSortEntries(log, ks);
    forall i | 0 < i < |ks| ensures LedgerOf(log[ks[i - 1]]) <= LedgerOf(log[ks[i]]) {
      LedgersAscend(log, ks[i - 1], ks[i]);
    }
    SortedStaysPut(log, ks);
  }

  /** The saved log has no duplicate id and its ledgers ascend. */
  lemma AgreementMeansNoDuplicates(
    store: Store, log: seq<RpcEvent>, ks: seq<nat>, start: nat, first: nat, i: nat, j: nat)
    requires ValidLog(log) && Agrees(store, log, ks, start, first) && i < j < |store.events|
    ensures store.events[i].id != store.events[j].id && store.events[i].ledger <= store.events[j].ledger
  {
    RowAt(log, ks, i);
    RowAt(log, ks, j);
    if store.events[i].id == store.events[j].id {
      IdsAreDistinct(log, ks[i], ks[j]);
    }
    LedgersAscend(log, ks[i], ks[j]);
  }

  /** The source only appends, in ledgers from its head on. */
  ghost predicate Grows(before: seq<RpcEvent>, after: seq<RpcEvent>, head: nat) {
    before <= after && forall j | |before| <= j < |after| :: head <= LedgerOf(after[j])
  }

  lemma GrowthKeepsAgreement(
    store: Store, before: seq<RpcEvent>, after: seq<RpcEvent>, ks: seq<nat>, start: nat, first: nat, head: nat)
    requires Agrees(store, before, ks, start, first) && Grows(before, after, head)
    requires store.cursor.Some? ==> first <= head
    ensures Agrees(store, after, ks, start, first)
  {
    assert forall k | 0 <= k < |before| :: after[k] == before[k];
    forall i | 0 <= i < |ks| ensures RowsAt(after, ks)[i] == RowsAt(before, ks)[i] {
      RowAt(after, ks, i);
      RowAt(before, ks, i);
    }
    assert RowsAt(after, ks) == RowsAt(before, ks);
    forall k, j | k in ks && 0 <= j < k && Known(after[j]) && LedgerOf(after[j]) == LedgerOf(after[k]) ensures j in ks {
      assert after[j] == before[j];
    }
  }

  /**
   One sync of a run: the source as it stood, with its head and the oldest ledger it still had, the
   ledger of the deployment, and what the sync read.
   */
  datatype SyncStep = SyncStep(
    log: seq<RpcEvent>,
    head: nat,
    oldest: nat,
    deployedAt: nat,
    end: nat,
    cursor: Option<Cursor>,
    latestLedger: nat,
    succeeds: bool)

  function FirstLedger(store: Store, s: SyncStep): nat {
    StartLedger(s.deployedAt, s.oldest, store.latestLedger)
  }

  function ApplySync(store: Store, s: SyncStep): Store {
    var from := From(store, s.log, FirstLedger(store, s));
    if s.succeeds && from <= s.end <= |s.log| then
      AfterSync(store, s.log[from..s.end], s.cursor, s.latestLedger)
    else store
  }

  function RunSyncs(store: Store, steps: seq<SyncStep>): Store
    decreases steps
  {
    if steps == [] then store else RunSyncs(ApplySync(store, steps[0]), steps[1..])
  }

  /** Entry and ledger where the first sync that leaves a cursor began to read. */
  function StartOf(store: Store, steps: seq<SyncStep>): Option<(nat, nat)>
    decreases steps
  {
    if store.cursor.Some? || steps == [] then None
    else
      var next := ApplySync(store, steps[0]);
      if next.cursor.None? then StartOf(next, steps[1..])
      else
        var first := FirstLedger(store, steps[0]);
        Some((From(store, steps[0].log, first), first))
  }

  /** Syncs against a source that grows from `log`, whose head was `head`. */
  ghost predicate ValidSyncs(log: seq<RpcEvent>, head: nat, steps: seq<SyncStep>)
    decreases steps
  {
    steps == [] ||
    (var s := steps[0];
     && ValidLog(s.log) && Grows(log, s.log, head) && head <= s.head
     && s.oldest <= s.head && s.deployedAt <= s.head && s.latestLedger <= s.head && s.end <= |s.log|
     && (s.cursor.Some? ==> s.cursor.value.upto == s.end)
     && ValidSyncs(s.log, s.head, steps[1..]))
  }

  function LastLog(log: seq<RpcEvent>, steps: seq<SyncStep>): seq<RpcEvent> {
    if steps == [] then log else steps[|steps| - 1].log
  }

  /**
   A sync without a cursor asks for a ledger exactly when the source still has it and it is not before the
   deployment; where that is unknown, not more than 5000 before the latest ledger that was seen, if any was.
   */
  lemma AsksForLedgerIff(deployedAt: nat, oldest: nat, latestLedger: nat, ledger: nat)
    ensures StartLedger(deployedAt, oldest, latestLedger) <= ledger <==>
            && oldest <= ledger
            && (deployedAt > 0 ==> deployedAt <= ledger)
            && (deployedAt == 0 && latestLedger > 0 ==> latestLedger <= ledger + 5000)
  {}

  /** A sync without a cursor asks for no ledger past the head. */
  lemma StartIsNotPastHead(deployedAt: nat, oldest: nat, latestLedger: nat, head: nat)
    requires deployedAt <= head && oldest <= head && latestLedger <= head
    ensures oldest <= StartLedger(deployedAt, oldest, latestLedger) <= head
  {}

  /**
   Over any run of syncs, failing or not, the saved log agrees with the source, and no entry
   is ever lost from it. It has no gap from where the first sync that left a cursor began to read.
   */
  lemma {:induction false} AnyRunAgrees(
    store: Store, log: seq<RpcEvent>, head: nat, steps: seq<SyncStep>, ks: seq<nat>, start: nat, first: nat)
    returns (ks': seq<nat>, start': nat, first': nat)
    requires ValidSyncs(log, head, steps) && Agrees(store, log, ks, start, first)
    requires store.latestLedger <= head && (store.cursor.Some? ==> first <= head)
    ensures Agrees(RunSyncs(store, steps), LastLog(log, steps), ks', start', first')
    ensures forall k | k in ks :: k in ks'
    ensures store.cursor.Some? ==> start' == start && first' == first
    ensures store.cursor.None? ==>
              if RunSyncs(store, steps).cursor.Some? then StartOf(store, steps) == Some((start', first'))
              else StartOf(store, steps) == None
    decreases steps
  {
    if steps == [] {
      ks', start', first' := ks, start, first;
    } else {
      var s := steps[0];
      GrowthKeepsAgreement(store, log, s.log, ks, start, first, head);
      var ks1, start1, first1 := OneSyncAgrees(store, s, ks, start, first);
      ks', start', first' := AnyRunAgrees(ApplySync(store, s), s.log, s.head, steps[1..], ks1, start1, first1);
      assert LastLog(log, steps) == LastLog(s.log, steps[1..]);
      CursorStays(ApplySync(store, s), steps[1..]);
    }
  }

  lemma {:induction false} CursorStays(store: Store, steps: seq<SyncStep>)
    ensures store.cursor.Some? ==> RunSyncs(store, steps).cursor.Some?
    decreases steps
  {
    if steps != [] {
      CursorStays(ApplySync(store, steps[0]), steps[1..]);
    }
  }

  lemma OneSyncAgrees(store: Store, s: SyncStep, ks: seq<nat>, start: nat, first: nat)
    returns (ks': seq<nat>, start': nat, first': nat)
    requires ValidLog(s.log) && Agrees(store, s.log, ks, start, first)
    requires s.oldest <= s.head && s.deployedAt <= s.head && s.latestLedger <= s.head && s.end <= |s.log|
    requires s.cursor.Some? ==> s.cursor.value.upto == s.end
    requires store.latestLedger <= s.head && (store.cursor.Some? ==> first <= s.head)
    ensures Agrees(ApplySync(store, s), s.log, ks', start', first')
    ensures forall k | k in ks :: k in ks'
    ensures store.cursor.Some? ==> start' == start && first' == first
    ensures store.cursor.None? ==> first' == FirstLedger(store, s) && start' == From(store, s.log, first')
    ensures ApplySync(store, s).cursor.Some? ==> first' <= s.head
    ensures ApplySync(store, s).latestLedger <= s.head
  {
    var ledger := FirstLedger(store, s);
    var from := From(store, s.log, ledger);
    ks', start', first' := ks, start, first;
    if store.cursor.None? {
      StartIsNotPastHead(s.deployedAt, s.oldest, store.latestLedger, s.head);
      start', first' := from, ledger;
      forall i, j | 0 <= i <= j < |s.log| ensures LedgerOf(s.log[i]) <= LedgerOf(s.log[j]) {
        LedgersAscend(s.log, i, j);
      }
      EntriesBeforeStartsLedger(s.log, ledger);
    }
    if s.succeeds && from <= s.end {
      SyncKeepsAgreement(store, s.log, ks, start', first', from, s.end, s.cursor, s.latestLedger);
      ks' := KeptAfter(s.log, ks, from, s.end);
    }
  }

  /** A successful sync that ends with a cursor is continued by the next one just where it ended. */
  lemma {:induction false} NextSyncContinues(store: Store, s: SyncStep, next: SyncStep)
    requires s.succeeds && From(store, s.log, FirstLedger(store, s)) <= s.end <= |s.log|
    requires s.cursor.Some? ==> s.cursor.value.upto == s.end
    ensures var after := ApplySync(store, s);
            && after.latestLedger == s.latestLedger
            && (s.cursor.Some? ==> From(after, next.log, FirstLedger(after, next)) == s.end)
            && (s.cursor.None? ==> after.cursor == store.cursor)
  {}

  /** When every sync succeeds with a cursor, the index is at the end of the last, however many there were. */
  lemma {:induction false} SyncsMoveOn(store: Store, log: seq<RpcEvent>, head: nat, steps: seq<SyncStep>)
    requires ValidSyncs(log, head, steps) && steps != []
    requires store.cursor.Some? ==> store.cursor.value.upto <= steps[0].end
    requires store.cursor.None? ==> From(store, steps[0].log, FirstLedger(store, steps[0])) <= steps[0].end
    requires forall i | 0 <= i < |steps| :: steps[i].succeeds && steps[i].cursor.Some?
    requires forall i | 0 < i < |steps| :: steps[i - 1].end <= steps[i].end
    ensures RunSyncs(store, steps).cursor == steps[|steps| - 1].cursor
    ensures RunSyncs(store, steps).latestLedger == steps[|steps| - 1].latestLedger
    decreases steps
  {
    var after, rest := ApplySync(store, steps[0]), steps[1..];
    NextSyncContinues(store, steps[0], steps[0]);
    if rest != [] {
      assert rest[0] == steps[1] && rest[|rest| - 1] == steps[|steps| - 1];
      SyncsMoveOn(after, steps[0].log, steps[0].head, rest);
    }
  }

  /** The empty store agrees with any source. */
  lemma EmptyStoreAgrees(log: seq<RpcEvent>, start: nat, first: nat)
    ensures Agrees(EMPTY_STORE, log, [], start, first)
  {}

  // ---------------------------------------------------------------- reading the index

  predicate Mentions(row: Row, account: string) {
    match row.payload
    case Register(a, _) => a == account
    case Merge(a) => a == account
    case Deposit(from, to, _) => from == account || to == account
    case Withdraw(from, to, _, _) => from == account || to == account
    case Transfer(from, to, _) => from == account || to == account
    case Other => false
  }

  function ListEvents(events: seq<Row>, account: string): seq<Row> {
    if events == [] then []
    else
      var front := ListEvents(events[..|events| - 1], account);
      if Mentions(events[|events| - 1], account) then front + [events[|events| - 1]] else front
  }

  /** The accounts that an event names. */
  function Named(p: Payload): set<string> {
    match p
    case Register(a, _) => {a}
    case Merge(a) => {a}
    case Deposit(from, to, _) => {from, to}
    case Withdraw(from, to, _, _) => {from, to}
    case Transfer(from, to, _) => {from, to}
    case Other => {}
  }

  /** What is served for an account is every saved row that names it, and nothing else. */
  lemma {:induction false} ListedIff(events: seq<Row>, account: string, row: Row)
    ensures row in ListEvents(events, account) <==> row in events && account in Named(row.payload)
  {
    if events != [] {
      var front, last := events[..|events| - 1], events[|events| - 1];
      assert events == front + [last];
      ListedIff(front, account, row);
    }
  }

  /** Going over events one by one, as a reader that keeps some state of type `T`. */
  function Replay<T>(events: seq<Row>, start: T, effect: (T, Row) -> T): T {
    if events == [] then start
    else effect(Replay(events[..|events| - 1], start, effect), events[|events| - 1])
  }

  /** The events that do not name the account leave the state they meet as it is. */
  ghost predicate IgnoresOthers<T>(events: seq<Row>, account: string, start: T, effect: (T, Row) -> T) {
    forall i | 0 <= i < |events| && account !in Named(events[i].payload) ::
      Replay(events[..i + 1], start, effect) == Replay(events[..i], start, effect)
  }

  /** For whoever is only interested in an account, its listed events come to what the whole log comes to, in order. */
  lemma {:induction false} ReplayOfListedEvents<T>(
    events: seq<Row>, account: string, start: T, effect: (T, Row) -> T)
    requires IgnoresOthers(events, account, start, effect)
    ensures Replay(ListEvents(events, account), start, effect) == Replay(events, start, effect)
  {
    if events != [] {
      var front, last := events[..|events| - 1], events[|events| - 1];
      assert forall i | 0 <= i < |front| :: front[i] == events[i] && front[..i + 1] == events[..i + 1];
      assert forall i | 0 <= i < |front| :: front[..i] == events[..i];
      ReplayOfListedEvents(front, account, start, effect);
      var listed := ListEvents(front, account);
      assert (listed + [last])[..|listed|] == listed;
      assert events[..|front| + 1] == events && events[..|front|] == front;
    }
  }

  /** All rows of the source, in order. */
  function SourceRows(log: seq<RpcEvent>): seq<Row> {
    if log == [] then []
    else
      var front := SourceRows(log[..|log| - 1]);
      if Known(log[|log| - 1]) then front + [RowOf(log[|log| - 1])] else front
  }

  lemma {:induction false} IncreasingLength(ks: seq<nat>, bound: nat)
    requires Increasing(ks) && forall i | 0 <= i < |ks| :: ks[i] < bound
    ensures |ks| <= bound
  {
    if ks != [] {
      IncreasingLength(ks[..|ks| - 1], ks[|ks| - 1]);
    }
  }

  lemma {:induction false} CompleteIndexIsTheSource(log: seq<RpcEvent>, ks: seq<nat>)
    requires InLog(log, ks) && Increasing(ks) && HasAll(log, ks, 0, |log|)
    requires forall i | 0 <= i < |ks| :: Known(log[ks[i]])
    ensures RowsAt(log, ks) == SourceRows(log)
    decreases |log|
  {
    if log == [] {
      IncreasingLength(ks, 0);
    } else {
      var n := |log| - 1;
      var front := KeptBelow(log, ks, n);
      CompleteIndexIsTheSource(log[..n], front);
      SameRows(log, n, front);
      if Known(log[n]) {
        RowsAtSnoc(log, front, n);
      }
    }
  }

  /** A complete selection ends with the last entry if that is known. */
  lemma KeptBelow(log: seq<RpcEvent>, ks: seq<nat>, n: nat) returns (front: seq<nat>)
    requires |log| == n + 1 && InLog(log, ks) && Increasing(ks) && HasAll(log, ks, 0, |log|)
    requires forall i | 0 <= i < |ks| :: Known(log[ks[i]])
    ensures ks == if Known(log[n]) then front + [n] else front
    ensures InLog(log[..n], front) && Increasing(front) && HasAll(log[..n], front, 0, n)
    ensures forall i | 0 <= i < |front| :: Known(log[..n][front[i]])
  {
    if Known(log[n]) {
      assert n in ks;
      front := ks[..|ks| - 1];
      assert ks[|ks| - 1] == n;
      assert ks == front + [n];
    } else {
      front := ks;
    }
  }

  lemma {:induction false} SameRows(log: seq<RpcEvent>, n: nat, ks: seq<nat>)
    requires n <= |log| && InLog(log, ks) && InLog(log[..n], ks)
    ensures RowsAt(log, ks) == RowsAt(log[..n], ks)
  {
    if ks != [] {
      SameRows(log, n, ks[..|ks| - 1]);
    }
  }

  /**
   An index read from the source's first event and caught up with it serves every account
   exactly what replaying the source itself would.
   */
  lemma {:induction false} CaughtUpIndexServesTheSource<T>(
    store: Store, log: seq<RpcEvent>, ks: seq<nat>, first: nat, account: string, start: T, effect: (T, Row) -> T)
    requires IgnoresOthers(SourceRows(log), account, start, effect)
    requires Agrees(store, log, ks, 0, first) && store.cursor.Some? && store.cursor.value.upto == |log|
    ensures store.events == SourceRows(log)
    ensures Replay(ListEvents(store.events, account), start, effect) == Replay(SourceRows(log), start, effect)
  {
    CompleteIndexIsTheSource(log, ks);
    ReplayOfListedEvents(store.events, account, start, effect);
  }

  /**
   End to end, from an empty store: after any run of syncs whose first to leave a cursor began no later
   than the source's first event, an index caught up with the source has exactly its rows.
   */
  lemma {:induction false} FreshIndexIsTheSource(
    log: seq<RpcEvent>, head: nat, steps: seq<SyncStep>, start: nat, first: nat)
    requires ValidSyncs(log, head, steps) && StartOf(EMPTY_STORE, steps) == Some((start, first))
    requires LastLog(log, steps) != [] ==> first <= LedgerOf(LastLog(log, steps)[0])
    requires var store := RunSyncs(EMPTY_STORE, steps);
             store.cursor.Some? && store.cursor.value.upto == |LastLog(log, steps)|
    ensures RunSyncs(EMPTY_STORE, steps).events == SourceRows(LastLog(log, steps))
  {
    EmptyStoreAgrees(log, start, first);
    var ks, start', first' := AnyRunAgrees(EMPTY_STORE, log, head, steps, [], start, first);
    CompleteIndexIsTheSource(LastLog(log, steps), ks);
  }

  /** So it serves every account what going over the source itself would give. */
  lemma {:induction false} FreshIndexServesTheSource<T>(
    log: seq<RpcEvent>, head: nat, steps: seq<SyncStep>, start: nat, first: nat, account: string, zero: T,
    effect: (T, Row) -> T)
    requires IgnoresOthers(SourceRows(LastLog(log, steps)), account, zero, effect)
    requires ValidSyncs(log, head, steps) && StartOf(EMPTY_STORE, steps) == Some((start, first))
    requires LastLog(log, steps) != [] ==> first <= LedgerOf(LastLog(log, steps)[0])
    requires var store := RunSyncs(EMPTY_STORE, steps);
             store.cursor.Some? && store.cursor.value.upto == |LastLog(log, steps)|
    ensures var store := RunSyncs(EMPTY_STORE, steps);
            && store.events == SourceRows(LastLog(log, steps))
            && Replay(ListEvents(store.events, account), zero, effect) ==
               Replay(SourceRows(LastLog(log, steps)), zero, effect)
  {
    FreshIndexIsTheSource(log, head, steps, start, first);
    ReplayOfListedEvents(SourceRows(LastLog(log, steps)), account, zero, effect);
  }

  // ---------------------------------------------------------------- reading to the head

  /**
   With truthful answers a sync that succeeds has read every entry of the ledgers before the latest: an
   answer that leaves one behind is followed by another request.
   */
  lemma SyncReadsToHead(log: seq<RpcEvent>, from: nat, pages: seq<Page>, first: Option<Cursor>, i: nat)
    requires Truthful(log, from, pages, first) && i < |pages|
    ensures Ends(pages, first, i) ==> HasServed(log, from + CountEvents(pages, i + 1), pages[i].latestLedger)
  {}

  /** Answer `i` says that nothing is left: no cursor, the same again, or one at the latest ledger or past it. */
  predicate SaysDone(pages: seq<Page>, first: Option<Cursor>, i: nat)
    requires i < |pages|
  {
    pages[i].cursor.Some? && pages[i].cursor != CursorBefore(pages, first, i) ==>
      pages[i].latestLedger <= pages[i].cursor.value.ledger
  }

  /**
   When the answers say so only if nothing is left, a sync that succeeds has read all of the log; when they
   do exactly then, it ends with the first answer that leaves nothing.
   */
  lemma SyncEndsWhenServed(log: seq<RpcEvent>, from: nat, pages: seq<Page>, first: Option<Cursor>, last: nat)
    requires forall i | 0 <= i < |pages| :: SaysDone(pages, first, i) ==> AllServed(log, from, pages, i)
    ensures EndsAt(pages, first, last) ==> AllServed(log, from, pages, last)
    ensures (forall i | 0 <= i < |pages| :: AllServed(log, from, pages, i) ==> SaysDone(pages, first, i)) ==>
              (EndsAt(pages, first, last) <==>
               && last < |pages| && AllServed(log, from, pages, last)
               && forall i | 0 <= i < last :: !AllServed(log, from, pages, i))
  {
    assert forall i | 0 <= i < |pages| :: Ends(pages, first, i) <==> SaysDone(pages, first, i);
  }

  /**
   End to end: one sync that succeeds takes an empty store to the source's rows of all ledgers before the
   latest, and a beginning of that; if that has none left, to every row of the source.
   */
  lemma {:induction false} OneSyncServesTheSource(
    log: seq<RpcEvent>, pages: seq<Page>, deployedAt: nat, oldest: nat, last: nat, end: nat)
    requires ValidLog(log) && From(EMPTY_STORE, log, StartLedger(deployedAt, oldest, 0)) == 0
    requires Answer(log, 0, pages, 0) && Truthful(log, 0, pages, None) && EndsAt(pages, None, last)
    requires end == CountEvents(pages, last + 1) <= |log|
    requires pages[last].cursor.Some? ==> pages[last].cursor.value.upto == end
    ensures HasServed(log, end, pages[last].latestLedger)
    ensures AfterSync(EMPTY_STORE, log[..end], pages[last].cursor, pages[last].latestLedger).events ==
            SourceRows(log[..end])
    ensures (forall j | 0 <= j < |log| :: LedgerOf(log[j]) < pages[last].latestLedger) ==> log[..end] == log
  {
    SyncReadsToHead(log, 0, pages, None, last);
    ReadFromTheStart(log[..end], pages[last].cursor, pages[last].latestLedger);
    if forall j | 0 <= j < |log| :: LedgerOf(log[j]) < pages[last].latestLedger {
      assert end == |log|;
    }
  }

  lemma {:induction false} ReadFromTheStart(log: seq<RpcEvent>, cursor: Option<Cursor>, latest: nat)
    requires ValidLog(log) && (cursor.Some? ==> cursor.value.upto == |log|)
    ensures AfterSync(EMPTY_STORE, log, cursor, latest).events == SourceRows(log)
  {
    assert log[0..|log|] == log;
    EmptyStoreAgrees(log, 0, 0);
    SyncKeepsAgreement(EMPTY_STORE, log, [], 0, 0, 0, |log|, cursor, latest);
    CompleteIndexIsTheSource(log, KeptAfter(log, [], 0, |log|));
  }
}
