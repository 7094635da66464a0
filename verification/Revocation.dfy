/**
 Revoking credential commitments: a log saved on disk beside a fixture, a revocation root
 on chain computed from the log, and a call that can fail at any point between the two.
 */
module Revocation {
  import opened Common
  import opened Numerals
  import opened Text
  import opened Accumulator

  datatype Error = BadCommitment | SaveFailed | NotConfigured | AdminKeyFailed | TransactionFailed

  // ---------------------------------------------------------------- commitments

  /** Drops one leading `0x` or `0X`. */
  function StripPrefix(s: string): string {
    if |s| >= 2 && s[0] == '0' && (s[1] == 'x' || s[1] == 'X') then s[2..] else s
  }

  function NormalizeCommitment(hex: string): Result<string, Error> {
    var h := Lower(StripPrefix(hex));
    if |h| == 64 && IsHexText(h) then Ok("0x" + h) else Err(BadCommitment)
  }

  predicate Normal(c: string) {
    |c| == 66 && c[0] == '0' && c[1] == 'x' && IsHexText(c[2..])
  }

  /** Normalizing yields normal text, which normalizing leaves alone. */
  lemma NormalizeIsIdempotent(hex: string)
    ensures NormalizeCommitment(hex).Ok? ==> Normal(NormalizeCommitment(hex).value)
    ensures NormalizeCommitment(hex) == Ok(hex) <==> Normal(hex)
  {
    var h := Lower(StripPrefix(hex));
    assert ("0x" + h)[2..] == h;
    if Normal(hex) {
      assert forall i | 0 <= i < 64 :: hex[2..][i] == hex[i + 2];
      assert h == hex[2..];
      assert "0x" + h == hex;
    }
  }

  /** A commitment as a number. */
  function CommitmentValue(c: string): nat {
    var h := Lower(StripPrefix(c));
    if IsHexText(h) then ParseHex(h) else 0
  }

  /** Hexadecimal text denotes its number, with or without a prefix and in either case. */
  lemma {:induction false} ValueOfHex(h: string)
    requires IsHexText(Lower(h))
    ensures CommitmentValue(h) == CommitmentValue("0x" + h) == CommitmentValue("0X" + h) == ParseHex(Lower(h))
  {
    if |h| >= 2 {
      assert IsHex(Lower(h)[1]) && h[1] != 'x' && h[1] != 'X';
    }
    assert ("0x" + h)[2..] == h && ("0X" + h)[2..] == h;
  }

  predicate IsWritten(t: string, h: string) {
    t == h || t == "0x" + h || t == "0X" + h
  }

  lemma {:induction false} StripWritten(t: string, h: string)
    requires IsWritten(t, h)
    ensures StripPrefix(t) == h || (t == h && |h| >= 2 && StripPrefix(t) == h[2..] && !IsHexText(Lower(h)))
  {
    if t != h {
      assert t[2..] == h;
    } else if StripPrefix(t) != h {
      assert !IsHex(Lower(h)[1]);
    }
  }

  lemma {:induction false} WrittenIsStripped(t: string)
    ensures IsWritten(t, StripPrefix(t))
  {
    if StripPrefix(t) != t {
      assert t == t[..2] + t[2..];
      assert t[..2] == "0x" || t[..2] == "0X";
    }
  }

  /** What normalizes are 64 hexadecimal digits in either case, prefixed or not; they become one text of that value. */
  lemma {:induction false} NormalizeReads(t: string, h: string)
    requires |h| == 64 && IsWritten(t, h)
    ensures NormalizeCommitment(t) == if IsHexText(Lower(h)) then Ok("0x" + Lower(h)) else Err(BadCommitment)
    ensures IsHexText(Lower(h)) ==> CommitmentValue("0x" + Lower(h)) == CommitmentValue(t)
  {
    StripWritten(t, h);
    if IsHexText(Lower(h)) {
      ValueOfWritten(t, h);
    }
  }

  lemma {:induction false} ValueOfWritten(t: string, h: string)
    requires IsWritten(t, h) && IsHexText(Lower(h))
    ensures CommitmentValue(t) == ParseHex(Lower(h)) == CommitmentValue("0x" + Lower(h))
  {
    LowerIsIdle(Lower(h));
    ValueOfHex(h);
    ValueOfHex(Lower(h));
  }

  /** Nothing else does. */
  lemma {:induction false} OnlyHexNormalizes(t: string) returns (h: string)
    requires NormalizeCommitment(t).Ok?
    ensures |h| == 64 && IsWritten(t, h) && IsHexText(Lower(h))
  {
    h := StripPrefix(t);
    WrittenIsStripped(t);
  }

  function CommitmentValues(cs: seq<string>): (ns: seq<nat>)
    ensures |ns| == |cs| && forall i | 0 <= i < |cs| :: ns[i] == CommitmentValue(cs[i])
  {
    seq(|cs|, i requires 0 <= i < |cs| => CommitmentValue(cs[i]))
  }

  function FirstEight<T>(xs: seq<T>): seq<T> {
    if |xs| > DEPTH then xs[..DEPTH] else xs
  }

  /** The revocation root of a list of commitments, of which the circuit holds eight. */
  function RevocationRoot(hash2: Hash2, commitments: seq<string>): string {
    RootOf(hash2, CommitmentValues(commitments))
  }

  /** Computing the two roots exhibits no collision of the hash. */
  predicate NoCollision(hash2: Hash2, xs: seq<string>, ys: seq<string>) {
    CollisionFree(hash2, Padded(CommitmentValues(xs)), Padded(CommitmentValues(ys)))
  }

  method ComputeRevocationWitness(hash2: Hash2, revoked: seq<string>) returns (root: string, siblings: seq<nat>)
    ensures root == RevocationRoot(hash2, revoked)
    ensures siblings == Padded(CommitmentValues(revoked))
  {
    var sibs := new nat[DEPTH](_ => 0);
    var list := FirstEight(revoked);
    ghost var values := CommitmentValues(revoked);
    for i := 0 to |list|
      invariant forall j | 0 <= j < i :: sibs[j] == values[j]
      invariant forall j | i <= j < DEPTH :: sibs[j] == 0
    {
      sibs[i] := CommitmentValue(list[i]);
    }
    siblings := sibs[..];
    assert siblings == Padded(values);
    assert Padded(siblings) == siblings;
    if |list| == 0 {
      root := ComputeRevocationRootFromSiblings(hash2, seq(DEPTH, _ => 0));
      assert Padded(seq(DEPTH, _ => 0)) == siblings;
    } else {
      root := ComputeRevocationRootFromSiblings(hash2, siblings);
    }
  }

  // ---------------------------------------------------------------- the saved log

  datatype Row = Row(commitment: string, reason: string, onChain: bool, txHash: Option<string>)

  function Commitments(rows: seq<Row>): (cs: seq<string>)
    ensures |cs| == |rows| && forall i | 0 <= i < |rows| :: cs[i] == rows[i].commitment
  {
    seq(|rows|, i requires 0 <= i < |rows| => rows[i].commitment)
  }

  predicate Lists(rows: seq<Row>, commitment: string) {
    exists i :: 0 <= i < |rows| && rows[i].commitment == commitment
  }

  /** The normalized commitment of a row. */
  function Form(row: Row): string
    requires NormalizeCommitment(row.commitment).Ok?
  {
    NormalizeCommitment(row.commitment).value
  }

  /** The rows after merging one row of a fallback. */
  function MergeOne(primary: seq<Row>, row: Row): seq<Row>
    requires NormalizeCommitment(row.commitment).Ok?
  {
    if Lists(primary, Form(row)) then primary else primary + [row.(commitment := Form(row))]
  }

  /** The rows of `primary`, then those of `fallback` that it lacks. */
  function MergeRevokedRows(primary: seq<Row>, fallback: seq<Row>): Result<seq<Row>, Error>
    decreases fallback
  {
    if fallback == [] then Ok(primary)
    else
      match NormalizeCommitment(fallback[0].commitment)
      case Err(e) => Err(e)
      case Ok(_) => MergeRevokedRows(MergeOne(primary, fallback[0]), fallback[1..])
  }

  /** The loop that grows `merged`. */
  method MergeRows(primary: seq<Row>, fallback: seq<Row>) returns (r: Result<seq<Row>, Error>)
    ensures r == MergeRevokedRows(primary, fallback)
  {
    var merged := primary;
    for i := 0 to |fallback|
      invariant MergeRevokedRows(primary, fallback) == MergeRevokedRows(merged, fallback[i..])
    {
      assert fallback[i..][1..] == fallback[i + 1..];
      var c :- NormalizeCommitment(fallback[i].commitment);
      if !Lists(merged, c) {
        merged := merged + [fallback[i].(commitment := c)];
      }
    }
    return Ok(merged);
  }

  function LoadRevoked(saved: seq<Row>, fixture: seq<Row>): Result<seq<Row>, Error> {
    if saved == [] then Ok(fixture) else MergeRevokedRows(saved, fixture)
  }

  /** Every commitment can be normalized. */
  predicate Normalizable(rows: seq<Row>) {
    forall i | 0 <= i < |rows| :: NormalizeCommitment(rows[i].commitment).Ok?
  }

  predicate NormalRows(rows: seq<Row>) {
    forall i | 0 <= i < |rows| :: Normal(rows[i].commitment)
  }

  /** Every normalized commitment of the fixture is listed. */
  predicate ListsForms(rows: seq<Row>, fixture: seq<Row>)
    requires Normalizable(fixture)
  {
    forall i | 0 <= i < |fixture| :: Lists(rows, Form(fixture[i]))
  }

  /** Merging adds row `i` of the fixture: its normalized commitment is not listed, and no earlier row has it. */
  predicate ComesBack(rows: seq<Row>, fixture: seq<Row>, i: nat)
    requires Normalizable(fixture)
  {
    && i < |fixture|
    && !Lists(rows, Form(fixture[i]))
    && forall j | 0 <= j < i :: Form(fixture[j]) != Form(fixture[i])
  }

  /** Whatever merging adds is not marked on chain. */
  predicate OnlyOffChainComesBack(rows: seq<Row>, fixture: seq<Row>)
    requires Normalizable(fixture)
  {
    forall i | 0 <= i < |fixture| && ComesBack(rows, fixture, i) :: !fixture[i].onChain
  }

  /** The rows from `from` on are not marked on chain. */
  predicate OffChainFrom(rows: seq<Row>, from: nat) {
    forall i | from <= i < |rows| :: !rows[i].onChain
  }

  lemma ListsAfterOne(primary: seq<Row>, row: Row, c: string)
    requires NormalizeCommitment(row.commitment).Ok?
    ensures Lists(MergeOne(primary, row), c) <==> Lists(primary, c) || c == Form(row)
  {
    var next := MergeOne(primary, row);
    if Lists(primary, c) {
      var i :| 0 <= i < |primary| && primary[i].commitment == c;
      assert next[i].commitment == c;
    }
    if next != primary {
      assert next[|primary|].commitment == Form(row);
      assert forall i | 0 <= i < |primary| :: next[i] == primary[i];
    }
  }

  lemma ComesBackLater(primary: seq<Row>, fixture: seq<Row>, i: nat)
    requires Normalizable(fixture) && 0 < i < |fixture|
    ensures Normalizable(fixture[1..])
    ensures ComesBack(primary, fixture, i) <==> ComesBack(MergeOne(primary, fixture[0]), fixture[1..], i - 1)
  {
    ListsAfterOne(primary, fixture[0], Form(fixture[i]));
    assert forall j | 0 <= j < |fixture[1..]| :: fixture[1..][j] == fixture[j + 1];
    if ComesBack(MergeOne(primary, fixture[0]), fixture[1..], i - 1) {
      forall j | 0 <= j < i ensures Form(fixture[j]) != Form(fixture[i]) {
        if j > 0 { assert fixture[1..][j - 1] == fixture[j]; }
      }
    }
  }

  lemma OffChainBackLater(primary: seq<Row>, fixture: seq<Row>)
    requires Normalizable(fixture) && fixture != []
    ensures Normalizable(fixture[1..])
    ensures OnlyOffChainComesBack(primary, fixture) <==>
            && (Lists(primary, Form(fixture[0])) || !fixture[0].onChain)
            && OnlyOffChainComesBack(MergeOne(primary, fixture[0]), fixture[1..])
  {
    var rest, next := fixture[1..], MergeOne(primary, fixture[0]);
    forall i | 0 < i < |fixture| ensures ComesBack(primary, fixture, i) <==> ComesBack(next, rest, i - 1) {
      ComesBackLater(primary, fixture, i);
    }
    assert forall j | 0 <= j < |rest| :: rest[j] == fixture[j + 1];
    assert ComesBack(primary, fixture, 0) <==> !Lists(primary, Form(fixture[0]));
    if OnlyOffChainComesBack(primary, fixture) {
      forall j | 0 <= j < |rest| && ComesBack(next, rest, j) ensures !rest[j].onChain {
        assert ComesBack(primary, fixture, j + 1);
      }
    }
    if OnlyOffChainComesBack(next, rest) && (Lists(primary, Form(fixture[0])) || !fixture[0].onChain) {
      forall i | 0 <= i < |fixture| && ComesBack(primary, fixture, i) ensures !fixture[i].onChain {
        if i > 0 { assert ComesBack(next, rest, i - 1) && rest[i - 1] == fixture[i]; }
      }
    }
  }

  lemma NormalizableCons(fixture: seq<Row>)
    requires fixture != []
    ensures Normalizable(fixture) <==>
              NormalizeCommitment(fixture[0].commitment).Ok? && Normalizable(fixture[1..])
  {
    assert forall j | 0 <= j < |fixture[1..]| :: fixture[1..][j] == fixture[j + 1];
    if NormalizeCommitment(fixture[0].commitment).Ok? && Normalizable(fixture[1..]) {
      forall i | 0 <= i < |fixture| ensures NormalizeCommitment(fixture[i].commitment).Ok? {
        if i > 0 { assert fixture[i] == fixture[1..][i - 1]; }
      }
    }
  }

  /**
   Merging succeeds exactly when the fixture can be normalized; it then only appends, leaves nothing of
   the fixture out, and adds rows marked on chain exactly when one comes back.
   */
  lemma {:induction false} MergeAppends(primary: seq<Row>, fixture: seq<Row>)
    ensures MergeRevokedRows(primary, fixture).Ok? <==> Normalizable(fixture)
    ensures Normalizable(fixture) ==>
              var merged := MergeRevokedRows(primary, fixture).value;
              && primary <= merged && ListsForms(merged, fixture)
              && (OffChainFrom(merged, |primary|) <==> OnlyOffChainComesBack(primary, fixture))
    decreases fixture
  {
    if fixture != [] {
      NormalizableCons(fixture);
      if NormalizeCommitment(fixture[0].commitment).Ok? {
        var next := MergeOne(primary, fixture[0]);
        MergeAppends(next, fixture[1..]);
        assert MergeRevokedRows(primary, fixture) == MergeRevokedRows(next, fixture[1..]);
        if Normalizable(fixture[1..]) {
          MergeStep(primary, fixture, next, MergeRevokedRows(next, fixture[1..]).value);
        }
      }
    }
  }

  lemma MergeStep(primary: seq<Row>, fixture: seq<Row>, next: seq<Row>, merged: seq<Row>)
    requires fixture != [] && Normalizable(fixture) && Normalizable(fixture[1..])
    requires next == MergeOne(primary, fixture[0]) && next <= merged && ListsForms(merged, fixture[1..])
    requires OffChainFrom(merged, |next|) <==> OnlyOffChainComesBack(next, fixture[1..])
    ensures primary <= merged && ListsForms(merged, fixture)
    ensures OffChainFrom(merged, |primary|) <==> OnlyOffChainComesBack(primary, fixture)
  {
    ListsAfterOne(primary, fixture[0], Form(fixture[0]));
    ListsMore(next, merged, Form(fixture[0]));
    forall i | 0 <= i < |fixture| ensures Lists(merged, Form(fixture[i])) {
      if i > 0 { assert fixture[i] == fixture[1..][i - 1]; }
    }
    OffChainBackLater(primary, fixture);
    if next != primary {
      assert merged[|primary|] == next[|primary|];
    }
  }

  lemma ListsMore(rows: seq<Row>, more: seq<Row>, c: string)
    requires rows <= more && Lists(rows, c)
    ensures Lists(more, c)
  {
    var i :| 0 <= i < |rows| && rows[i].commitment == c;
    assert more[i].commitment == c;
  }

  /** Loading what was saved gives it back, once the fixture is in it. */
  lemma {:induction false} LoadAfterSave(rows: seq<Row>, fixture: seq<Row>)
    requires rows != [] && Normalizable(fixture) && ListsForms(rows, fixture)
    ensures LoadRevoked(rows, fixture) == Ok(rows)
    decreases fixture
  {
    if fixture != [] {
      assert forall i | 0 <= i < |fixture[1..]| :: fixture[1..][i] == fixture[i + 1];
      LoadAfterSave(rows, fixture[1..]);
    }
  }

  // ---------------------------------------------------------------- the call

  datatype TxOutcome = Rejected | Landed | LandedButThrew

  /** How the steps outside this code turn out. */
  datatype Outcomes = Outcomes(
    firstSaveOk: bool,
    configured: bool,
    adminKeyOk: bool,
    tx: TxOutcome,
    txHash: Option<string>,
    secondSaveOk: bool)

  datatype Done = Done(alreadyRevoked: bool, commitment: string, count: nat)

  datatype State = State(saved: seq<Row>, chainRoot: string)

  function IndexOf(rows: seq<Row>, commitment: string): (i: nat)
    requires Lists(rows, commitment)
    ensures i < |rows| && rows[i].commitment == commitment
    ensures forall j | 0 <= j < i :: rows[j].commitment != commitment
  {
    if rows[0].commitment == commitment then 0 else 1 + IndexOf(rows[1..], commitment)
  }

  class Revoker {
    const fixture: seq<Row>
    const hash2: Hash2
    var saved: seq<Row>
    var chainRoot: string

    ghost function Current(): State
      reads this
    {
      State(saved, chainRoot)
    }

    constructor (fixture: seq<Row>, hash2: Hash2, s: State)
      ensures this.fixture == fixture && this.hash2 == hash2 && Current() == s
    {
      this.fixture := fixture;
      this.hash2 := hash2;
      saved := s.saved;
      chainRoot := s.chainRoot;
    }

    method RevokeCredential(commitment: string, reason: string, o: Outcomes) returns (r: Result<Done, Error>)
      modifies this
      ensures (Current(), r) == Revoke(old(Current()), fixture, hash2, commitment, reason, o)
    {
      var normalized :- NormalizeCommitment(commitment);
      var rows: seq<Row>;
      if saved == [] {
        rows := fixture;
      } else {
        var merged := MergeRows(saved, fixture);
        rows :- merged;
      }
      if Lists(rows, normalized) {
        if rows[IndexOf(rows, normalized)].onChain {
          return Ok(Done(true, normalized, |rows|));
        }
      } else {
        rows := rows + [Row(normalized, reason, false, None)];
        if !o.firstSaveOk {
          return Err(SaveFailed);
        }
        saved := rows;
      }
      assert Lists(rows, normalized) by {
        if rows[|rows| - 1].commitment == normalized {}
      }
      if !o.configured {
        return Err(NotConfigured);
      }
      var newRevRoot, siblings := ComputeRevocationWitness(hash2, Commitments(rows));
      if !o.adminKeyOk {
        return Err(AdminKeyFailed);
      }
      if o.tx.Rejected? {
        return Err(TransactionFailed);
      }
      chainRoot := newRevRoot;
      if o.tx.LandedButThrew? {
        return Err(TransactionFailed);
      }
      var idx := IndexOf(rows, normalized);
      rows := rows[idx := rows[idx].(onChain := true, txHash := o.txHash)];
      if !o.secondSaveOk {
        return Err(SaveFailed);
      }
      saved := rows;
      return Ok(Done(false, normalized, |rows|));
    }
  }

  /** The state after a call, and what it returns. */
  function Revoke(s: State, fixture: seq<Row>, hash2: Hash2, commitment: string, reason: string, o: Outcomes)
    : (State, Result<Done, Error>)
  {
    match NormalizeCommitment(commitment)
    case Err(e) => (s, Err(e))
    case Ok(c) =>
      match LoadRevoked(s.saved, fixture)
      case Err(e) => (s, Err(e))
      case Ok(rows) =>
        if Lists(rows, c) then
          if rows[IndexOf(rows, c)].onChain then (s, Ok(Done(true, c, |rows|)))
          else Publish(s, hash2, rows, c, o)
        else if !o.firstSaveOk then (s, Err(SaveFailed))
        else
          var all := rows + [Row(c, reason, false, None)];
          assert all[|rows|].commitment == c;
          Publish(s.(saved := all), hash2, all, c, o)
  }

  /** The part of a call after the log holds the commitment. */
  function Publish(s: State, hash2: Hash2, rows: seq<Row>, c: string, o: Outcomes): (State, Result<Done, Error>)
    requires Lists(rows, c)
  {
    if !o.configured then (s, Err(NotConfigured))
    else if !o.adminKeyOk then (s, Err(AdminKeyFailed))
    else if o.tx.Rejected? then (s, Err(TransactionFailed))
    else
      var published := s.(chainRoot := RevocationRoot(hash2, Commitments(rows)));
      if o.tx.LandedButThrew? then (published, Err(TransactionFailed))
      else if !o.secondSaveOk then (published, Err(SaveFailed))
      else
        var i := IndexOf(rows, c);
        (published.(saved := rows[i := rows[i].(onChain := true, txHash := o.txHash)]), Ok(Done(false, c, |rows|)))
  }

  // ---------------------------------------------------------------- the log and the chain stay in step

  /** The chain's root is that of the first `k` rows of the log, and no later row is marked on chain. */
  predicate InStep(s: State, fixture: seq<Row>, hash2: Hash2, k: nat) {
    match LoadRevoked(s.saved, fixture)
    case Err(_) => false
    case Ok(rows) =>
      && k <= |rows|
      && s.chainRoot == RevocationRoot(hash2, Commitments(rows)[..k])
      && forall i | k <= i < |rows| :: !rows[i].onChain
  }

  /** Loading succeeds exactly when the fixture can be normalized or nothing was saved; what was saved comes first. */
  lemma LoadedLog(saved: seq<Row>, fixture: seq<Row>)
    ensures LoadRevoked(saved, fixture).Ok? <==> saved == [] || Normalizable(fixture)
    ensures LoadRevoked(saved, fixture).Ok? ==> saved <= LoadRevoked(saved, fixture).value
    ensures saved != [] && Normalizable(fixture) ==> ListsForms(LoadRevoked(saved, fixture).value, fixture)
  {
    MergeAppends(saved, fixture);
  }

  lemma {:induction false} CoversAll(s: State, fixture: seq<Row>, hash2: Hash2, rows: seq<Row>)
    requires LoadRevoked(s.saved, fixture) == Ok(rows) && s.chainRoot == RevocationRoot(hash2, Commitments(rows))
    ensures InStep(s, fixture, hash2, |rows|)
  {
    assert Commitments(rows)[..|rows|] == Commitments(rows);
  }

  /** Past the eighth, commitments do not change the root. */
  lemma {:induction false} EightDecide(hash2: Hash2, xs: seq<string>, ys: seq<string>)
    requires |xs| >= DEPTH && |ys| >= DEPTH && xs[..DEPTH] == ys[..DEPTH]
    ensures RevocationRoot(hash2, xs) == RevocationRoot(hash2, ys)
  {
    assert forall i | 0 <= i < DEPTH :: xs[i] == xs[..DEPTH][i] == ys[i];
    assert Padded(CommitmentValues(xs)) == Padded(CommitmentValues(ys));
  }

  lemma OffChainOfMore(rows: seq<Row>, more: seq<Row>, p: nat)
    requires rows <= more && p <= |rows| && OffChainFrom(rows, p) && OffChainFrom(more, |rows|)
    ensures OffChainFrom(more, p)
  {
    forall i | p <= i < |more| ensures !more[i].onChain {
      if i < |rows| { assert more[i] == rows[i]; }
    }
  }

  lemma CommitmentsOfMore(rows: seq<Row>, more: seq<Row>, p: nat)
    requires rows <= more && p <= |rows|
    ensures Commitments(more)[..p] == Commitments(rows)[..p]
  {}

  /**
   A saved log is in step when the chain covers its first `p` rows and no later one is on chain, provided
   that merging the fixture brings no row back on chain, or that the chain covers eight rows already.
   */
  lemma {:induction false} SavedStaysInStep(s: State, fixture: seq<Row>, hash2: Hash2, p: nat) returns (k: nat)
    requires Normalizable(fixture) && s.saved != [] && p <= |s.saved| && OffChainFrom(s.saved, p)
    requires s.chainRoot == RevocationRoot(hash2, Commitments(s.saved)[..p])
    requires p >= DEPTH || OnlyOffChainComesBack(s.saved, fixture)
    ensures InStep(s, fixture, hash2, k) && p <= k && (OnlyOffChainComesBack(s.saved, fixture) ==> k == p)
  {
    MergeAppends(s.saved, fixture);
    var loaded := MergeRevokedRows(s.saved, fixture).value;
    CommitmentsOfMore(s.saved, loaded, p);
    if OnlyOffChainComesBack(s.saved, fixture) {
      k := p;
      OffChainOfMore(s.saved, loaded, p);
    } else {
      k := |loaded|;
      CommitmentsOfMore(s.saved, loaded, DEPTH);
      var covered := Commitments(s.saved)[..p];
      assert Commitments(loaded)[..DEPTH] == covered[..DEPTH];
      EightDecide(hash2, covered, Commitments(loaded));
      CoversAll(s, fixture, hash2, loaded);
    }
  }

  lemma ListedInMore(rows: seq<Row>, more: seq<Row>, c: string)
    requires Commitments(rows) <= Commitments(more) && Lists(rows, c)
    ensures Lists(more, c)
  {
    var j :| 0 <= j < |rows| && rows[j].commitment == c;
    assert more[j].commitment == Commitments(more)[j] == Commitments(rows)[j];
  }

  /** A longer log keeps the fixture's forms, and lets no more of the fixture come back. */
  lemma MoreListed(rows: seq<Row>, more: seq<Row>, fixture: seq<Row>)
    requires Normalizable(fixture) && Commitments(rows) <= Commitments(more)
    ensures ListsForms(rows, fixture) ==> ListsForms(more, fixture)
    ensures OnlyOffChainComesBack(rows, fixture) ==> OnlyOffChainComesBack(more, fixture)
  {
    forall i | 0 <= i < |fixture| && Lists(rows, Form(fixture[i])) ensures Lists(more, Form(fixture[i])) {
      ListedInMore(rows, more, Form(fixture[i]));
    }
    if OnlyOffChainComesBack(rows, fixture) {
      forall i | 0 <= i < |fixture| && ComesBack(more, fixture, i) ensures !fixture[i].onChain {
        assert ComesBack(rows, fixture, i);
      }
    }
  }

  /**
   What a state needs of its fixture: that it can be normalized, and that before anything is saved no row
   on chain would come back from it, unless the chain covers eight rows already.
   */
  predicate Safe(s: State, fixture: seq<Row>, k: nat) {
    Normalizable(fixture) && (s.saved == [] ==> k >= DEPTH || OnlyOffChainComesBack(fixture, fixture))
  }

  /** Rows that may be saved: the chain covers eight of them, or merging brings none back on chain. */
  predicate Savable(rows: seq<Row>, fixture: seq<Row>, k: nat)
    requires Normalizable(fixture)
  {
    k <= |rows| && (k >= DEPTH || OnlyOffChainComesBack(rows, fixture))
  }

  lemma LoadedIsSavable(s: State, fixture: seq<Row>, k: nat, rows: seq<Row>, more: seq<Row>)
    requires Safe(s, fixture, k) && LoadRevoked(s.saved, fixture) == Ok(rows) && k <= |rows|
    requires Commitments(rows) <= Commitments(more)
    ensures Savable(more, fixture, k)
    ensures s.saved != [] || NormalRows(fixture) ==> ListsForms(more, fixture)
  {
    LoadedLog(s.saved, fixture);
    if s.saved == [] && NormalRows(fixture) {
      NormalListsItself(fixture);
    }
    MoreListed(rows, more, fixture);
  }

  lemma NormalListsItself(fixture: seq<Row>)
    requires NormalRows(fixture)
    ensures Normalizable(fixture) && ListsForms(fixture, fixture)
  {
    forall i | 0 <= i < |fixture|
      ensures NormalizeCommitment(fixture[i].commitment) == Ok(fixture[i].commitment)
      ensures Lists(fixture, fixture[i].commitment)
    {
      NormalizeIsIdempotent(fixture[i].commitment);
    }
  }

  /** A normalized fixture is safe. */
  lemma NormalIsSafe(s: State, fixture: seq<Row>, k: nat)
    requires NormalRows(fixture)
    ensures Safe(s, fixture, k)
  {
    NormalListsItself(fixture);
  }

  /** Marking a row on chain after publishing everything keeps the two in step. */
  lemma {:induction false} MarkedStaysInStep(
    s: State, fixture: seq<Row>, hash2: Hash2, rows: seq<Row>, i: nat, txHash: Option<string>, k: nat) returns (k': nat)
    requires Normalizable(fixture) && i < |rows| && Savable(rows, fixture, k)
    requires s.saved == rows[i := rows[i].(onChain := true, txHash := txHash)]
    requires s.chainRoot == RevocationRoot(hash2, Commitments(rows))
    ensures InStep(s, fixture, hash2, k') && |rows| <= k'
    ensures ListsForms(rows, fixture) ==> LoadRevoked(s.saved, fixture) == Ok(s.saved) && k' == |s.saved|
  {
    assert Commitments(s.saved) == Commitments(rows);
    assert Commitments(rows)[..|rows|] == Commitments(rows);
    MoreListed(rows, s.saved, fixture);
    k' := SavedStaysInStep(s, fixture, hash2, |rows|);
    if ListsForms(rows, fixture) {
      LoadAfterSave(s.saved, fixture);
    }
  }

  /** A step from `s` that keeps log and chain in step, and makes the chain cover `count` rows on success. */
  predicate Keeps(
    s: State, k: nat, after: (State, Result<Done, Error>), k': nat, fixture: seq<Row>, hash2: Hash2, count: nat,
    whole: bool)
  {
    && InStep(after.0, fixture, hash2, k') && k <= k'
    && (after.0.saved == s.saved || after.0.saved != [])
    && (after.1.Ok? && !after.1.value.alreadyRevoked ==> |after.0.saved| == count <= k')
    && (after.1.Ok? && !after.1.value.alreadyRevoked && whole ==>
          LoadRevoked(after.0.saved, fixture) == Ok(after.0.saved) && k' == count)
  }

  /** Publishing keeps the two in step, whatever fails; on success the chain covers all that was published. */
  lemma {:induction false} PublishKeepsInStep(
    s: State, fixture: seq<Row>, hash2: Hash2, rows: seq<Row>, c: string, o: Outcomes, k: nat, k1: nat)
        returns (k': nat)
    requires Normalizable(fixture) && Lists(rows, c) && Savable(rows, fixture, k)
    requires InStep(s, fixture, hash2, k1) && k <= k1
    requires s.saved == rows || LoadRevoked(s.saved, fixture) == Ok(rows)
    ensures Keeps(s, k, Publish(s, hash2, rows, c, o), k', fixture, hash2, |rows|, ListsForms(rows, fixture))
  {
    var (s', r) := Publish(s, hash2, rows, c, o);
    if !o.configured || !o.adminKeyOk || o.tx.Rejected? {
      k' := k1;
    } else if r.Ok? {
      k' := MarkedStaysInStep(s', fixture, hash2, rows, IndexOf(rows, c), o.txHash, k);
    } else {
      k' := UnmarkedStaysInStep(s', fixture, hash2, rows, k);
    }
  }

  /** So does publishing everything without marking a row. */
  lemma {:induction false} UnmarkedStaysInStep(s: State, fixture: seq<Row>, hash2: Hash2, rows: seq<Row>, k: nat)
    returns (k': nat)
    requires Normalizable(fixture) && rows != [] && Savable(rows, fixture, k)
    requires s.saved == rows || LoadRevoked(s.saved, fixture) == Ok(rows)
    requires s.chainRoot == RevocationRoot(hash2, Commitments(rows))
    ensures InStep(s, fixture, hash2, k') && |rows| <= k'
  {
    if s.saved == rows {
      assert Commitments(rows)[..|rows|] == Commitments(rows);
      k' := SavedStaysInStep(s, fixture, hash2, |rows|);
    } else {
      k' := |rows|;
      CoversAll(s, fixture, hash2, rows);
    }
  }

  /** Saving the log with one more row, not on chain yet, keeps the two in step. */
  lemma {:induction false} AppendKeepsInStep(
    s: State, fixture: seq<Row>, hash2: Hash2, rows: seq<Row>, row: Row, all: seq<Row>, k: nat)
    returns (k': nat)
    requires InStep(s, fixture, hash2, k) && LoadRevoked(s.saved, fixture) == Ok(rows)
    requires Normalizable(fixture) && all == rows + [row] && !row.onChain && Savable(all, fixture, k)
    ensures InStep(s.(saved := all), fixture, hash2, k') && k <= k'
    ensures OnlyOffChainComesBack(all, fixture) ==> k' == k
  {
    assert Commitments(all) == Commitments(rows) + [row.commitment];
    assert Commitments(all)[..k] == Commitments(rows)[..k];
    k' := SavedStaysInStep(s.(saved := all), fixture, hash2, k);
  }

  /** The call for a commitment that is not listed yet, once the log with it is saved. */
  lemma {:induction false} NewRevocationKeepsInStep(
    s: State, fixture: seq<Row>, hash2: Hash2, rows: seq<Row>, row: Row, all: seq<Row>, o: Outcomes, k: nat)
    returns (k': nat)
    requires Safe(s, fixture, k) && InStep(s, fixture, hash2, k) && LoadRevoked(s.saved, fixture) == Ok(rows)
    requires all == rows + [row] && !row.onChain
    ensures Lists(all, row.commitment)
    ensures Keeps(s, k, Publish(s.(saved := all), hash2, all, row.commitment, o), k', fixture, hash2, |all|,
                  s.saved != [] || NormalRows(fixture))
  {
    assert all[|rows|].commitment == row.commitment;
    assert Commitments(all) == Commitments(rows) + [row.commitment];
    LoadedIsSavable(s, fixture, k, rows, all);
    var k1 := AppendKeepsInStep(s, fixture, hash2, rows, row, all, k);
    k' := PublishKeepsInStep(s.(saved := all), fixture, hash2, all, row.commitment, o, k, k1);
  }

  lemma {:induction false} ListedRevocationKeepsInStep(
    s: State, fixture: seq<Row>, hash2: Hash2, rows: seq<Row>, c: string, o: Outcomes, k: nat) returns (k': nat)
    requires Safe(s, fixture, k) && InStep(s, fixture, hash2, k) && LoadRevoked(s.saved, fixture) == Ok(rows)
    requires Lists(rows, c)
    ensures Keeps(s, k, Publish(s, hash2, rows, c, o), k', fixture, hash2, |rows|, s.saved != [] || NormalRows(fixture))
  {
    LoadedIsSavable(s, fixture, k, rows, rows);
    k' := PublishKeepsInStep(s, fixture, hash2, rows, c, o, k, k);
  }

  /** How many rows the log holds when a call publishes it. */
  function Published(s: State, fixture: seq<Row>, commitment: string): nat {
    match (NormalizeCommitment(commitment), LoadRevoked(s.saved, fixture))
    case (Ok(c), Ok(rows)) => if Lists(rows, c) then |rows| else |rows| + 1
    case (Err(_), _) => 0
    case (Ok(_), Err(_)) => 0
  }

  /**
   Every call, whether it returns or throws anywhere, keeps the log and the chain in step. One that
   revokes makes the chain cover all that the log held then, and with a normalized fixture the whole log.
   */
  lemma {:induction false} RevokeKeepsInStep(
    s: State, fixture: seq<Row>, hash2: Hash2, commitment: string, reason: string, o: Outcomes, k: nat)
        returns (k': nat)
    requires Safe(s, fixture, k) && InStep(s, fixture, hash2, k)
    ensures Keeps(s, k, Revoke(s, fixture, hash2, commitment, reason, o), k', fixture, hash2,
                  Published(s, fixture, commitment), s.saved != [] || NormalRows(fixture))
  {
    k' := k;
    var n := NormalizeCommitment(commitment);
    if n.Ok? {
      var c := n.value;
      var rows := LoadRevoked(s.saved, fixture).value;
      if Lists(rows, c) {
        if !rows[IndexOf(rows, c)].onChain {
          k' := ListedRevocationKeepsInStep(s, fixture, hash2, rows, c, o, k);
        }
      } else if o.firstSaveOk {
        var row := Row(c, reason, false, None);
        k' := NewRevocationKeepsInStep(s, fixture, hash2, rows, row, rows + [row], o, k);
      }
    }
  }

  /** The first row with the commitment is marked on chain, and the chain covers it. */
  predicate Revoked(rows: seq<Row>, c: string, covered: nat) {
    Lists(rows, c) && IndexOf(rows, c) < covered && rows[IndexOf(rows, c)].onChain
  }

  lemma {:induction false} IndexInMore(rows: seq<Row>, more: seq<Row>, c: string)
    requires Commitments(rows) <= Commitments(more) && Lists(rows, c)
    ensures Lists(more, c) && IndexOf(more, c) == IndexOf(rows, c)
  {
    var i := IndexOf(rows, c);
    forall j | 0 <= j < |rows| ensures more[j].commitment == rows[j].commitment {
      assert Commitments(more)[j] == Commitments(rows)[j];
    }
  }

  lemma {:induction false} MarkedInMore(rows: seq<Row>, c: string, txHash: Option<string>, more: seq<Row>)
    requires Lists(rows, c)
    requires var i := IndexOf(rows, c); rows[i := rows[i].(onChain := true, txHash := txHash)] <= more
    ensures Revoked(more, c, |rows|)
  {
    var i := IndexOf(rows, c);
    var marked := rows[i := rows[i].(onChain := true, txHash := txHash)];
    assert Commitments(marked) == Commitments(rows);
    assert Commitments(rows) <= Commitments(more);
    IndexInMore(rows, more, c);
    assert more[i] == marked[i];
  }

  lemma {:induction false} PublishRevokes(
    s: State, fixture: seq<Row>, hash2: Hash2, rows: seq<Row>, c: string, o: Outcomes,
    after: (State, Result<Done, Error>), k: nat)
    requires Lists(rows, c) && after == Publish(s, hash2, rows, c, o) && after.1.Ok?
    requires InStep(after.0, fixture, hash2, k) && |rows| <= k
    ensures after.1 == Ok(Done(false, c, |rows|)) && Revoked(LoadRevoked(after.0.saved, fixture).value, c, k)
  {
    LoadedLog(after.0.saved, fixture);
    MarkedInMore(rows, c, o.txHash, LoadRevoked(after.0.saved, fixture).value);
  }

  /** A call that does not find its commitment revoked, and saves it, ends by publishing the log with it. */
  lemma {:induction false} RevokePublishes(
    s: State, fixture: seq<Row>, hash2: Hash2, commitment: string, reason: string, o: Outcomes, c: string,
    rows: seq<Row>) returns (t: State, all: seq<Row>)
    requires NormalizeCommitment(commitment) == Ok(c) && LoadRevoked(s.saved, fixture) == Ok(rows)
    requires Lists(rows, c) ==> !rows[IndexOf(rows, c)].onChain
    requires Lists(rows, c) || o.firstSaveOk
    ensures Lists(all, c) && |all| == Published(s, fixture, commitment) && |rows| <= |all|
    ensures Revoke(s, fixture, hash2, commitment, reason, o) == Publish(t, hash2, all, c, o)
  {
    if Lists(rows, c) {
      t, all := s, rows;
    } else {
      all := rows + [Row(c, reason, false, None)];
      t := s.(saved := all);
      assert all[|rows|].commitment == c;
    }
  }

  /** After the call the commitment is revoked, and the answer says whether it was before. */
  predicate HasRevoked(
    s: State, k: nat, after: (State, Result<Done, Error>), k': nat, fixture: seq<Row>, hash2: Hash2, c: string,
    rows: seq<Row>)
  {
    && InStep(after.0, fixture, hash2, k') && k <= k'
    && Revoked(LoadRevoked(after.0.saved, fixture).value, c, k')
    && after.1.Ok? && after.1.value.commitment == c
    && (after.1.value.alreadyRevoked <==> Revoked(rows, c, k))
    && (after.1.value.alreadyRevoked ==> after.0 == s)
  }

  /**
   A call that returns has revoked its commitment: the log lists it as marked on chain, in a row the chain
   covers. It says "already revoked" exactly if that was so before the call, which then changes nothing.
   */
  lemma {:induction false} RevokedWhenReturned(
    s: State, fixture: seq<Row>, hash2: Hash2, commitment: string, reason: string, o: Outcomes, k: nat)
        returns (k': nat)
    requires Safe(s, fixture, k) && InStep(s, fixture, hash2, k)
    requires Revoke(s, fixture, hash2, commitment, reason, o).1.Ok?
    ensures NormalizeCommitment(commitment).Ok?
    ensures HasRevoked(s, k, Revoke(s, fixture, hash2, commitment, reason, o), k', fixture, hash2,
                       NormalizeCommitment(commitment).value, LoadRevoked(s.saved, fixture).value)
  {
    var c := NormalizeCommitment(commitment).value;
    var rows := LoadRevoked(s.saved, fixture).value;
    var after := Revoke(s, fixture, hash2, commitment, reason, o);
    k' := k;
    if !Lists(rows, c) || !rows[IndexOf(rows, c)].onChain {
      k' := RevokeKeepsInStep(s, fixture, hash2, commitment, reason, o, k);
      var t, all := RevokePublishes(s, fixture, hash2, commitment, reason, o, c, rows);
      PublishSays(t, hash2, all, c, o, after);
      PublishRevokes(t, fixture, hash2, all, c, o, after, k');
    }
  }

  lemma PublishSays(
    s: State, hash2: Hash2, rows: seq<Row>, c: string, o: Outcomes, after: (State, Result<Done, Error>))
    requires Lists(rows, c) && after == Publish(s, hash2, rows, c, o) && after.1.Ok?
    ensures !after.1.value.alreadyRevoked
  {}

  /** A call returns exactly when nothing it has to do fails; only a transaction that lands moves the chain's root. */
  lemma {:induction false} ReturnsIff(
    s: State, fixture: seq<Row>, hash2: Hash2, commitment: string, reason: string, o: Outcomes, k: nat)
    requires Safe(s, fixture, k) && InStep(s, fixture, hash2, k)
    ensures var (s', r) := Revoke(s, fixture, hash2, commitment, reason, o);
            var c, rows := NormalizeCommitment(commitment), LoadRevoked(s.saved, fixture).value;
            && (r.Ok? <==>
                  c.Ok? && (Revoked(rows, c.value, k)
                            || (o.configured && o.adminKeyOk && o.tx.Landed? && o.secondSaveOk
                                && (o.firstSaveOk || Lists(rows, c.value)))))
            && (s'.chainRoot != s.chainRoot ==> !o.tx.Rejected? && c.Ok? && !Revoked(rows, c.value, k))
  {}

  datatype Call = Call(commitment: string, reason: string, outcomes: Outcomes)

  function Run(s: State, fixture: seq<Row>, hash2: Hash2, calls: seq<Call>): State
    decreases calls
  {
    if calls == [] then s
    else
      var after := Revoke(s, fixture, hash2, calls[0].commitment, calls[0].reason, calls[0].outcomes).0;
      Run(after, fixture, hash2, calls[1..])
  }

  /** In every reachable state the chain's root covers a prefix of the log that holds every row marked on chain. */
  lemma {:induction false} EveryRunStaysInStep(s: State, fixture: seq<Row>, hash2: Hash2, calls: seq<Call>, k: nat)
    returns (k': nat)
    requires Safe(s, fixture, k) && InStep(s, fixture, hash2, k)
    ensures InStep(Run(s, fixture, hash2, calls), fixture, hash2, k') && k <= k'
    decreases calls
  {
    k' := k;
    if calls != [] {
      var c := calls[0];
      k' := RevokeKeepsInStep(s, fixture, hash2, c.commitment, c.reason, c.outcomes, k);
      var next := Revoke(s, fixture, hash2, c.commitment, c.reason, c.outcomes).0;
      assert Safe(next, fixture, k');
      k' := EveryRunStaysInStep(next, fixture, hash2, calls[1..], k');
    }
  }

  /** Every row is still there as it was, except that the one at `i` may have been marked on chain. */
  predicate RowsStay(rows: seq<Row>, more: seq<Row>, i: nat, txHash: Option<string>) {
    && |rows| <= |more|
    && (forall j | 0 <= j < |rows| && j != i :: more[j] == rows[j])
    && (i < |rows| ==> more[i] == rows[i] || more[i] == rows[i].(onChain := true, txHash := txHash))
  }

  /** The row a call is about: the first with its commitment, or the one it appends. */
  function RowFor(rows: seq<Row>, c: string): nat {
    if Lists(rows, c) then IndexOf(rows, c) else |rows|
  }

  lemma {:induction false} PublishKeepsRows(
    s: State, fixture: seq<Row>, hash2: Hash2, rows: seq<Row>, c: string, o: Outcomes, after: State)
    requires Lists(rows, c) && after == Publish(s, hash2, rows, c, o).0 && LoadRevoked(after.saved, fixture).Ok?
    requires s.saved == rows || LoadRevoked(s.saved, fixture) == Ok(rows)
    ensures RowsStay(rows, LoadRevoked(after.saved, fixture).value, IndexOf(rows, c), o.txHash)
  {
    LoadedLog(after.saved, fixture);
    var i := IndexOf(rows, c);
    if after.saved != s.saved {
      var marked := rows[i].(onChain := true, txHash := o.txHash);
      assert after.saved == rows[i := marked];
      assert forall j | 0 <= j < |rows| :: LoadRevoked(after.saved, fixture).value[j] == after.saved[j];
    }
  }

  /** No call, whatever fails, drops a row or alters any but its own, which it can only mark or append. */
  lemma {:induction false} CallKeepsRows(
    s: State, fixture: seq<Row>, hash2: Hash2, commitment: string, c: string, reason: string, o: Outcomes,
    rows: seq<Row>, after: State)
    requires Normalizable(fixture) && LoadRevoked(s.saved, fixture) == Ok(rows)
    requires NormalizeCommitment(commitment) == Ok(c)
    requires after == Revoke(s, fixture, hash2, commitment, reason, o).0
    ensures LoadRevoked(after.saved, fixture).Ok?
    ensures RowsStay(rows, LoadRevoked(after.saved, fixture).value, RowFor(rows, c), o.txHash)
    ensures Lists(rows, c) && rows[IndexOf(rows, c)].onChain ==> after == s
    ensures !Lists(rows, c) && after.saved != s.saved ==>
              var more := LoadRevoked(after.saved, fixture).value;
              |rows| < |more| && more[|rows|].commitment == c && more[|rows|].reason == reason
  {
    LoadedLog(after.saved, fixture);
    if Lists(rows, c) {
      if !rows[IndexOf(rows, c)].onChain {
        PublishKeepsRows(s, fixture, hash2, rows, c, o, after);
      }
    } else if o.firstSaveOk {
      var all := rows + [Row(c, reason, false, None)];
      FirstIndex(rows, all[|rows|], all);
      PublishKeepsRows(s.(saved := all), fixture, hash2, all, c, o, after);
    }
  }

  lemma {:induction false} RevokedStays(
    rows: seq<Row>, more: seq<Row>, c: string, i: nat, txHash: Option<string>, k: nat)
    requires RowsStay(rows, more, i, txHash) && Revoked(rows, c, k)
    ensures Revoked(more, c, k)
  {
    assert forall j | 0 <= j < |rows| :: more[j].commitment == rows[j].commitment;
    assert Commitments(rows) <= Commitments(more);
    IndexInMore(rows, more, c);
  }

  /** What is revoked stays revoked, over every run. */
  lemma {:induction false} RevokedForever(
    s: State, fixture: seq<Row>, hash2: Hash2, calls: seq<Call>, k: nat, c: string) returns (k': nat)
    requires Safe(s, fixture, k) && InStep(s, fixture, hash2, k)
    requires Revoked(LoadRevoked(s.saved, fixture).value, c, k)
    ensures var after := Run(s, fixture, hash2, calls);
            && InStep(after, fixture, hash2, k') && k <= k'
            && Revoked(LoadRevoked(after.saved, fixture).value, c, k')
    decreases calls
  {
    k' := k;
    if calls != [] {
      var call, rows := calls[0], LoadRevoked(s.saved, fixture).value;
      var next := Revoke(s, fixture, hash2, call.commitment, call.reason, call.outcomes).0;
      k' := RevokeKeepsInStep(s, fixture, hash2, call.commitment, call.reason, call.outcomes, k);
      var n := NormalizeCommitment(call.commitment);
      if n.Ok? {
        CallKeepsRows(s, fixture, hash2, call.commitment, n.value, call.reason, call.outcomes, rows, next);
        var i := RowFor(rows, n.value);
        RevokedStays(rows, LoadRevoked(next.saved, fixture).value, c, i, call.outcomes.txHash, k);
      }
      assert Revoked(LoadRevoked(next.saved, fixture).value, c, k');
      k' := RevokedForever(next, fixture, hash2, calls[1..], k', c);
    }
  }

  function Deployed(fixture: seq<Row>, hash2: Hash2): State {
    State([], RevocationRoot(hash2, Commitments(fixture)))
  }

  /** A new deployment, whose chain has the fixture's root, starts in step, and safe if its fixture is normalized. */
  lemma {:induction false} DeploymentStartsInStep(fixture: seq<Row>, hash2: Hash2)
    ensures InStep(Deployed(fixture, hash2), fixture, hash2, |fixture|)
    ensures NormalRows(fixture) ==> Safe(Deployed(fixture, hash2), fixture, |fixture|)
  {
    if NormalRows(fixture) {
      NormalIsSafe(Deployed(fixture, hash2), fixture, |fixture|);
    }
    CoversAll(Deployed(fixture, hash2), fixture, hash2, fixture);
  }

  // ---------------------------------------------------------------- fixtures that are not normalized

  /** Hashing the covered list and any beginning of the loaded log exhibits no collision. */
  predicate NoPrefixCollides(hash2: Hash2, covered: seq<string>, loaded: seq<string>) {
    forall k | 0 <= k <= |loaded| :: NoCollision(hash2, covered, loaded[..k])
  }

  /** With a nonzero commitment behind fewer than eight covered ones, no longer prefix has the same root. */
  lemma {:induction false} LongerPrefixDiffers(hash2: Hash2, covered: seq<string>, longer: seq<string>)
    requires YieldsField(hash2) && NoCollision(hash2, covered, longer)
    requires |covered| < DEPTH && |covered| < |longer| && CommitmentValue(longer[|covered|]) > 0
    ensures RevocationRoot(hash2, covered) != RevocationRoot(hash2, longer)
  {
    var xs, ys := CommitmentValues(covered), CommitmentValues(longer);
    assert Padded(xs)[|covered|] == 0 && Padded(ys)[|covered|] == ys[|covered|];
    RootsAreInjective(hash2, xs, ys);
  }

  ghost predicate SomeInStep(s: State, fixture: seq<Row>, hash2: Hash2) {
    exists k :: InStep(s, fixture, hash2, k)
  }

  /** What is loaded, if it can be, goes on from the covered list with a nonzero commitment, and collides nowhere. */
  predicate Distinguishes(hash2: Hash2, covered: seq<string>, loaded: Result<seq<Row>, Error>) {
    loaded.Ok? ==>
      && NoPrefixCollides(hash2, covered, Commitments(loaded.value))
      && (|covered| < |loaded.value| ==> CommitmentValue(loaded.value[|covered|].commitment) > 0)
  }

  /**
   Exactly when a saved log is in step, with the chain covering its first `p` rows and no later one on chain:
   when the fixture can be normalized and either eight rows are covered or no row comes back on chain.
   */
  lemma {:induction false} SavedIsInStepIff(s: State, fixture: seq<Row>, hash2: Hash2, p: nat)
    requires YieldsField(hash2) && s.saved != [] && p <= |s.saved| && OffChainFrom(s.saved, p)
    requires s.chainRoot == RevocationRoot(hash2, Commitments(s.saved)[..p])
    requires Distinguishes(hash2, Commitments(s.saved)[..p], LoadRevoked(s.saved, fixture))
    ensures SomeInStep(s, fixture, hash2) <==>
              Normalizable(fixture) && (p >= DEPTH || OnlyOffChainComesBack(s.saved, fixture))
  {
    LoadedLog(s.saved, fixture);
    if Normalizable(fixture) {
      if p >= DEPTH || OnlyOffChainComesBack(s.saved, fixture) {
        var k := SavedStaysInStep(s, fixture, hash2, p);
      } else {
        var loaded := LoadRevoked(s.saved, fixture).value;
        MergeAppends(s.saved, fixture);
        var q :| |s.saved| <= q < |loaded| && loaded[q].onChain;
        forall k ensures !InStep(s, fixture, hash2, k) {
          NotCovered(s, fixture, hash2, p, loaded, q, k);
        }
      }
    }
  }

  lemma {:induction false} NotCovered(
    s: State, fixture: seq<Row>, hash2: Hash2, p: nat, loaded: seq<Row>, q: nat, k: nat)
    requires YieldsField(hash2) && p <= |s.saved| && p < DEPTH && LoadRevoked(s.saved, fixture) == Ok(loaded)
    requires s.saved <= loaded && |s.saved| <= q < |loaded| && loaded[q].onChain
    requires s.chainRoot == RevocationRoot(hash2, Commitments(s.saved)[..p])
    requires Distinguishes(hash2, Commitments(s.saved)[..p], Ok(loaded))
    ensures !InStep(s, fixture, hash2, k)
  {
    if k <= |loaded| && q < k {
      LongerPrefixDiffers(hash2, Commitments(s.saved)[..p], Commitments(loaded)[..k]);
    }
  }

  const ALL_WELL := Outcomes(true, true, true, Landed, None, true)

  const REJECTED := Outcomes(true, true, true, TxOutcome.Rejected, None, true)

  /** The log after revoking a commitment that a fixture does not list. */
  function FirstLog(fixture: seq<Row>, x: string, reason: string, onChain: bool): seq<Row> {
    fixture + [Row(x, reason, onChain, None)]
  }

  lemma {:induction false} FirstRejected(s: State, fixture: seq<Row>, hash2: Hash2, x: string, reason: string)
    returns (after: State)
    requires s.saved == [] && Normal(x) && !Lists(fixture, x)
    ensures Revoke(s, fixture, hash2, x, reason, REJECTED).0 == after
    ensures after.saved == FirstLog(fixture, x, reason, false) && after.chainRoot == s.chainRoot
  {
    NormalizeIsIdempotent(x);
    after := s.(saved := FirstLog(fixture, x, reason, false));
    assert after.saved[|fixture|].commitment == x;
  }

  lemma FirstLogCommitments(fixture: seq<Row>, x: string, reason: string, onChain: bool)
    ensures var cs := Commitments(FirstLog(fixture, x, reason, onChain));
            cs == Commitments(fixture) + [x] && cs[..|fixture|] == Commitments(fixture) && cs[..|fixture| + 1] == cs
  {}

  lemma FirstIndex(fixture: seq<Row>, row: Row, rows: seq<Row>)
    requires rows == fixture + [row] && !Lists(fixture, row.commitment)
    ensures Lists(rows, row.commitment) && IndexOf(rows, row.commitment) == |fixture|
    ensures Commitments(rows) == Commitments(fixture) + [row.commitment]
  {
    assert rows[|fixture|].commitment == row.commitment;
    assert forall i | 0 <= i < |fixture| :: rows[i] == fixture[i] && fixture[i].commitment != row.commitment;
  }

  lemma {:induction false} PublishAllWell(
    s: State, hash2: Hash2, rows: seq<Row>, c: string, i: nat, marked: seq<Row>, after: State)
    requires Lists(rows, c) && IndexOf(rows, c) == i
    requires marked == rows[i := rows[i].(onChain := true, txHash := None)]
    requires after == State(marked, RevocationRoot(hash2, Commitments(rows)))
    ensures Publish(s, hash2, rows, c, ALL_WELL) == (after, Ok(Done(false, c, |rows|)))
  {}

  lemma {:induction false} FirstIsPublished(
    s: State, fixture: seq<Row>, hash2: Hash2, x: string, reason: string, rows: seq<Row>)
    requires s.saved == [] && Normal(x) && !Lists(fixture, x) && rows == fixture + [Row(x, reason, false, None)]
    ensures Lists(rows, x)
    ensures Revoke(s, fixture, hash2, x, reason, ALL_WELL) == Publish(s.(saved := rows), hash2, rows, x, ALL_WELL)
  {
    NormalizeIsIdempotent(x);
    assert rows[|fixture|].commitment == x;
  }

  lemma MarkLast(fixture: seq<Row>, row: Row, rows: seq<Row>, marked: seq<Row>)
    requires rows == fixture + [row] && marked == fixture + [row.(onChain := true, txHash := None)]
    ensures rows[|fixture| := rows[|fixture|].(onChain := true, txHash := None)] == marked
  {}

  lemma {:induction false} FirstSucceeds(s: State, fixture: seq<Row>, hash2: Hash2, x: string, reason: string)
    returns (after: State)
    requires s.saved == [] && Normal(x) && !Lists(fixture, x)
    ensures Revoke(s, fixture, hash2, x, reason, ALL_WELL) == (after, Ok(Done(false, x, |fixture| + 1)))
    ensures after.saved == FirstLog(fixture, x, reason, true)
    ensures after.chainRoot == RevocationRoot(hash2, Commitments(fixture) + [x])
  {
    var row := Row(x, reason, false, None);
    var rows, marked := fixture + [row], FirstLog(fixture, x, reason, true);
    FirstIndex(fixture, row, rows);
    MarkLast(fixture, row, rows, marked);
    FirstIsPublished(s, fixture, hash2, x, reason, rows);
    after := State(marked, RevocationRoot(hash2, Commitments(rows)));
    PublishAllWell(s.(saved := rows), hash2, rows, x, |fixture|, marked, after);
  }

  /**
   The exact condition on a fixture of any length for a first revocation that is saved but whose transaction
   is rejected: the fixture can be normalized, and it has eight rows or each row marked on chain, the first
   of its normalized commitment, has that listed in the fixture or just revoked.
   */
  lemma {:induction false} RejectedRevocationIsInStepIff(fixture: seq<Row>, hash2: Hash2, x: string, reason: string)
    requires YieldsField(hash2) && Normal(x) && !Lists(fixture, x)
    requires Distinguishes(hash2, Commitments(fixture), LoadRevoked(FirstLog(fixture, x, reason, false), fixture))
    ensures SomeInStep(Revoke(Deployed(fixture, hash2), fixture, hash2, x, reason, REJECTED).0, fixture, hash2) <==>
              Normalizable(fixture)
              && (|fixture| >= DEPTH || OnlyOffChainComesBack(FirstLog(fixture, x, reason, false), fixture))
  {
    var after := FirstRejected(Deployed(fixture, hash2), fixture, hash2, x, reason);
    FirstLogCommitments(fixture, x, reason, false);
    SavedIsInStepIff(after, fixture, hash2, |fixture|);
  }

  /** The same for a first revocation that succeeds, where one row more is covered. */
  lemma {:induction false} FirstRevocationIsInStepIff(fixture: seq<Row>, hash2: Hash2, x: string, reason: string)
    requires YieldsField(hash2) && Normal(x) && !Lists(fixture, x)
    requires Distinguishes(hash2, Commitments(fixture) + [x], LoadRevoked(FirstLog(fixture, x, reason, true), fixture))
    ensures SomeInStep(Revoke(Deployed(fixture, hash2), fixture, hash2, x, reason, ALL_WELL).0, fixture, hash2) <==>
              Normalizable(fixture)
              && (|fixture| + 1 >= DEPTH || OnlyOffChainComesBack(FirstLog(fixture, x, reason, true), fixture))
  {
    var after := FirstSucceeds(Deployed(fixture, hash2), fixture, hash2, x, reason);
    FirstLogCommitments(fixture, x, reason, true);
    SavedIsInStepIff(after, fixture, hash2, |fixture| + 1);
  }

  // ---------------------------------------------------------------- the prover's check

  /** The check before proving: the log's root is the chain's. */
  predicate ProverAccepts(hash2: Hash2, rows: seq<Row>, chainRoot: string) {
    Lower(RevocationRoot(hash2, Commitments(rows))) == Lower(chainRoot)
  }

  predicate NonzeroCommitments(rows: seq<Row>) {
    forall i | 0 <= i < |rows| :: CommitmentValue(rows[i].commitment) > 0
  }

  lemma LowerOfHex(h: string)
    requires IsHexText(h)
    ensures Lower("0x" + h) == "0x" + h
  {
    var s := "0x" + h;
    assert forall i | 2 <= i < |s| :: s[i] == h[i - 2] && IsHex(h[i - 2]);
    LowerIsIdle(s);
  }

  lemma {:induction false} RootIsLower(hash2: Hash2, leaves: seq<nat>)
    ensures Lower(RootOf(hash2, leaves)) == RootOf(hash2, leaves)
  {
    var h := Hex(Accumulate(hash2, 0, Padded(leaves)));
    LowerOfHex(PadStart(if |h| > 64 then h[|h| - 64..] else h, 64));
  }

  lemma PaddedPrefix(a: seq<nat>, k: nat)
    requires k <= |a| && forall i | 0 <= i < |a| :: a[i] > 0
    ensures Padded(a) == Padded(a[..k]) <==> Min(k, DEPTH) == Min(|a|, DEPTH)
  {
    if Min(k, DEPTH) < Min(|a|, DEPTH) {
      assert Padded(a[..k])[k] == 0 && Padded(a)[k] == a[k];
    }
  }

  /**
   With the log and the chain in step, the prover's check passes exactly when the rows the chain
   covers include all of the first eight: for a log of at most eight, all of it.
   */
  lemma {:induction false} ProverAcceptsIffCovered(s: State, fixture: seq<Row>, hash2: Hash2, k: nat)
    requires YieldsField(hash2) && InStep(s, fixture, hash2, k)
    requires NonzeroCommitments(LoadRevoked(s.saved, fixture).value)
    requires var commitments := Commitments(LoadRevoked(s.saved, fixture).value);
             NoCollision(hash2, commitments, commitments[..k])
    ensures var rows := LoadRevoked(s.saved, fixture).value;
            ProverAccepts(hash2, rows, s.chainRoot) <==> Min(k, DEPTH) == Min(|rows|, DEPTH)
  {
    var rows := LoadRevoked(s.saved, fixture).value;
    var a := CommitmentValues(Commitments(rows));
    assert CommitmentValues(Commitments(rows)[..k]) == a[..k];
    RootIsLower(hash2, a);
    RootIsLower(hash2, a[..k]);
    RootsAreInjective(hash2, a, a[..k]);
    PaddedPrefix(a, k);
  }

  /** Another revocation leaves the root as it was exactly when eight are listed already or its commitment is zero. */
  lemma {:induction false} AnotherRevocationLeavesTheRootIff(hash2: Hash2, commitments: seq<string>, c: string)
    requires YieldsField(hash2) && NoCollision(hash2, commitments, commitments + [c])
    ensures RevocationRoot(hash2, commitments + [c]) == RevocationRoot(hash2, commitments) <==>
              |commitments| >= DEPTH || CommitmentValue(c) == 0
  {
    var more := commitments + [c];
    if |commitments| >= DEPTH {
      EightDecide(hash2, more, commitments);
    } else if CommitmentValue(c) == 0 {
      assert Padded(CommitmentValues(more)) == Padded(CommitmentValues(commitments));
    } else {
      LongerPrefixDiffers(hash2, commitments, more);
    }
  }

  // ---------------------------------------------------------------- the root and the commitments

  predicate AllNormal(cs: seq<string>) {
    forall i | 0 <= i < |cs| :: Normal(cs[i])
  }

  /** The commitment that is zero. */
  const ZERO := "0x" + ZeroText(64)

  /** The first eight commitments, filled up with zeros. */
  function PaddedTexts(cs: seq<string>): (p: seq<string>)
    ensures |p| == DEPTH && forall i | 0 <= i < DEPTH :: p[i] == if i < |cs| then cs[i] else ZERO
  {
    seq(DEPTH, i requires 0 <= i < DEPTH => if i < |cs| then cs[i] else ZERO)
  }

  lemma NormalValue(c: string)
    requires Normal(c)
    ensures c == "0x" + c[2..] && CommitmentValue(c) == ParseHex(c[2..])
  {
    assert c == "0x" + c[2..];
    LowerIsIdle(c[2..]);
    ValueOfHex(c[2..]);
  }

  lemma {:induction false} ZeroIsNormal()
    ensures Normal(ZERO) && CommitmentValue(ZERO) == 0
  {
    assert ZERO[2..] == ZeroText(64);
    assert DigitsIn(ZeroText(64)) == Zeros(64);
    ValueOfZeros(16, 64);
    NormalValue(ZERO);
  }

  lemma {:induction false} SameWidthHex(g: string, h: string)
    requires IsHexText(g) && IsHexText(h) && |g| == |h| && ParseHex(g) == ParseHex(h)
    ensures g == h
  {
    SameLengthSameValue(16, DigitsIn(g), DigitsIn(h));
    TextOfDigits(g);
    TextOfDigits(h);
  }

  /** Normalized commitments are one number exactly when they are one text. */
  lemma {:induction false} NormalValuesAreInjective(c: string, d: string)
    requires Normal(c) && Normal(d)
    ensures CommitmentValue(c) == CommitmentValue(d) <==> c == d
  {
    NormalValue(c);
    NormalValue(d);
    if CommitmentValue(c) == CommitmentValue(d) {
      SameWidthHex(c[2..], d[2..]);
    }
  }

  /** The text of a number is a normalized commitment of that number. */
  lemma {:induction false} TextIsRead(n: nat)
    requires n < TWO_TO_256
    ensures Normal(FieldToBytes32Hex(n)) && CommitmentValue(FieldToBytes32Hex(n)) == n
  {
    var h := PadStart(Hex(n), 64);
    HexWidth(n, 64);
    assert FieldToBytes32Hex(n)[2..] == h;
    NormalValue(FieldToBytes32Hex(n));
    PadKeepsHex(Hex(n), 64);
    ParseHexOfHex(n);
  }

  /**
   Barring a collision, two lists of normalized commitments have one root exactly when their first eight, filled
   up with the zero commitment, are the same texts.
   */
  lemma {:induction false} RootTellsCommitments(hash2: Hash2, xs: seq<string>, ys: seq<string>)
    requires YieldsField(hash2) && NoCollision(hash2, xs, ys) && AllNormal(xs) && AllNormal(ys)
    ensures RevocationRoot(hash2, xs) == RevocationRoot(hash2, ys) <==> PaddedTexts(xs) == PaddedTexts(ys)
  {
    var (p, q) := (Padded(CommitmentValues(xs)), Padded(CommitmentValues(ys)));
    RootsAreInjective(hash2, CommitmentValues(xs), CommitmentValues(ys));
    ZeroIsNormal();
    forall i | 0 <= i < DEPTH ensures p[i] == q[i] <==> PaddedTexts(xs)[i] == PaddedTexts(ys)[i] {
      assert p[i] == CommitmentValue(PaddedTexts(xs)[i]) && q[i] == CommitmentValue(PaddedTexts(ys)[i]);
      NormalValuesAreInjective(PaddedTexts(xs)[i], PaddedTexts(ys)[i]);
    }
    if PaddedTexts(xs) == PaddedTexts(ys) {
      assert p == q;
    }
  }

  /** Without zero commitments, exactly when their first eight are. */
  lemma {:induction false} RootTellsNonzeroCommitments(hash2: Hash2, xs: seq<string>, ys: seq<string>)
    requires YieldsField(hash2) && NoCollision(hash2, xs, ys) && AllNormal(xs) && AllNormal(ys)
    requires ZERO !in xs && ZERO !in ys
    ensures RevocationRoot(hash2, xs) == RevocationRoot(hash2, ys) <==> FirstEight(xs) == FirstEight(ys)
  {
    RootTellsCommitments(hash2, xs, ys);
    SamePadding(xs, ys);
  }

  /** Filling up with what neither list has hides no difference between the two. */
  lemma {:induction false} SamePadding(xs: seq<string>, ys: seq<string>)
    requires ZERO !in xs && ZERO !in ys
    ensures PaddedTexts(xs) == PaddedTexts(ys) <==> FirstEight(xs) == FirstEight(ys)
  {
    var (p, q) := (PaddedTexts(xs), PaddedTexts(ys));
    assert forall i | 0 <= i < DEPTH :: (p[i] == ZERO <==> i >= |xs|) && (q[i] == ZERO <==> i >= |ys|);
    if p == q {
      var n := |FirstEight(xs)|;
      assert n == |FirstEight(ys)| by {
        if n < DEPTH { assert q[n] == ZERO; }
        if |ys| < DEPTH { assert p[|ys|] == ZERO; }
      }
      assert p[..n] == FirstEight(xs) && q[..n] == FirstEight(ys);
    }
    if FirstEight(xs) == FirstEight(ys) {
      forall i | 0 <= i < DEPTH ensures p[i] == q[i] {
        if i < |xs| { assert FirstEight(xs)[i] == FirstEight(ys)[i]; }
      }
    }
  }
}
