/**
 The three settlement contracts over one adapter and one policy verifier: a transfer of
 USDC or EURC, a swap, and a payroll payment, each gated by an eligibility proof whose
 nullifier the verifier files as spent.

 Whether a verifier contract accepts a proof is the parameter `accepts`.
 */
module Settlement {
  import opened Common
  import opened Balances
  import opened PublicInputs

  const ASSET_USDC := 2
  const ASSET_EURC := 3
  const ACTION_SETTLEMENT := 1
  const PROOF_BYTES := 14592
  const I128_MAX: nat := 0x7FFF_FFFF_FFFF_FFFF_FFFF_FFFF_FFFF_FFFF

  type Verifier = nat

  type Token = nat

  type Oracle = (Verifier, Bytes, Bytes) -> bool

  datatype Entry = TransferUsdc | TransferEurc | Swap | Pay

  /** What the constructors of the three contracts were given. */
  datatype Config = Config(usdcSac: Token, eurcSac: Token, dexSac: Token, payrollSac: Token,
                           dexPolicy: nat, payrollPolicy: nat)

  datatype SpentKey = SpentKey(policy: nat, asset: nat, action: nat, nullifier: Bytes)

  datatype State = State(
    balances: map<Token, seq<nat>>,
    verifiers: map<nat, Verifier>,
    spent: set<SpentKey>)

  datatype Call = Call(
    entry: Entry,
    from: Account,
    to: Account,
    amount: int,
    proof: Bytes,
    publicInputs: Bytes,
    authorized: bool)

  datatype Error =
    | NotAuthorized
    | InvalidAmount
    | VerificationFailed
    | InvalidAssetScope
    | ProofParseError
    | InvalidPublicInputs
    | PolicyNotFound
    | NullifierSpent
    | TokenError

  // ---------------------------------------------------------------- the policy verifier

  /** The asset and action the verifier files under: none for inputs shorter than 192 bytes. */
  function FiledScope(publicInputs: Bytes): Result<(nat, nat), Error> {
    if |publicInputs| < 192 then Ok((0, 0))
    else
      match (PublicInputU32(publicInputs, 3), PublicInputU32(publicInputs, 4))
      case (Some(asset), Some(action)) => Ok((asset, action))
      case _ => Err(InvalidPublicInputs)
  }

  function NullifierOf(publicInputs: Bytes): Result<Bytes, Error> {
    var offset := if |publicInputs| >= 192 then 160 else 96;
    if |publicInputs| < offset + 32 then Err(InvalidPublicInputs)
    else Ok(publicInputs[offset..offset + 32])
  }

  function KeyFor(policy: nat, publicInputs: Bytes): Result<SpentKey, Error> {
    match FiledScope(publicInputs)
    case Err(e) => Err(e)
    case Ok(scope) =>
      match NullifierOf(publicInputs)
      case Err(e) => Err(e)
      case Ok(nullifier) => Ok(SpentKey(policy, scope.0, scope.1, nullifier))
  }

  /** `verify`, which the adapter's `verify_passport` forwards to: the key it spends. */
  function Verify(s: State, policy: nat, proof: Bytes, publicInputs: Bytes, accepts: Oracle): Result<SpentKey, Error> {
    if |proof| != PROOF_BYTES then Err(ProofParseError)
    else if |publicInputs| % 32 != 0 || |publicInputs| == 0 then Err(InvalidPublicInputs)
    else if policy !in s.verifiers then Err(PolicyNotFound)
    else
      match KeyFor(policy, publicInputs)
      case Err(e) => Err(e)
      case Ok(key) =>
        if key in s.spent then Err(NullifierSpent)
        else if !accepts(s.verifiers[policy], publicInputs, proof) then Err(VerificationFailed)
        else Ok(key)
  }

  // ---------------------------------------------------------------- the settlement contracts

  function RequireScope(publicInputs: Bytes, asset: nat): Option<Error> {
    match PublicInputU32(publicInputs, 3)
    case None => Some(VerificationFailed)
    case Some(a) =>
      if a != asset then Some(InvalidAssetScope)
      else
        match PublicInputU32(publicInputs, 4)
        case None => Some(VerificationFailed)
        case Some(action) => if action != ACTION_SETTLEMENT then Some(InvalidAssetScope) else None
  }

  function AssetOf(entry: Entry): nat {
    if entry == TransferEurc then ASSET_EURC else ASSET_USDC
  }

  function TokenOf(entry: Entry, config: Config): Token {
    match entry
    case TransferUsdc => config.usdcSac
    case TransferEurc => config.eurcSac
    case Swap => config.dexSac
    case Pay => config.payrollSac
  }

  /** The policy an entry point passes on: from the public inputs, or the contract's own. */
  function PolicyPassed(c: Call, config: Config): Option<nat> {
    match c.entry
    case Swap => Some(config.dexPolicy)
    case Pay => Some(config.payrollPolicy)
    case _ => PublicInputU32(c.publicInputs, 2)
  }

  predicate CanTransfer(b: seq<nat>, from: Account, to: Account, amount: nat) {
    && from < |b| && to < |b| && amount <= b[from]
    && Move(b, from, to, amount)[to] <= I128_MAX
  }

  /** The state a call leaves when it succeeds. */
  function Settle(s: State, c: Call, config: Config, accepts: Oracle): Result<State, Error> {
    var token := TokenOf(c.entry, config);
    if !c.authorized then Err(NotAuthorized)
    else if c.amount <= 0 then Err(InvalidAmount)
    else if PolicyPassed(c, config).None? then Err(VerificationFailed)
    else if RequireScope(c.publicInputs, AssetOf(c.entry)).Some? then
      Err(RequireScope(c.publicInputs, AssetOf(c.entry)).value)
    else
      match Verify(s, PolicyPassed(c, config).value, c.proof, c.publicInputs, accepts)
      case Err(e) => Err(e)
      case Ok(key) =>
        if token !in s.balances || !CanTransfer(s.balances[token], c.from, c.to, c.amount) then Err(TokenError)
        else
          Ok(s.(balances := s.balances[token := Move(s.balances[token], c.from, c.to, c.amount)],
                spent := s.spent + {key}))
  }

  /** The contracts' storage, and the entry points that change it. */
  class Contracts {
    var state: State
    const config: Config
    const verifyProof: Oracle

    constructor (s: State, c: Config, o: Oracle)
      ensures state == s && config == c && verifyProof == o
    {
      state, config, verifyProof := s, c, o;
    }

    /** `verify_passport`: checks the proof and files its nullifier. */
    method VerifyPassport(policy: nat, proof: Bytes, publicInputs: Bytes) returns (r: Result<SpentKey, Error>)
      modifies this
      ensures r == Verify(old(state), policy, proof, publicInputs, verifyProof)
      ensures state == if r.Ok? then old(state).(spent := old(state).spent + {r.value}) else old(state)
    {
      if |proof| != PROOF_BYTES {
        return Err(ProofParseError);
      }
      if |publicInputs| % 32 != 0 || |publicInputs| == 0 {
        return Err(InvalidPublicInputs);
      }
      if policy !in state.verifiers {
        return Err(PolicyNotFound);
      }
      var key :- KeyFor(policy, publicInputs);
      if key in state.spent {
        return Err(NullifierSpent);
      }
      if !verifyProof(state.verifiers[policy], publicInputs, proof) {
        return Err(VerificationFailed);
      }
      state := state.(spent := state.spent + {key});
      return Ok(key);
    }

    /** One call as a transaction: an error anywhere undoes everything before it. */
    method Invoke(c: Call) returns (r: Result<(), Error>)
      modifies this
      ensures match Settle(old(state), c, config, verifyProof)
              case Ok(after) => r == Ok(()) && state == after
              case Err(e) => r == Err(e) && state == old(state)
    {
      var before := state;
      if !c.authorized {
        return Err(NotAuthorized);
      }
      if c.amount <= 0 {
        return Err(InvalidAmount);
      }
      var policy := PolicyPassed(c, config);
      if policy.None? {
        return Err(VerificationFailed);
      }
      var scopeError := RequireScope(c.publicInputs, AssetOf(c.entry));
      if scopeError.Some? {
        return Err(scopeError.value);
      }
      var key :- VerifyPassport(policy.value, c.proof, c.publicInputs);
      var token := TokenOf(c.entry, config);
      if token !in state.balances || !CanTransfer(state.balances[token], c.from, c.to, c.amount) {
        state := before;
        return Err(TokenError);
      }
      state := state.(balances := state.balances[token := Move(state.balances[token], c.from, c.to, c.amount)]);
      return Ok(());
    }
  }

  // ---------------------------------------------------------------- one call

  /**
   The key a settlement spends names its asset, the settlement action and the proof's nullifier. With
   public inputs too short for a nullifier it names no scope, and holds the asset field in its place.
   */
  lemma {:induction false} SettlementSpendsItsScope(s: State, c: Call, config: Config, accepts: Oracle)
    requires Settle(s, c, config, accepts).Ok?
    ensures var policy := PolicyPassed(c, config).value;
            var spent := Settle(s, c, config, accepts).value.spent;
            && (|c.publicInputs| >= 192 ==>
                  var key := SpentKey(policy, AssetOf(c.entry), ACTION_SETTLEMENT, c.publicInputs[160..192]);
                  key !in s.spent && spent == s.spent + {key})
            && (|c.publicInputs| < 192 ==>
                  && |c.publicInputs| == 160
                  && FieldToU32(c.publicInputs[96..128]) == AssetOf(c.entry)
                  && var key := SpentKey(policy, 0, 0, c.publicInputs[96..128]);
                     key !in s.spent && spent == s.spent + {key})
  {}

  /** A successful call moves exactly its positive amount of its own token, and nothing else. */
  lemma {:induction false} SettlementMovesExactly(
    s: State, c: Call, config: Config, accepts: Oracle, token: Token, a: Account)
    requires Settle(s, c, config, accepts).Ok?
    requires token in s.balances && a < |s.balances[token]|
    ensures var after := Settle(s, c, config, accepts).value;
            && c.amount > 0 && after.balances.Keys == s.balances.Keys && after.verifiers == s.verifiers
            && |after.balances[token]| == |s.balances[token]|
            && Change(s.balances[token], after.balances[token], a) ==
               (if token == TokenOf(c.entry, config) && a == c.to then c.amount else 0)
               - (if token == TokenOf(c.entry, config) && a == c.from then c.amount else 0)
  {}

  // ---------------------------------------------------------------- runs

  datatype Step =
    | Settlement(call: Call)
    | Verification(policy: nat, proof: Bytes, publicInputs: Bytes)  // of anyone, without a settlement
    | RegisterPolicy(policy: nat, verifier: Verifier)
    | Payment(token: Token, payer: Account, payee: Account, value: nat)  // outside these contracts

  function Apply(s: State, step: Step, config: Config, accepts: Oracle): State {
    match step
    case Settlement(c) =>
      (match Settle(s, c, config, accepts)
       case Ok(after) => after
       case Err(_) => s)
    case Verification(policy, proof, publicInputs) =>
      (match Verify(s, policy, proof, publicInputs, accepts)
       case Ok(key) => s.(spent := s.spent + {key})
       case Err(_) => s)
    case RegisterPolicy(policy, verifier) => s.(verifiers := s.verifiers[policy := verifier])
    case Payment(token, payer, payee, value) =>
      if token in s.balances && CanTransfer(s.balances[token], payer, payee, value)
      then s.(balances := s.balances[token := Move(s.balances[token], payer, payee, value)])
      else s
  }

  function Run(s: State, steps: seq<Step>, config: Config, accepts: Oracle): State
    decreases steps
  {
    if steps == [] then s else Run(Apply(s, steps[0], config, accepts), steps[1..], config, accepts)
  }

  /** A key that was filed, for which policy and inputs, and the settlement it was filed for, if any. */
  datatype Receipt = Receipt(key: SpentKey, policy: nat, publicInputs: Bytes, call: Option<Call>)

  /** What the successful settlements and verifications of a run filed. */
  function Receipts(s: State, steps: seq<Step>, config: Config, accepts: Oracle): seq<Receipt>
    decreases steps
  {
    if steps == [] then []
    else
      ReceiptOf(s, steps[0], config, accepts)
      + Receipts(Apply(s, steps[0], config, accepts), steps[1..], config, accepts)
  }

  function ReceiptOf(s: State, step: Step, config: Config, accepts: Oracle): seq<Receipt> {
    match step
    case Settlement(c) =>
      if Settle(s, c, config, accepts).Err? then []
      else
        var policy := PolicyPassed(c, config).value;
        [Receipt(Verify(s, policy, c.proof, c.publicInputs, accepts).value, policy, c.publicInputs, Some(c))]
    case Verification(policy, proof, publicInputs) =>
      (match Verify(s, policy, proof, publicInputs, accepts)
       case Ok(key) => [Receipt(key, policy, publicInputs, None)]
       case Err(_) => [])
    case _ => []
  }

  /** The key is that of the policy and inputs, which for a settlement are those of its call. */
  predicate IsInOrder(r: Receipt, config: Config) {
    && KeyFor(r.policy, r.publicInputs) == Ok(r.key)
    && (r.call.Some? ==>
          PolicyPassed(r.call.value, config) == Some(r.policy) && r.call.value.publicInputs == r.publicInputs)
  }

  /** One step files at most one key, which was unspent. */
  lemma {:induction false} StepFilesReceipt(s: State, step: Step, config: Config, accepts: Oracle)
    ensures var rs := ReceiptOf(s, step, config, accepts);
            && |rs| <= 1
            && Apply(s, step, config, accepts).spent == s.spent + (if rs == [] then {} else {rs[0].key})
            && (rs != [] ==> rs[0].key !in s.spent && IsInOrder(rs[0], config))
  {}

  lemma {:induction false} SpentOnlyGrows(s: State, steps: seq<Step>, config: Config, accepts: Oracle)
    ensures s.spent <= Run(s, steps, config, accepts).spent
    ensures forall r | r in Receipts(s, steps, config, accepts) :: r.key !in s.spent
    decreases steps
  {
    if steps != [] {
      StepFilesReceipt(s, steps[0], config, accepts);
      SpentOnlyGrows(Apply(s, steps[0], config, accepts), steps[1..], config, accepts);
    }
  }

  /** After a run, what is spent is what was spent before and what the run filed, for settlements or without. */
  lemma {:induction false} SpentByRun(s: State, steps: seq<Step>, config: Config, accepts: Oracle, key: SpentKey)
    ensures key in Run(s, steps, config, accepts).spent <==>
              key in s.spent || exists r :: r in Receipts(s, steps, config, accepts) && r.key == key
    decreases steps
  {
    if steps != [] {
      var next := Apply(s, steps[0], config, accepts);
      StepFilesReceipt(s, steps[0], config, accepts);
      SpentByRun(next, steps[1..], config, accepts, key);
      var first, rest := ReceiptOf(s, steps[0], config, accepts), Receipts(next, steps[1..], config, accepts);
      assert Receipts(s, steps, config, accepts) == first + rest;
      assert forall r :: r in first + rest <==> r in first || r in rest;
      if first != [] {
        assert first[0] in first && next.spent == s.spent + {first[0].key};
      }
    }
  }

  predicate DistinctKeys(rs: seq<Receipt>) {
    forall i, j | 0 <= i < j < |rs| :: rs[i].key != rs[j].key
  }

  /** Over any run, each key is filed at most once, for a settlement or without one. */
  lemma {:induction false} KeysAreSpentOnce(s: State, steps: seq<Step>, config: Config, accepts: Oracle)
    ensures DistinctKeys(Receipts(s, steps, config, accepts))
    decreases steps
  {
    if steps != [] {
      var next := Apply(s, steps[0], config, accepts);
      StepFilesReceipt(s, steps[0], config, accepts);
      KeysAreSpentOnce(next, steps[1..], config, accepts);
      SpentOnlyGrows(next, steps[1..], config, accepts);
      var first := ReceiptOf(s, steps[0], config, accepts);
      var rest := Receipts(next, steps[1..], config, accepts);
      assert Receipts(s, steps, config, accepts) == first + rest;
      if first != [] {
        assert first[0].key in next.spent;
        forall j | 0 <= j < |rest| ensures rest[j].key != first[0].key {
          assert rest[j] in rest;
        }
      }
    }
  }

  lemma {:induction false} ReceiptsAreInOrder(s: State, steps: seq<Step>, config: Config, accepts: Oracle)
    ensures forall r | r in Receipts(s, steps, config, accepts) :: IsInOrder(r, config)
    decreases steps
  {
    if steps != [] {
      StepFilesReceipt(s, steps[0], config, accepts);
      ReceiptsAreInOrder(Apply(s, steps[0], config, accepts), steps[1..], config, accepts);
    }
  }

  /** The same public inputs are filed twice, by settlements or without, only under two different policies. */
  lemma {:induction false} SameInputsSettleOncePerPolicy(
    s: State, steps: seq<Step>, config: Config, accepts: Oracle, i: nat, j: nat)
    requires i < j < |Receipts(s, steps, config, accepts)|
    requires var rs := Receipts(s, steps, config, accepts); rs[i].publicInputs == rs[j].publicInputs
    ensures var rs := Receipts(s, steps, config, accepts);
            && rs[i].policy != rs[j].policy
            && (rs[i].call.Some? && rs[j].call.Some? ==>
                  PolicyPassed(rs[i].call.value, config) != PolicyPassed(rs[j].call.value, config))
  {
    var rs := Receipts(s, steps, config, accepts);
    KeysAreSpentOnce(s, steps, config, accepts);
    ReceiptsAreInOrder(s, steps, config, accepts);
    assert rs[i] in rs && rs[j] in rs;
  }

  /**
   Whoever has a proof verified uses it up: in every state that follows, no entry point settles with its
   public inputs under the policy that was verified, whatever proof is given.
   */
  lemma {:induction false} VerifiedNeverSettles(
    s: State, policy: nat, proof: Bytes, publicInputs: Bytes, steps: seq<Step>, c: Call, config: Config,
    accepts: Oracle)
    requires Verify(s, policy, proof, publicInputs, accepts).Ok?
    requires c.publicInputs == publicInputs && PolicyPassed(c, config) == Some(policy)
    ensures var after := Run(s, [Verification(policy, proof, publicInputs)] + steps, config, accepts);
            Settle(after, c, config, accepts).Err?
  {
    var step := Verification(policy, proof, publicInputs);
    assert ([step] + steps)[1..] == steps;
    SpentOnlyGrows(Apply(s, step, config, accepts), steps, config, accepts);
  }

  /**
   After a settlement, the same proof and inputs settle again exactly when the second entry
   point passes another policy, unspent and with a verifier that accepts the proof: the swap and
   payroll contracts pass their own policy, not the one in the public inputs.
   */
  lemma {:induction false} SameProofSettlesAgainIffPolicyDiffers(
    s: State, first: Call, second: Call, config: Config, accepts: Oracle)
    requires Settle(s, first, config, accepts).Ok?
    requires second.proof == first.proof && second.publicInputs == first.publicInputs
    requires second.authorized && second.amount > 0 && AssetOf(second.entry) == AssetOf(first.entry)
    requires var after := Settle(s, first, config, accepts).value;
             var token := TokenOf(second.entry, config);
             token in after.balances && CanTransfer(after.balances[token], second.from, second.to, second.amount)
    requires PolicyPassed(second, config).Some?
    ensures var after := Settle(s, first, config, accepts).value;
            var p := PolicyPassed(second, config).value;
            Settle(after, second, config, accepts).Ok? <==>
            && p != PolicyPassed(first, config).value
            && p in s.verifiers && accepts(s.verifiers[p], second.publicInputs, second.proof)
            && KeyFor(p, second.publicInputs).value !in s.spent
  {}

  lemma {:induction false} StepKeepsTotals(s: State, step: Step, config: Config, accepts: Oracle, token: Token)
    requires token in s.balances
    ensures var after := Apply(s, step, config, accepts);
            token in after.balances && Sum(after.balances[token]) == Sum(s.balances[token])
  {
    if step.Settlement? && Settle(s, step.call, config, accepts).Ok? {
      var c := step.call;
      MoveKeepsSum(s.balances[TokenOf(c.entry, config)], c.from, c.to, c.amount);
    } else if step.Payment? && Apply(s, step, config, accepts) != s {
      MoveKeepsSum(s.balances[step.token], step.payer, step.payee, step.value);
    }
  }

  /** Over any run, every token's total is conserved. */
  lemma {:induction false} RunKeepsTotals(s: State, steps: seq<Step>, config: Config, accepts: Oracle, token: Token)
    requires token in s.balances
    ensures var after := Run(s, steps, config, accepts);
            token in after.balances && Sum(after.balances[token]) == Sum(s.balances[token])
    decreases steps
  {
    if steps != [] {
      StepKeepsTotals(s, steps[0], config, accepts, token);
      RunKeepsTotals(Apply(s, steps[0], config, accepts), steps[1..], config, accepts, token);
    }
  }

  // ---------------------------------------------------------------- whose money moves

  /** What the verifier files for such inputs: with less than six fields no scope, and the asset for a nullifier. */
  function FiledFor(publicInputs: Bytes, policy: nat, asset: nat): SpentKey
    requires |publicInputs| >= 160
  {
    if |publicInputs| >= 192 then SpentKey(policy, asset, 1, publicInputs[160..192])
    else SpentKey(policy, 0, 0, publicInputs[96..128])
  }

  /** An unspent proof of the asset, for a settlement, that the policy's verifier accepts. */
  predicate ProvenFor(s: State, c: Call, policy: nat, asset: nat, accepts: Oracle)
    requires |c.publicInputs| >= 160
  {
    && |c.proof| == 14592 && |c.publicInputs| % 32 == 0
    && FieldToU32(c.publicInputs[96..128]) == asset && FieldToU32(c.publicInputs[128..160]) == 1
    && policy in s.verifiers && accepts(s.verifiers[policy], c.publicInputs, c.proof)
    && FiledFor(c.publicInputs, policy, asset) !in s.spent
  }

  /** The proof names a policy, and is proven for it. */
  predicate ProvenForOwn(s: State, c: Call, asset: nat, accepts: Oracle)
    requires |c.publicInputs| >= 160
  {
    var policy := FieldToU32(c.publicInputs[64..96]);
    policy != 0 && ProvenFor(s, c, policy, asset, accepts)
  }

  /** The payer authorized the call, and its proof is for what the entry point pays in. */
  predicate MayPay(s: State, c: Call, token: Token, config: Config, accepts: Oracle) {
    && c.authorized && c.amount > 0 && |c.publicInputs| >= 160
    && match c.entry
       case TransferUsdc => token == config.usdcSac && ProvenForOwn(s, c, 2, accepts)
       case TransferEurc => token == config.eurcSac && ProvenForOwn(s, c, 3, accepts)
       case Swap => token == config.dexSac && ProvenFor(s, c, config.dexPolicy, 2, accepts)
       case Pay => token == config.payrollSac && ProvenFor(s, c, config.payrollPolicy, 2, accepts)
  }

  /** The payer has the amount, and the payee's balance stays below 2^127. */
  predicate CanPay(s: State, c: Call, token: Token) {
    && token in s.balances && c.from < |s.balances[token]| && c.to < |s.balances[token]|
    && 0 <= c.amount <= s.balances[token][c.from]
    && s.balances[token][c.to] + (if c.to == c.from then 0 else c.amount)
       < 0x8000_0000_0000_0000_0000_0000_0000_0000
  }

  /**
   A call settles exactly when its payer authorized it and has the money, and its proof is an unspent one
   for what the entry point pays in that the policy's verifier accepts.
   */
  lemma {:induction false} SettlesIff(s: State, c: Call, config: Config, accepts: Oracle)
    ensures Settle(s, c, config, accepts).Ok? <==>
              exists token :: MayPay(s, c, token, config, accepts) && CanPay(s, c, token)
    ensures Settle(s, c, config, accepts).Ok? ==> MayPay(s, c, TokenOf(c.entry, config), config, accepts)
  {
    var token := TokenOf(c.entry, config);
    if MayPay(s, c, token, config, accepts) && CanPay(s, c, token) {
      assert Settle(s, c, config, accepts).Ok?;
    }
    if Settle(s, c, config, accepts).Ok? {
      assert MayPay(s, c, token, config, accepts) && CanPay(s, c, token);
    }
  }

  /** What a step may take from an account: what it pays outside, or settles with its authorization and a proof. */
  function MayTake(s: State, step: Step, token: Token, a: Account, config: Config, accepts: Oracle): nat {
    match step
    case Settlement(c) => if c.from == a && MayPay(s, c, token, config, accepts) then c.amount else 0
    case Payment(t, payer, _, value) => if t == token && payer == a then value else 0
    case _ => 0
  }

  /** The same for a run, each settlement in the state it is made in. */
  function RunMayTake(s: State, steps: seq<Step>, token: Token, a: Account, config: Config, accepts: Oracle): nat
    decreases steps
  {
    if steps == [] then 0
    else
      MayTake(s, steps[0], token, a, config, accepts)
      + RunMayTake(Apply(s, steps[0], config, accepts), steps[1..], token, a, config, accepts)
  }

  function Balance(s: State, token: Token, a: Account): nat {
    if token in s.balances && a < |s.balances[token]| then s.balances[token][a] else 0
  }

  lemma {:induction false} StepTakesAtMost(
    s: State, step: Step, token: Token, a: Account, config: Config, accepts: Oracle)
    ensures Balance(Apply(s, step, config, accepts), token, a) + MayTake(s, step, token, a, config, accepts)
            >= Balance(s, token, a)
  {
    if step.Settlement? && Settle(s, step.call, config, accepts).Ok? {
      SettlesIff(s, step.call, config, accepts);
      if token in s.balances && a < |s.balances[token]| {
        SettlementMovesExactly(s, step.call, config, accepts, token, a);
      }
    }
  }

  /**
   Over any run, an account loses no more than what it pays itself and what is settled from it with its
   authorization, each time with a proof for the token's asset that the policy's verifier accepts.
   */
  lemma {:induction false} OnlyOwnersPay(
    s: State, steps: seq<Step>, token: Token, a: Account, config: Config, accepts: Oracle)
    ensures Balance(Run(s, steps, config, accepts), token, a) + RunMayTake(s, steps, token, a, config, accepts)
            >= Balance(s, token, a)
    decreases steps
  {
    if steps != [] {
      StepTakesAtMost(s, steps[0], token, a, config, accepts);
      OnlyOwnersPay(Apply(s, steps[0], config, accepts), steps[1..], token, a, config, accepts);
    }
  }

  /** So a balance is lower afterwards only if some step of the run was such a payment. */
  lemma {:induction false} LessOnlyIfPaid(
    s: State, steps: seq<Step>, token: Token, a: Account, config: Config, accepts: Oracle) returns (i: nat)
    requires Balance(Run(s, steps, config, accepts), token, a) < Balance(s, token, a)
    ensures i < |steps|
    ensures MayTake(Run(s, steps[..i], config, accepts), steps[i], token, a, config, accepts) > 0
    decreases steps
  {
    if MayTake(s, steps[0], token, a, config, accepts) > 0 {
      i := 0;
    } else {
      StepTakesAtMost(s, steps[0], token, a, config, accepts);
      var next := Apply(s, steps[0], config, accepts);
      i := LessOnlyIfPaid(next, steps[1..], token, a, config, accepts);
      assert steps[..i + 1][1..] == steps[1..][..i];
      i := i + 1;
    }
  }

  /** The steps without the settlements that the payer did not authorize. */
  function WithoutUnauthorized(steps: seq<Step>): seq<Step> {
    if steps == [] then []
    else
      var rest := WithoutUnauthorized(steps[1..]);
      if steps[0].Settlement? && !steps[0].call.authorized then rest else [steps[0]] + rest
  }

  /** Settlements that the payer did not authorize change nothing: a run leaves what it would without them. */
  lemma {:induction false} UnauthorizedChangesNothing(s: State, steps: seq<Step>, config: Config, accepts: Oracle)
    ensures Run(s, steps, config, accepts) == Run(s, WithoutUnauthorized(steps), config, accepts)
    decreases steps
  {
    if steps != [] {
      UnauthorizedChangesNothing(Apply(s, steps[0], config, accepts), steps[1..], config, accepts);
      if !(steps[0].Settlement? && !steps[0].call.authorized) {
        assert WithoutUnauthorized(steps)[1..] == WithoutUnauthorized(steps[1..]);
      }
    }
  }
}
