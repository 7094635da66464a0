/**
 Delegated sessions: which context rule authorizes each contract call of a transaction, and
 whether a session is enabled for a list of contracts.
 */
module Session {
  import opened Common

  datatype Context = Default | CallContract(address: string) | CreateContract

  datatype Signer = Delegated(address: string) | External(verifier: string)

  /** A context rule as read; an `id` of `None` is one that is no finite number. */
  datatype Rule = Rule(
    id: Option<nat>,
    context: Context,
    policies: seq<string>,
    signers: seq<Signer>,
    validUntil: Option<nat>)

  /** The session key, the configured compliance policy (empty when there is none), the current ledger. */
  datatype Env = Env(publicKey: string, policy: string, ledger: nat)

  const EXPIRY_MARGIN := 100

  predicate HasSigner(rule: Rule, publicKey: string) {
    exists i :: 0 <= i < |rule.signers| && rule.signers[i] == Delegated(publicKey)
  }

  predicate HasPolicy(rule: Rule, policy: string) {
    policy != "" && exists i :: 0 <= i < |rule.policies| && rule.policies[i] == policy
  }

  predicate Usable(rule: Rule, context: Context, env: Env) {
    && rule.context == context
    && HasSigner(rule, env.publicKey)
    && HasPolicy(rule, env.policy)
    && (rule.validUntil.None? || rule.validUntil.value > env.ledger + EXPIRY_MARGIN)
  }

  // ---------------------------------------------------------------- choosing a rule

  datatype Match = Match(id: nat, validUntil: nat)

  function MatchOf(rule: Rule): (m: Match)
    requires rule.id.Some?
  {
    Match(rule.id.value, if rule.validUntil.Some? then rule.validUntil.value else 0)
  }

  /** The usable rules of a context that have a number. */
  function Matches(rules: seq<Rule>, context: Context, env: Env): seq<Match> {
    if rules == [] then []
    else
      var rest := Matches(rules[1..], context, env);
      if Usable(rules[0], context, env) && rules[0].id.Some? then [MatchOf(rules[0])] + rest else rest
  }

  /** Whether `a` sorts no later than `b`: the later expiry first, then the greater id. */
  predicate Before(a: Match, b: Match) {
    a.validUntil > b.validUntil || (a.validUntil == b.validUntil && a.id >= b.id)
  }

  function InsertMatch(m: Match, sorted: seq<Match>): seq<Match> {
    if sorted == [] || Before(m, sorted[0]) then [m] + sorted
    else [sorted[0]] + InsertMatch(m, sorted[1..])
  }

  function SortMatches(ms: seq<Match>): seq<Match> {
    if ms == [] then [] else InsertMatch(ms[0], SortMatches(ms[1..]))
  }

  function BestRuleId(rules: seq<Rule>, context: Context, env: Env): Option<nat> {
    var sorted := SortMatches(Matches(rules, context, env));
    if sorted == [] then None else Some(sorted[0].id)
  }

  lemma {:induction false} InsertedHead(m: Match, sorted: seq<Match>)
    ensures var r := InsertMatch(m, sorted);
            r != [] && r[0] == (if sorted == [] || Before(m, sorted[0]) then m else sorted[0])
  {}

  /** The head of the sorted list is a match that no other one beats. */
  lemma {:induction false} SortedHeadIsBest(ms: seq<Match>)
    ensures ms == [] <==> SortMatches(ms) == []
    ensures ms != [] ==> SortMatches(ms)[0] in ms
    ensures forall i | 0 <= i < |ms| :: Before(SortMatches(ms)[0], ms[i])
  {
    if ms != [] {
      SortedHeadIsBest(ms[1..]);
      var rest := SortMatches(ms[1..]);
      InsertedHead(ms[0], rest);
      var head := SortMatches(ms)[0];
      forall i | 0 <= i < |ms| ensures Before(head, ms[i]) {
        if i > 0 { assert ms[i] == ms[1..][i - 1]; }
      }
      if head == ms[0] {
      } else {
        var j :| 0 <= j < |ms[1..]| && ms[1..][j] == head;
        assert ms[j + 1] == head;
      }
    }
  }

  /** A rule that can be chosen for a context. */
  predicate Eligible(rules: seq<Rule>, i: int, context: Context, env: Env) {
    0 <= i < |rules| && Usable(rules[i], context, env) && rules[i].id.Some?
  }

  predicate Offers(rules: seq<Rule>, m: Match, context: Context, env: Env) {
    exists i | 0 <= i < |rules| :: Eligible(rules, i, context, env) && MatchOf(rules[i]) == m
  }

  lemma {:induction false} MatchesAreEligible(rules: seq<Rule>, context: Context, env: Env)
    ensures forall m :: m in Matches(rules, context, env) <==> Offers(rules, m, context, env)
  {
    if rules != [] {
      var rest := rules[1..];
      MatchesAreEligible(rest, context, env);
      forall m ensures m in Matches(rules, context, env) <==> Offers(rules, m, context, env) {
        var first := Eligible(rules, 0, context, env) && MatchOf(rules[0]) == m;
        assert m in Matches(rules, context, env) <==> first || m in Matches(rest, context, env);
        if Offers(rest, m, context, env) {
          var j :| 0 <= j < |rest| && Eligible(rest, j, context, env) && MatchOf(rest[j]) == m;
          assert Eligible(rules, j + 1, context, env) && rules[j + 1] == rest[j];
        }
        if Offers(rules, m, context, env) && !first {
          var i :| 0 <= i < |rules| && Eligible(rules, i, context, env) && MatchOf(rules[i]) == m;
          assert Eligible(rest, i - 1, context, env) && rest[i - 1] == rules[i];
        }
      }
    }
  }

  /** Rule `i` is eligible and no eligible rule beats it. */
  ghost predicate IsBest(rules: seq<Rule>, i: int, context: Context, env: Env) {
    && Eligible(rules, i, context, env)
    && forall j | Eligible(rules, j, context, env) :: Before(MatchOf(rules[i]), MatchOf(rules[j]))
  }

  /**
   The chosen id is that of the eligible rule with the lexicographically greatest expiry and id,
   where no expiry counts as 0, and there is none exactly when no rule is eligible.
   */
  lemma BestRuleIsTheMaximum(rules: seq<Rule>, context: Context, env: Env)
    ensures BestRuleId(rules, context, env).None? <==> forall i :: !Eligible(rules, i, context, env)
    ensures forall id :: BestRuleId(rules, context, env) == Some(id) <==>
                         exists i :: IsBest(rules, i, context, env) && rules[i].id == Some(id)
  {
    var ms := Matches(rules, context, env);
    MatchesAreEligible(rules, context, env);
    SortedHeadIsBest(ms);
    if ms == [] {
      forall i ensures !Eligible(rules, i, context, env) {
        if Eligible(rules, i, context, env) {
          assert Offers(rules, MatchOf(rules[i]), context, env);
        }
      }
    } else {
      var head := SortMatches(ms)[0];
      assert head in ms;
      var b :| 0 <= b < |rules| && Eligible(rules, b, context, env) && MatchOf(rules[b]) == head;
      forall j | Eligible(rules, j, context, env) ensures Before(head, MatchOf(rules[j])) {
        assert Offers(rules, MatchOf(rules[j]), context, env);
      }
      assert IsBest(rules, b, context, env);
    }
  }

  /** The choice depends only on which rules there are, not on their order or how often they repeat. */
  lemma BestRuleIgnoresOrder(rules: seq<Rule>, others: seq<Rule>, context: Context, env: Env)
    requires forall i | 0 <= i < |rules| :: rules[i] in others
    requires forall i | 0 <= i < |others| :: others[i] in rules
    ensures BestRuleId(rules, context, env) == BestRuleId(others, context, env)
  {
    BestRuleIsTheMaximum(rules, context, env);
    BestRuleIsTheMaximum(others, context, env);
    if i :| Eligible(rules, i, context, env) {
      var _ := EligibleElsewhere(rules, others, i, context, env);
      var b := TheBest(rules, context, env);
      var b' := TheBest(others, context, env);
      var q := EligibleElsewhere(rules, others, b, context, env);
      var q' := EligibleElsewhere(others, rules, b', context, env);
    } else {
      forall i ensures !Eligible(others, i, context, env) {
        if Eligible(others, i, context, env) {
          var q := EligibleElsewhere(others, rules, i, context, env);
        }
      }
    }
  }

  lemma EligibleElsewhere(rules: seq<Rule>, others: seq<Rule>, i: nat, context: Context, env: Env) returns (q: nat)
    requires Eligible(rules, i, context, env) && rules[i] in others
    ensures Eligible(others, q, context, env) && others[q] == rules[i]
  {
    q :| q < |others| && others[q] == rules[i];
  }

  lemma TheBest(rules: seq<Rule>, context: Context, env: Env) returns (b: nat)
    requires exists i :: Eligible(rules, i, context, env)
    ensures IsBest(rules, b, context, env) && BestRuleId(rules, context, env) == rules[b].id
  {
    BestRuleIsTheMaximum(rules, context, env);
    var id := BestRuleId(rules, context, env).value;
    b :| IsBest(rules, b, context, env) && rules[b].id == Some(id);
  }

  // ---------------------------------------------------------------- invocation trees

  datatype Function = ContractFn(contract: string) | CreateContractFn

  datatype Invocation = Invocation(fn: Function, subs: seq<Invocation>)

  /** The contracts called, each node before its sub-invocations. */
  function CallContracts(inv: Invocation): seq<string> {
    (if inv.fn.ContractFn? then [inv.fn.contract] else []) + CallContractsOfAll(inv.subs)
  }

  function CallContractsOfAll(invs: seq<Invocation>): seq<string> {
    if invs == [] then [] else CallContracts(invs[0]) + CallContractsOfAll(invs[1..])
  }

  lemma {:induction false} CallContractsOfMore(invs: seq<Invocation>, inv: Invocation)
    ensures CallContractsOfAll(invs + [inv]) == CallContractsOfAll(invs) + CallContracts(inv)
  {
    if invs == [] {
      assert [inv][1..] == [];
    } else {
      assert (invs + [inv])[1..] == invs[1..] + [inv];
      CallContractsOfMore(invs[1..], inv);
    }
  }

  method CallContractsFromInvocation(inv: Invocation) returns (contracts: seq<string>)
    ensures contracts == CallContracts(inv)
  {
    contracts := [];
    if inv.fn.ContractFn? {
      contracts := contracts + [inv.fn.contract];
    }
    ghost var own := contracts;
    for i := 0 to |inv.subs|
      invariant contracts == own + CallContractsOfAll(inv.subs[..i])
    {
      var more := CallContractsFromInvocation(inv.subs[i]);
      contracts := contracts + more;
      CallContractsOfMore(inv.subs[..i], inv.subs[i]);
      assert inv.subs[..i + 1] == inv.subs[..i] + [inv.subs[i]];
    }
    assert inv.subs[..|inv.subs|] == inv.subs;
  }

  // ---------------------------------------------------------------- enabling and resolving

  function BestDefault(rules: seq<Rule>, env: Env): Option<nat> {
    BestRuleId(rules, Default, env)
  }

  function BestSession(rules: seq<Rule>, contract: string, env: Env): Option<nat> {
    BestRuleId(rules, CallContract(contract), env)
  }

  predicate SessionIsEnabled(rules: seq<Rule>, env: Env, contracts: seq<string>) {
    BestDefault(rules, env).Some? || forall i | 0 <= i < |contracts| :: BestSession(rules, contracts[i], env).Some?
  }

  datatype Error = NoContractCall | NotEnabledFor(contract: string)

  /** The `map` that throws at the first contract with no rule. */
  function ResolveEach(rules: seq<Rule>, env: Env, contracts: seq<string>): Result<seq<nat>, Error> {
    if contracts == [] then Ok([])
    else
      match BestSession(rules, contracts[0], env)
      case None => Err(NotEnabledFor(contracts[0]))
      case Some(id) =>
        match ResolveEach(rules, env, contracts[1..])
        case Err(e) => Err(e)
        case Ok(ids) => Ok([id] + ids)
  }

  function Resolve(rules: seq<Rule>, env: Env, root: Invocation): Result<seq<nat>, Error> {
    var contracts := CallContracts(root);
    if contracts == [] then Err(NoContractCall)
    else if BestDefault(rules, env).Some? then Ok(seq(|contracts|, _ => BestDefault(rules, env).value))
    else ResolveEach(rules, env, contracts)
  }

  /** The rule names the session key and the configured policy, and has more than 100 ledgers to go if it ends. */
  predicate Admits(rule: Rule, env: Env) {
    && Delegated(env.publicKey) in rule.signers
    && env.policy != "" && env.policy in rule.policies
    && (rule.validUntil.Some? ==> rule.validUntil.value > env.ledger + 100)
  }

  /** A rule with this id authorizes the session key to call `contract`. */
  predicate Authorizes(rules: seq<Rule>, id: nat, contract: string, env: Env) {
    exists i | 0 <= i < |rules| ::
      && rules[i].id == Some(id) && Admits(rules[i], env)
      && (rules[i].context == Default || rules[i].context == CallContract(contract))
  }

  lemma UsableIff(rule: Rule, context: Context, env: Env)
    ensures Usable(rule, context, env) <==> rule.context == context && Admits(rule, env)
  {
    if Delegated(env.publicKey) in rule.signers {
      var i :| 0 <= i < |rule.signers| && rule.signers[i] == Delegated(env.publicKey);
    }
    if env.policy in rule.policies {
      var i :| 0 <= i < |rule.policies| && rule.policies[i] == env.policy;
    }
  }

  /** The id chosen is that of a rule of the context that admits the session; one is chosen whenever there is one. */
  lemma ChosenRuleAdmits(rules: seq<Rule>, context: Context, env: Env)
    ensures var chosen := BestRuleId(rules, context, env);
            && (chosen.Some? ==>
                  exists rule :: rule in rules && rule.id == chosen && rule.context == context && Admits(rule, env))
            && (chosen.None? ==>
                  forall rule :: rule in rules && rule.context == context && Admits(rule, env) ==> rule.id.None?)
  {
    BestRuleIsTheMaximum(rules, context, env);
    if BestRuleId(rules, context, env).Some? {
      var id := BestRuleId(rules, context, env).value;
      var i :| IsBest(rules, i, context, env) && rules[i].id == Some(id);
      UsableIff(rules[i], context, env);
    } else {
      forall rule | rule in rules && rule.context == context && Admits(rule, env) ensures rule.id.None? {
        var i :| 0 <= i < |rules| && rules[i] == rule;
        UsableIff(rule, context, env);
        assert !Eligible(rules, i, context, env);
      }
    }
  }

  /**
   Walks an invocation tree as the account does, node before sub-invocations, taking one rule id
   for each contract call. The result is the ids left over, or nothing when one does not authorize its call.
   */
  function Check(rules: seq<Rule>, env: Env, inv: Invocation, ids: seq<nat>): Option<seq<nat>>
    decreases inv, 1
  {
    if inv.fn.CreateContractFn? then CheckAll(rules, env, inv.subs, ids)
    else if ids == [] || !Authorizes(rules, ids[0], inv.fn.contract, env) then None
    else CheckAll(rules, env, inv.subs, ids[1..])
  }

  function CheckAll(rules: seq<Rule>, env: Env, invs: seq<Invocation>, ids: seq<nat>): Option<seq<nat>>
    decreases invs, 0
  {
    if invs == [] then Some(ids)
    else
      match Check(rules, env, invs[0], ids)
      case None => None
      case Some(rest) => CheckAll(rules, env, invs[1..], rest)
  }

  /** Each id authorizes the contract at its place. */
  predicate AuthorizesEach(rules: seq<Rule>, env: Env, contracts: seq<string>, ids: seq<nat>) {
    |ids| == |contracts| && forall i | 0 <= i < |ids| :: Authorizes(rules, ids[i], contracts[i], env)
  }

  lemma BestAuthorizes(rules: seq<Rule>, context: Context, contract: string, env: Env)
    requires context == Default || context == CallContract(contract)
    requires BestRuleId(rules, context, env).Some?
    ensures Authorizes(rules, BestRuleId(rules, context, env).value, contract, env)
  {
    ChosenRuleAdmits(rules, context, env);
    var id := BestRuleId(rules, context, env);
    var rule :| rule in rules && rule.id == id && rule.context == context && Admits(rule, env);
    var i :| 0 <= i < |rules| && rules[i] == rule;
  }

  lemma {:induction false} EachIsResolved(rules: seq<Rule>, env: Env, contracts: seq<string>)
    ensures ResolveEach(rules, env, contracts).Ok? <==>
              forall i | 0 <= i < |contracts| :: BestSession(rules, contracts[i], env).Some?
    ensures ResolveEach(rules, env, contracts).Ok? ==>
              AuthorizesEach(rules, env, contracts, ResolveEach(rules, env, contracts).value)
  {
    if contracts != [] {
      var rest := contracts[1..];
      EachIsResolved(rules, env, rest);
      if BestSession(rules, contracts[0], env).Some? {
        BestAuthorizes(rules, CallContract(contracts[0]), contracts[0], env);
      }
      assert forall i | 0 < i < |contracts| :: contracts[i] == rest[i - 1];
      assert forall i | 0 <= i < |rest| :: rest[i] == contracts[i + 1];
    }
  }

  /** Ids that authorize the calls in order pass the walk over the tree, which uses exactly those. */
  lemma {:induction false} WalkUsesEachId(rules: seq<Rule>, env: Env, inv: Invocation, ids: seq<nat>, more: seq<nat>)
    requires AuthorizesEach(rules, env, CallContracts(inv), ids)
    ensures Check(rules, env, inv, ids + more) == Some(more)
    decreases inv, 1
  {
    if inv.fn.ContractFn? {
      assert CallContracts(inv)[1..] == CallContractsOfAll(inv.subs);
      assert CallContracts(inv)[0] == inv.fn.contract;
      assert (ids + more)[1..] == ids[1..] + more;
      assert forall i | 0 <= i < |ids[1..]| ::
          ids[1..][i] == ids[i + 1] && CallContracts(inv)[1..][i] == CallContracts(inv)[i + 1];
      WalkOfAllUsesEachId(rules, env, inv.subs, ids[1..], more);
    } else {
      assert CallContracts(inv) == CallContractsOfAll(inv.subs);
      WalkOfAllUsesEachId(rules, env, inv.subs, ids, more);
    }
  }

  lemma {:induction false} WalkOfAllUsesEachId(
    rules: seq<Rule>, env: Env, invs: seq<Invocation>, ids: seq<nat>, more: seq<nat>)
    requires AuthorizesEach(rules, env, CallContractsOfAll(invs), ids)
    ensures CheckAll(rules, env, invs, ids + more) == Some(more)
    decreases invs, 0
  {
    if invs == [] {
      assert ids + more == more;
    } else {
      var head, tail := CallContracts(invs[0]), CallContractsOfAll(invs[1..]);
      var a, b := ids[..|head|], ids[|head|..];
      assert ids + more == a + (b + more);
      assert forall i | 0 <= i < |a| :: head[i] == (head + tail)[i];
      assert forall i | 0 <= i < |b| :: tail[i] == (head + tail)[i + |head|];
      WalkUsesEachId(rules, env, invs[0], a, b + more);
      WalkOfAllUsesEachId(rules, env, invs[1..], b, more);
    }
  }

  /**
   Resolution succeeds exactly when the tree calls some contract and the session is enabled for all it
   calls, and then the account's walk accepts the ids and uses every one of them.
   */
  lemma EnabledExactlyWhenResolved(rules: seq<Rule>, env: Env, root: Invocation)
    ensures Resolve(rules, env, root).Ok? <==>
              CallContracts(root) != [] && SessionIsEnabled(rules, env, CallContracts(root))
    ensures Resolve(rules, env, root).Ok? ==> Check(rules, env, root, Resolve(rules, env, root).value) == Some([])
  {
    var contracts := CallContracts(root);
    EachIsResolved(rules, env, contracts);
    if Resolve(rules, env, root).Ok? {
      var ids := Resolve(rules, env, root).value;
      if BestDefault(rules, env).Some? {
        forall i | 0 <= i < |ids| ensures Authorizes(rules, ids[i], contracts[i], env) {
          BestAuthorizes(rules, Default, contracts[i], env);
        }
      }
      WalkUsesEachId(rules, env, root, ids, []);
      assert ids + [] == ids;
    }
  }

  /** The rule that calls of a contract go by: the best default one, or else the best one for the contract. */
  predicate GoesBy(rules: seq<Rule>, env: Env, contract: string, id: nat) {
    if BestDefault(rules, env).Some? then BestDefault(rules, env) == Some(id)
    else BestSession(rules, contract, env) == Some(id)
  }

  lemma {:induction false} EachGoesBy(rules: seq<Rule>, env: Env, contracts: seq<string>)
    ensures match ResolveEach(rules, env, contracts)
            case Ok(ids) =>
              |ids| == |contracts|
              && forall i | 0 <= i < |ids| :: BestSession(rules, contracts[i], env) == Some(ids[i])
            case Err(e) =>
              exists i | 0 <= i < |contracts| ::
                && e == NotEnabledFor(contracts[i]) && BestSession(rules, contracts[i], env).None?
                && forall j | 0 <= j < i :: BestSession(rules, contracts[j], env).Some?
  {
    if contracts != [] {
      var rest := contracts[1..];
      EachGoesBy(rules, env, rest);
      var r := ResolveEach(rules, env, rest);
      if BestSession(rules, contracts[0], env).Some? && r.Err? {
        var i :| 0 <= i < |rest| && r.error == NotEnabledFor(rest[i]) && BestSession(rules, rest[i], env).None?
                 && forall j | 0 <= j < i :: BestSession(rules, rest[j], env).Some?;
        assert contracts[i + 1] == rest[i];
        assert forall j | 0 < j < i + 1 :: contracts[j] == rest[j - 1];
      }
    }
  }

  /**
   The ids are those of the default rule wherever there is one, and otherwise of each contract's own; what is
   reported as not enabled is the first contract that has none.
   */
  lemma ResolvesByDefaultFirst(rules: seq<Rule>, env: Env, root: Invocation)
    ensures var contracts := CallContracts(root);
            match Resolve(rules, env, root)
            case Ok(ids) =>
              |ids| == |contracts| && forall i | 0 <= i < |ids| :: GoesBy(rules, env, contracts[i], ids[i])
            case Err(NoContractCall) => contracts == []
            case Err(NotEnabledFor(c)) =>
              && BestDefault(rules, env).None?
              && exists i | 0 <= i < |contracts| ::
                   && c == contracts[i] && BestSession(rules, c, env).None?
                   && forall j | 0 <= j < i :: BestSession(rules, contracts[j], env).Some?
  {
    EachGoesBy(rules, env, CallContracts(root));
  }

  /** A session enabled for a list of contracts resolves every tree that calls only those. */
  lemma EnabledCoversTrees(rules: seq<Rule>, env: Env, contracts: seq<string>, root: Invocation)
    requires SessionIsEnabled(rules, env, contracts)
    requires CallContracts(root) != [] && forall i | 0 <= i < |CallContracts(root)| ::
              CallContracts(root)[i] in contracts
    ensures Resolve(rules, env, root).Ok? && |Resolve(rules, env, root).value| == |CallContracts(root)|
    ensures Check(rules, env, root, Resolve(rules, env, root).value) == Some([])
  {
    EnabledExactlyWhenResolved(rules, env, root);
    EachIsResolved(rules, env, CallContracts(root));
  }

  /** As ledgers pass, sessions only lapse: what is enabled later was enabled before. */
  lemma SessionsOnlyLapse(rules: seq<Rule>, env: Env, later: nat, contracts: seq<string>)
    requires env.ledger <= later && SessionIsEnabled(rules, env.(ledger := later), contracts)
    ensures SessionIsEnabled(rules, env, contracts)
  {
    RulesOnlyLapse(rules, Default, env, later);
    forall i | 0 <= i < |contracts| && BestDefault(rules, env.(ledger := later)).None?
      ensures BestSession(rules, contracts[i], env).Some?
    {
      RulesOnlyLapse(rules, CallContract(contracts[i]), env, later);
    }
  }

  lemma RulesOnlyLapse(rules: seq<Rule>, context: Context, env: Env, later: nat)
    requires env.ledger <= later
    ensures BestRuleId(rules, context, env.(ledger := later)).Some? ==> BestRuleId(rules, context, env).Some?
  {
    BestRuleIsTheMaximum(rules, context, env);
    BestRuleIsTheMaximum(rules, context, env.(ledger := later));
    if i :| Eligible(rules, i, context, env.(ledger := later)) {
      assert Eligible(rules, i, context, env);
    }
  }

  // ---------------------------------------------------------------- the status shown to the holder

  datatype Status = Status(
    enabled: bool,
    validUntilLedger: Option<nat>,
    installed: seq<string>,
    missing: seq<string>)

  function WithRule(rules: seq<Rule>, env: Env, targets: seq<string>): seq<string> {
    if targets == [] then []
    else
      (if BestSession(rules, targets[0], env).Some? then [targets[0]] else []) + WithRule(rules, env, targets[1..])
  }

  function Without(targets: seq<string>, installed: seq<string>): seq<string> {
    if targets == [] then []
    else (if targets[0] in installed then [] else [targets[0]]) + Without(targets[1..], installed)
  }

  function FindRule(rules: seq<Rule>, id: nat): Option<Rule> {
    if rules == [] then None else if rules[0].id == Some(id) then Some(rules[0]) else FindRule(rules[1..], id)
  }

  function ShownExpiry(rules: seq<Rule>, env: Env): Option<nat> {
    match BestDefault(rules, env)
    case None => None
    case Some(id) =>
      match FindRule(rules, id)
      case None => None
      case Some(rule) => if rule.validUntil == Some(0) then None else rule.validUntil
  }

  /** `session` says whether this device holds a session key. */
  function SessionStatus(session: bool, rules: seq<Rule>, env: Env, targets: seq<string>): Status {
    if !session then Status(false, None, [], targets)
    else
      var enabled := SessionIsEnabled(rules, env, targets);
      var installed := if enabled then targets else WithRule(rules, env, targets);
      Status(enabled, ShownExpiry(rules, env), installed, if enabled then [] else Without(targets, installed))
  }

  lemma {:induction false} WithRuleIsExact(rules: seq<Rule>, env: Env, targets: seq<string>)
    ensures forall c :: c in WithRule(rules, env, targets) <==> c in targets && BestSession(rules, c, env).Some?
  {
    if targets != [] {
      WithRuleIsExact(rules, env, targets[1..]);
      assert forall c :: c in targets <==> c == targets[0] || c in targets[1..];
    }
  }

  lemma {:induction false} WithoutIsExact(targets: seq<string>, installed: seq<string>)
    ensures forall c :: c in Without(targets, installed) <==> c in targets && c !in installed
  {
    if targets != [] {
      WithoutIsExact(targets[1..], installed);
      assert forall c :: c in targets <==> c == targets[0] || c in targets[1..];
    }
  }

  /** With a session key, a target is shown as missing exactly when resolving a call to it throws. */
  lemma MissingIsWhatDoesNotResolve(rules: seq<Rule>, env: Env, targets: seq<string>, c: string)
    ensures var status := SessionStatus(true, rules, env, targets);
            && (c in status.missing <==> c in targets && Resolve(rules, env, Invocation(ContractFn(c), [])).Err?)
            && (c in status.installed <==> c in targets && Resolve(rules, env, Invocation(ContractFn(c), [])).Ok?)
  {
    var root := Invocation(ContractFn(c), []);
    assert CallContracts(root) == [c];
    EnabledExactlyWhenResolved(rules, env, root);
    WithRuleIsExact(rules, env, targets);
    WithoutIsExact(targets, WithRule(rules, env, targets));
  }

  /** Enabled means nothing is missing, except when there is no session key and no target either. */
  lemma EnabledIffNothingMissing(session: bool, rules: seq<Rule>, env: Env, targets: seq<string>)
    ensures var status := SessionStatus(session, rules, env, targets);
            (status.enabled <==> status.missing == []) <==> session || targets != []
  {
    if session && !SessionIsEnabled(rules, env, targets) {
      var i :| 0 <= i < |targets| && BestSession(rules, targets[i], env).None?;
      WithRuleIsExact(rules, env, targets);
      WithoutIsExact(targets, WithRule(rules, env, targets));
      assert targets[i] in SessionStatus(session, rules, env, targets).missing;
    }
  }

  predicate DistinctIds(rules: seq<Rule>) {
    forall i, j | 0 <= i < j < |rules| :: rules[i].id.Some? ==> rules[i].id != rules[j].id
  }

  lemma {:induction false} FoundRule(rules: seq<Rule>, i: nat)
    requires DistinctIds(rules) && i < |rules| && rules[i].id.Some?
    ensures FindRule(rules, rules[i].id.value) == Some(rules[i])
  {
    if i > 0 {
      assert rules[i] == rules[1..][i - 1];
      FoundRule(rules[1..], i - 1);
    }
  }

  /** No usable default rule that expires outlasts the expiry shown, and one expires just then. */
  lemma ShownExpiryIsTheLatest(rules: seq<Rule>, env: Env, i: nat)
    requires DistinctIds(rules) && Eligible(rules, i, Default, env) && rules[i].validUntil.Some?
    ensures ShownExpiry(rules, env).Some? && rules[i].validUntil.value <= ShownExpiry(rules, env).value
    ensures exists b :: Eligible(rules, b, Default, env) && rules[b].validUntil == ShownExpiry(rules, env)
  {
    BestRuleIsTheMaximum(rules, Default, env);
    var b := TheBest(rules, Default, env);
    FoundRule(rules, b);
    assert Before(MatchOf(rules[b]), MatchOf(rules[i]));
  }

  /** No expiry is shown when no usable default rule expires. */
  lemma NoExpiryIsShown(rules: seq<Rule>, env: Env)
    requires DistinctIds(rules) && forall i :: Eligible(rules, i, Default, env) ==> rules[i].validUntil.None?
    ensures ShownExpiry(rules, env).None?
  {
    BestRuleIsTheMaximum(rules, Default, env);
    if BestDefault(rules, env).Some? {
      var b := TheBest(rules, Default, env);
      FoundRule(rules, b);
    }
  }

  /**
   A rule that never expires is chosen exactly when it can be, no rule that can be expires, and
   none of them has a greater id.
   */
  lemma LastingRuleIsChosenIff(rules: seq<Rule>, context: Context, env: Env, i: nat)
    requires DistinctIds(rules) && i < |rules| && rules[i].id.Some? && rules[i].validUntil.None?
    ensures BestRuleId(rules, context, env) == rules[i].id <==>
            && Eligible(rules, i, context, env)
            && forall j | Eligible(rules, j, context, env) ::
                 rules[j].validUntil.None? && rules[j].id.value <= rules[i].id.value
  {
    BestRuleIsTheMaximum(rules, context, env);
    if BestRuleId(rules, context, env) == rules[i].id {
      var b :| IsBest(rules, b, context, env) && rules[b].id == rules[i].id;
      assert b == i;
      forall j | Eligible(rules, j, context, env)
        ensures rules[j].validUntil.None? && rules[j].id.value <= rules[i].id.value
      {
        assert Before(MatchOf(rules[i]), MatchOf(rules[j]));
      }
    } else if Eligible(rules, i, context, env) {
      var b := TheBest(rules, context, env);
      assert Before(MatchOf(rules[b]), MatchOf(rules[i]));
    }
  }
}
