/**
 Listing an account's context rules by probing one id after another, giving up after a run of
 absent ids.
 */
module ContextRules {
  import opened Common

  /** A rule as the account returns it, under the id it was asked for; the rest is its body. */
  datatype Rule<T> = Rule(id: nat, body: T)

  function MaxRuleId(count: nat, maxMisses: nat, cap: nat): nat {
    Min(cap, Max(count + maxMisses, maxMisses))
  }

  /** The `length` ids from `from` on are all absent. */
  predicate Absent<T>(chain: map<nat, T>, from: nat, length: nat) {
    forall k | from <= k < from + length :: k !in chain
  }

  /** Some run of `length` absent ids ends by `id`. */
  predicate RunBefore<T>(chain: map<nat, T>, length: nat, id: nat) {
    exists from | 0 <= from <= id :: from + length <= id && Absent(chain, from, length)
  }

  /** The rule is listed: it is within the bound, and no long run of absent ids comes before it. */
  predicate Listed<T>(chain: map<nat, T>, count: nat, maxMisses: nat, cap: nat, id: nat) {
    && id in chain
    && id <= MaxRuleId(count, maxMisses, cap)
    && !RunBefore(chain, Max(1, maxMisses), id)
  }

  predicate Increasing<T>(rules: seq<Rule<T>>) {
    forall i, j | 0 <= i < j < |rules| :: rules[i].id < rules[j].id
  }

  function InsertById<T>(r: Rule<T>, sorted: seq<Rule<T>>): seq<Rule<T>> {
    if sorted == [] || r.id <= sorted[0].id then [r] + sorted else [sorted[0]] + InsertById(r, sorted[1..])
  }

  /** The stable sort of the final line. */
  function SortById<T>(rules: seq<Rule<T>>): seq<Rule<T>> {
    if rules == [] then [] else InsertById(rules[0], SortById(rules[1..]))
  }

  lemma {:induction false} SortOfIncreasing<T>(rules: seq<Rule<T>>)
    requires Increasing(rules)
    ensures SortById(rules) == rules
  {
    if rules != [] {
      assert forall i | 0 <= i < |rules[1..]| :: rules[1..][i] == rules[i + 1];
      SortOfIncreasing(rules[1..]);
    }
  }

  /** Rule `id` of the account is at some place of the list. */
  ghost predicate Has<T>(rules: seq<Rule<T>>, id: nat, body: T) {
    exists i | 0 <= i < |rules| :: rules[i] == Rule(id, body)
  }

  /** `rules` are the listed rules of the account with ids below `upTo`, in order of id. */
  ghost predicate IsListing<T>(
    rules: seq<Rule<T>>, chain: map<nat, T>, count: nat, maxMisses: nat, cap: nat, upTo: nat)
  {
    && Increasing(rules)
    && (forall i | 0 <= i < |rules| ::
          && Listed(chain, count, maxMisses, cap, rules[i].id)
          && rules[i].id < upTo
          && rules[i].body == chain[rules[i].id])
    && (forall id | 0 <= id < upTo && Listed(chain, count, maxMisses, cap, id) :: Has(rules, id, chain[id]))
  }

  lemma RunBeforeNext<T>(chain: map<nat, T>, length: nat, id: nat)
    requires length >= 1
    ensures RunBefore(chain, length, id + 1) <==>
              RunBefore(chain, length, id) || (length <= id + 1 && Absent(chain, id + 1 - length, length))
  {
    if RunBefore(chain, length, id + 1) {
      var from :| 0 <= from <= id + 1 && from + length <= id + 1 && Absent(chain, from, length);
      assert from + length <= id || from == id + 1 - length;
    }
    if RunBefore(chain, length, id) {
      var from :| 0 <= from <= id && from + length <= id && Absent(chain, from, length);
      assert 0 <= from <= id + 1;
    }
  }

  lemma {:induction false} RunStays<T>(chain: map<nat, T>, length: nat, id: nat, later: nat)
    requires length >= 1 && RunBefore(chain, length, id) && id <= later
    ensures RunBefore(chain, length, later)
    decreases later
  {
    if id < later {
      RunStays(chain, length, id, later - 1);
      RunBeforeNext(chain, length, later - 1);
    }
  }

  /** Nothing past an absent id that ends a long run is listed. */
  lemma GiveUp<T>(rules: seq<Rule<T>>, chain: map<nat, T>, count: nat, maxMisses: nat, cap: nat, id: nat, upTo: nat)
    requires IsListing(rules, chain, count, maxMisses, cap, id) && id < upTo && id !in chain
    requires RunBefore(chain, Max(1, maxMisses), id + 1)
    ensures IsListing(rules, chain, count, maxMisses, cap, upTo)
  {
    forall k | id <= k < upTo ensures !Listed(chain, count, maxMisses, cap, k) {
      if k > id { RunStays(chain, Max(1, maxMisses), id + 1, k); }
    }
  }

  lemma FoundId<T>(rules: seq<Rule<T>>, chain: map<nat, T>, count: nat, maxMisses: nat, cap: nat, id: nat)
    requires IsListing(rules, chain, count, maxMisses, cap, id) && Listed(chain, count, maxMisses, cap, id)
    ensures IsListing(rules + [Rule(id, chain[id])], chain, count, maxMisses, cap, id + 1)
  {
    var more := rules + [Rule(id, chain[id])];
    forall k | 0 <= k < id + 1 && Listed(chain, count, maxMisses, cap, k) ensures Has(more, k, chain[k]) {
      if k < id {
        var i :| 0 <= i < |rules| && rules[i] == Rule(k, chain[k]);
        assert more[i] == rules[i];
      } else {
        assert more[|rules|] == Rule(k, chain[k]);
      }
    }
  }

  lemma MissedId<T>(rules: seq<Rule<T>>, chain: map<nat, T>, count: nat, maxMisses: nat, cap: nat, id: nat)
    requires IsListing(rules, chain, count, maxMisses, cap, id) && id !in chain
    ensures IsListing(rules, chain, count, maxMisses, cap, id + 1)
  {}

  /** The number of absent ids just before `id`. */
  predicate Misses<T>(chain: map<nat, T>, id: nat, misses: nat) {
    misses <= id && Absent(chain, id - misses, misses) && (misses < id ==> id - misses - 1 in chain)
  }

  lemma AfterMiss<T>(chain: map<nat, T>, run: nat, id: nat, misses: nat)
    requires Misses(chain, id, misses) && misses < run && !RunBefore(chain, run, id) && id !in chain
    ensures Misses(chain, id + 1, misses + 1) && (RunBefore(chain, run, id + 1) <==> misses + 1 == run)
  {
    RunBeforeNext(chain, run, id);
    assert run == misses + 1 ==> Absent(chain, id + 1 - run, run);
    assert misses + 1 < run <= id + 1 ==> id - misses - 1 in chain;
  }

  lemma AfterHit<T>(chain: map<nat, T>, run: nat, id: nat)
    requires run >= 1 && !RunBefore(chain, run, id) && id in chain
    ensures Misses(chain, id + 1, 0) && !RunBefore(chain, run, id + 1)
  {
    RunBeforeNext(chain, run, id);
  }

  /** The probe loop lists exactly the rules within the bound that no long run of absent ids precedes. */
  method ListOnChainContextRules<T>(chain: map<nat, T>, count: nat, maxMisses: nat, cap: nat)
    returns (listed: seq<Rule<T>>)
    ensures IsListing(listed, chain, count, maxMisses, cap, MaxRuleId(count, maxMisses, cap) + 1)
  {
    var maxRuleId := MaxRuleId(count, maxMisses, cap);
    var rules: seq<Rule<T>> := [];
    var misses := 0;
    var id := 0;
    ghost var run := Max(1, maxMisses);
    while id <= maxRuleId
      invariant id <= maxRuleId + 1
      invariant Misses(chain, id, misses) && misses < run && !RunBefore(chain, run, id)
      invariant IsListing(rules, chain, count, maxMisses, cap, id)
    {
      if id !in chain {
        AfterMiss(chain, run, id, misses);
        misses := misses + 1;
        if misses >= maxMisses {
          GiveUp(rules, chain, count, maxMisses, cap, id, maxRuleId + 1);
          break;
        }
        MissedId(rules, chain, count, maxMisses, cap, id);
      } else {
        AfterHit(chain, run, id);
        misses := 0;
        FoundId(rules, chain, count, maxMisses, cap, id);
        rules := rules + [Rule(id, chain[id])];
      }
      id := id + 1;
    }
    SortOfIncreasing(rules);
    listed := SortById(rules);
  }

  // ---------------------------------------------------------------- when every rule is listed

  /** The absent ids below `upTo`. */
  function Gaps<T>(chain: map<nat, T>, upTo: nat): nat {
    if upTo == 0 then 0 else Gaps(chain, upTo - 1) + if upTo - 1 in chain then 0 else 1
  }

  function KeysBelow<T>(chain: map<nat, T>, upTo: nat): set<nat> {
    set k | k in chain && k < upTo
  }

  lemma {:induction false} KeysAndGaps<T>(chain: map<nat, T>, upTo: nat)
    ensures |KeysBelow(chain, upTo)| + Gaps(chain, upTo) == upTo
  {
    if upTo == 0 {
      assert KeysBelow(chain, 0) == {};
    } else {
      KeysAndGaps(chain, upTo - 1);
      var below := KeysBelow(chain, upTo - 1);
      assert KeysBelow(chain, upTo) == if upTo - 1 in chain then below + {upTo - 1} else below;
    }
  }

  /** `top` is the account's highest rule id. */
  predicate Highest<T>(chain: map<nat, T>, top: nat) {
    top in chain && forall k | k in chain :: k <= top
  }

  lemma CountIsExact<T>(chain: map<nat, T>, top: nat)
    requires Highest(chain, top)
    ensures top + 1 == |chain| + Gaps(chain, top)
  {
    KeysAndGaps(chain, top + 1);
    assert KeysBelow(chain, top + 1) == chain.Keys;
  }

  /**
   With the account's true rule count, every rule is listed exactly when the highest id is within the
   cap, no long run of ids is absent before it, and at most `maxMisses + 1` ids are absent in all.
   */
  lemma EveryRuleIsListedIff<T>(chain: map<nat, T>, maxMisses: nat, cap: nat, top: nat)
    requires Highest(chain, top)
    ensures (forall id | id in chain :: Listed(chain, |chain|, maxMisses, cap, id)) <==>
              top <= cap && Gaps(chain, top) <= maxMisses + 1 && !RunBefore(chain, Max(1, maxMisses), top)
  {
    CountIsExact(chain, top);
    forall id | id in chain && RunBefore(chain, Max(1, maxMisses), id)
      ensures RunBefore(chain, Max(1, maxMisses), top)
    {
      RunStays(chain, Max(1, maxMisses), id, top);
    }
  }
}
