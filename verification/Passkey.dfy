/**
 Passkey ceremonies: a chain of promises that lets one ceremony run at a time, the count of
 running ceremonies, and the listeners told whether any is running.
 */
module Passkey {
  import opened Common

  /** How far the promise of one ceremony has come. */
  datatype Phase = Waiting | Running | Settled(ok: bool)

  /** A ceremony: the promise it was chained to, its phase, and the ceremony whose promise its body awaits. */
  datatype Ceremony = Ceremony(after: Option<nat>, phase: Phase, awaits: Option<nat>)

  /** `told` is what each listener was last told; `chain` is the last promise in the chain. */
  datatype State = State(ceremonies: seq<Ceremony>, chain: Option<nat>, busyCount: nat, told: map<nat, bool>)

  /** What callers and the event loop do. */
  datatype Event =
    | Call
    | Start(i: nat)
    | Await(i: nat, j: nat)
    | Settle(i: nat, ok: bool)
    | Subscribe(listener: nat)
    | Unsubscribe(listener: nat)

  predicate IsSettled(s: State, promise: Option<nat>) {
    promise.None? || (promise.value < |s.ceremonies| && s.ceremonies[promise.value].phase.Settled?)
  }

  const EMPTY := State([], None, 0, map[])

  predicate IsRunning(s: State, i: nat) {
    i < |s.ceremonies| && s.ceremonies[i].phase.Running?
  }

  /** A callback starts once the promise it hangs on is settled; a body goes on once what it awaits is. */
  predicate Enabled(s: State, e: Event) {
    match e
    case Call => true
    case Start(i) =>
      i < |s.ceremonies| && s.ceremonies[i].phase.Waiting? && IsSettled(s, s.ceremonies[i].after)
    case Await(i, j) => IsRunning(s, i) && IsSettled(s, s.ceremonies[i].awaits) && j < |s.ceremonies|
    case Settle(i, _) => IsRunning(s, i) && IsSettled(s, s.ceremonies[i].awaits)
    case Subscribe(_) => true
    case Unsubscribe(_) => true
  }

  function WithBusy(s: State, next: bool): State {
    var count := if next then s.busyCount + 1 else Max(0, s.busyCount - 1);
    s.(busyCount := count, told := map l | l in s.told :: count > 0)
  }

  function WithCeremony(s: State, i: nat, c: Ceremony): State
    requires i < |s.ceremonies|
  {
    s.(ceremonies := s.ceremonies[i := c])
  }

  function Next(s: State, e: Event): State
    requires Enabled(s, e)
  {
    match e
    case Call =>
      s.(ceremonies := s.ceremonies + [Ceremony(s.chain, Waiting, None)], chain := Some(|s.ceremonies|))
    case Start(i) => WithBusy(WithCeremony(s, i, s.ceremonies[i].(phase := Running)), true)
    case Await(i, j) => WithCeremony(s, i, s.ceremonies[i].(awaits := Some(j)))
    case Settle(i, ok) => WithBusy(WithCeremony(s, i, s.ceremonies[i].(phase := Settled(ok))), false)
    case Subscribe(l) => s.(told := s.told[l := s.busyCount > 0])
    case Unsubscribe(l) => s.(told := s.told - {l})
  }

  class Passkeys {
    var ceremonies: seq<Ceremony>
    var chain: Option<nat>
    var busyCount: nat
    var told: map<nat, bool>

    function Current(): State
      reads this
    {
      State(ceremonies, chain, busyCount, told)
    }

    constructor ()
      ensures Current() == EMPTY
    {
      ceremonies, chain, busyCount, told := [], None, 0, map[];
    }

    method SetBusy(next: bool)
      modifies this`busyCount, this`told
      ensures Current() == WithBusy(old(Current()), next)
    {
      if next {
        busyCount := busyCount + 1;
      } else {
        busyCount := Max(0, busyCount - 1);
      }
      var busy := busyCount > 0;
      var listeners := told.Keys;
      while listeners != {}
        invariant busyCount == WithBusy(old(Current()), next).busyCount
        invariant listeners <= told.Keys == old(told.Keys)
        invariant forall l | l in told && l !in listeners :: told[l] == busy
      {
        var l :| l in listeners;
        told := told[l := busy];
        listeners := listeners - {l};
      }
      assert told == map l | l in old(told) :: busy;
    }

    method SubscribePasskeyBusy(listener: nat)
      modifies this`told
      ensures Current() == Next(old(Current()), Subscribe(listener))
    {
      told := told[listener := busyCount > 0];
    }

    method Unsubscribe(listener: nat)
      modifies this`told
      ensures Current() == Next(old(Current()), Event.Unsubscribe(listener))
    {
      told := told - {listener};
    }

    method RunPasskeyCeremony() returns (run: nat)
      modifies this`ceremonies, this`chain
      ensures Current() == Next(old(Current()), Call)
      ensures run == |old(ceremonies)| && chain == Some(run)
    {
      run := |ceremonies|;
      ceremonies := ceremonies + [Ceremony(chain, Waiting, None)];
      chain := Some(run);
    }

    /** The callback chained for ceremony `i`, up to the call of its body. */
    method StartCallback(i: nat)
      requires Enabled(Current(), Start(i))
      modifies this
      ensures Current() == Next(old(Current()), Start(i))
    {
      ceremonies := ceremonies[i := ceremonies[i].(phase := Running)];
      SetBusy(true);
    }

    /** The body of ceremony `i` awaits the promise of ceremony `j`. */
    method AwaitCeremony(i: nat, j: nat)
      requires Enabled(Current(), Await(i, j))
      modifies this`ceremonies
      ensures Current() == Next(old(Current()), Await(i, j))
    {
      ceremonies := ceremonies[i := ceremonies[i].(awaits := Some(j))];
    }

    /** The body of ceremony `i` returns or throws, and the `finally` block runs. */
    method SettleCallback(i: nat, ok: bool)
      requires Enabled(Current(), Settle(i, ok))
      modifies this
      ensures Current() == Next(old(Current()), Settle(i, ok))
    {
      ceremonies := ceremonies[i := ceremonies[i].(phase := Settled(ok))];
      SetBusy(false);
    }
  }

  // ---------------------------------------------------------------- every run

  function CountRunning(cs: seq<Ceremony>): nat {
    if cs == [] then 0 else CountRunning(cs[..|cs| - 1]) + if cs[|cs| - 1].phase.Running? then 1 else 0
  }

  /** Each ceremony hangs on the one called before it. */
  predicate Chained(s: State) {
    && (forall i | 0 <= i < |s.ceremonies| :: s.ceremonies[i].after == if i == 0 then None else Some(i - 1))
    && s.chain == if s.ceremonies == [] then None else Some(|s.ceremonies| - 1)
  }

  /** Ceremonies start in the order of the calls, each after all earlier ones have settled. */
  predicate InOrder(s: State) {
    forall i, j | 0 <= i < j < |s.ceremonies| :: s.ceremonies[j].phase.Waiting? || s.ceremonies[i].phase.Settled?
  }

  /** The count and every listener tell the truth; only bodies that started await, and await promises that exist. */
  predicate Truthful(s: State) {
    && s.busyCount == CountRunning(s.ceremonies)
    && (forall l | l in s.told :: s.told[l] == (s.busyCount > 0))
    && (forall i | 0 <= i < |s.ceremonies| && s.ceremonies[i].awaits.Some? ::
          !s.ceremonies[i].phase.Waiting? && s.ceremonies[i].awaits.value < |s.ceremonies|)
  }

  /** What holds at first and after every step. */
  predicate Consistent(s: State) {
    Chained(s) && InOrder(s) && Truthful(s)
  }

  lemma {:induction false} CountOfUpdate(cs: seq<Ceremony>, i: nat, c: Ceremony)
    requires i < |cs|
    ensures CountRunning(cs[i := c]) - (if c.phase.Running? then 1 else 0) ==
            CountRunning(cs) - (if cs[i].phase.Running? then 1 else 0)
    decreases |cs|
  {
    var last := |cs| - 1;
    if i < last {
      assert cs[i := c][..last] == cs[..last][i := c];
      CountOfUpdate(cs[..last], i, c);
    } else {
      assert cs[i := c][..last] == cs[..last];
    }
  }

  lemma {:induction false} RunningIsOne(s: State, i: nat, j: nat)
    requires Consistent(s) && IsRunning(s, i) && IsRunning(s, j)
    ensures i == j && s.busyCount == 1
  {
    CountIsAtMostOne(s, |s.ceremonies|);
    CountOfUpdate(s.ceremonies, i, s.ceremonies[i].(phase := Waiting));
    assert s.ceremonies[..|s.ceremonies|] == s.ceremonies;
  }

  lemma {:induction false} CountIsAtMostOne(s: State, n: nat)
    requires InOrder(s) && n <= |s.ceremonies|
    ensures CountRunning(s.ceremonies[..n]) <= 1
    ensures (forall i | 0 <= i < n :: !s.ceremonies[i].phase.Running?) ==> CountRunning(s.ceremonies[..n]) == 0
  {
    if n > 0 {
      CountIsAtMostOne(s, n - 1);
      assert s.ceremonies[..n][..n - 1] == s.ceremonies[..n - 1];
    }
  }

  lemma StepKeepsOrder(s: State, e: Event)
    requires Consistent(s) && Enabled(s, e)
    ensures Chained(Next(s, e)) && InOrder(Next(s, e))
  {
    var s' := Next(s, e);
    if e.Start? && e.i > 0 {
      assert s.ceremonies[e.i - 1].phase.Settled?;
      forall k | 0 <= k < e.i ensures s'.ceremonies[k].phase.Settled? {
        assert k < e.i - 1 ==> s.ceremonies[k].phase.Settled?;
      }
    }
  }

  lemma StepKeepsTruth(s: State, e: Event)
    requires Consistent(s) && Enabled(s, e)
    ensures Truthful(Next(s, e))
    ensures e.Settle? ==> s.busyCount > 0
  {
    var s' := Next(s, e);
    if e.Call? {
      assert s'.ceremonies[..|s.ceremonies|] == s.ceremonies;
    } else if e.Start? || e.Await? || e.Settle? {
      CountOfUpdate(s.ceremonies, e.i, s'.ceremonies[e.i]);
    }
  }

  function Run(s: State, events: seq<Event>): Option<State>
    decreases events
  {
    if events == [] then Some(s)
    else if !Enabled(s, events[0]) then None
    else Run(Next(s, events[0]), events[1..])
  }

  /**
   In every run ceremonies start in call order, the count is the number running, and each listener was
   last told whether any is. The count's clamp at zero never acts.
   */
  lemma {:induction false} EveryRunKeepsOrder(s: State, events: seq<Event>)
    requires Consistent(s) && Run(s, events).Some?
    ensures Consistent(Run(s, events).value)
    decreases events
  {
    if events != [] {
      StepKeepsOrder(s, events[0]);
      StepKeepsTruth(s, events[0]);
      EveryRunKeepsOrder(Next(s, events[0]), events[1..]);
    }
  }

  lemma EmptyIsConsistent()
    ensures Consistent(EMPTY)
  {}

  /** In every state that a run reaches at most one ceremony is running, and then the count is one. */
  lemma {:induction false} AtMostOneRuns(events: seq<Event>, i: nat, j: nat)
    requires Run(EMPTY, events).Some?
    requires IsRunning(Run(EMPTY, events).value, i) && IsRunning(Run(EMPTY, events).value, j)
    ensures i == j && Run(EMPTY, events).value.busyCount == 1
  {
    EmptyIsConsistent();
    EveryRunKeepsOrder(EMPTY, events);
    RunningIsOne(Run(EMPTY, events).value, i, j);
  }

  /** A ceremony ends as its body did, and stays so over every run, whatever becomes of the others. */
  lemma {:induction false} OutcomeIsKept(s: State, i: nat, ok: bool, events: seq<Event>)
    requires Enabled(s, Settle(i, ok)) && Run(Next(s, Settle(i, ok)), events).Some?
    ensures var after := Run(Next(s, Settle(i, ok)), events).value;
            i < |after.ceremonies| && after.ceremonies[i].phase == Settled(ok)
  {
    SettledForGood(Next(s, Settle(i, ok)), i, events);
  }

  lemma {:induction false} SettledForGood(s: State, i: nat, events: seq<Event>)
    requires i < |s.ceremonies| && s.ceremonies[i].phase.Settled? && Run(s, events).Some?
    ensures var after := Run(s, events).value;
            i < |after.ceremonies| && after.ceremonies[i].phase == s.ceremonies[i].phase
    decreases events
  {
    if events != [] {
      SettledForGood(Next(s, events[0]), i, events[1..]);
    }
  }

  /** Whether a listener listens after these events: as it last said, or else as before. */
  function Listens(before: bool, events: seq<Event>, listener: nat): bool {
    if events == [] then before
    else
      var last := events[|events| - 1];
      if last == Subscribe(listener) then true
      else last != Event.Unsubscribe(listener) && Listens(before, events[..|events| - 1], listener)
  }

  lemma {:induction false} ListensAfterFirst(before: bool, events: seq<Event>, listener: nat)
    requires events != []
    ensures Listens(before, events, listener) == Listens(Listens(before, [events[0]], listener), events[1..], listener)
  {
    if |events| > 1 {
      assert events[1..][..|events| - 2] == events[..|events| - 1][1..];
      ListensAfterFirst(before, events[..|events| - 1], listener);
    }
  }

  /** Over every run exactly those are told that listen. */
  lemma {:induction false} ListenersAreTold(s: State, events: seq<Event>, listener: nat)
    requires Run(s, events).Some?
    ensures listener in Run(s, events).value.told <==> Listens(listener in s.told, events, listener)
    decreases events
  {
    if events != [] {
      ListensAfterFirst(listener in s.told, events, listener);
      assert [events[0]][..0] == [];
      ListenersAreTold(Next(s, events[0]), events[1..], listener);
    }
  }

  // ---------------------------------------------------------------- progress and deadlock

  /** The body of a running ceremony awaits a promise that is not settled. */
  predicate Stuck(s: State, i: nat) {
    IsRunning(s, i) && !IsSettled(s, s.ceremonies[i].awaits)
  }

  /** Awaiting a ceremony from inside a running one gets stuck exactly when that ceremony was not called before it. */
  lemma AwaitSticksIff(s: State, i: nat, j: nat)
    requires Consistent(s) && Enabled(s, Await(i, j))
    ensures Stuck(Next(s, Await(i, j)), i) <==> j >= i
  {}

  /** A step after which `i` is still running and awaits the same, and those called after it still wait. */
  lemma StuckStepsNowhere(s: State, i: nat, e: Event)
    requires Consistent(s) && Stuck(s, i) && Enabled(s, e)
    ensures Stuck(Next(s, e), i) && Next(s, e).ceremonies[i] == s.ceremonies[i]
    ensures forall j | i < j < |s.ceremonies| ::
              Next(s, e).ceremonies[j] == s.ceremonies[j] && s.ceremonies[j].phase.Waiting?
  {}

  /**
   Once stuck, a ceremony never settles in any continuation, and no ceremony called after it ever starts:
   neither the one it awaits nor any other.
   */
  lemma {:induction false} StuckForever(s: State, i: nat, events: seq<Event>)
    requires Consistent(s) && Stuck(s, i) && Run(s, events).Some?
    ensures Stuck(Run(s, events).value, i)
    ensures forall j | i < j < |Run(s, events).value.ceremonies| :: Run(s, events).value.ceremonies[j].phase.Waiting?
    decreases events
  {
    if events != [] {
      StuckStepsNowhere(s, i, events[0]);
      StepKeepsOrder(s, events[0]);
      StepKeepsTruth(s, events[0]);
      StuckForever(Next(s, events[0]), i, events[1..]);
    }
  }

  /** The first ceremony that has not settled. */
  function FirstUnsettled(cs: seq<Ceremony>): (k: nat)
    ensures k <= |cs| && (k < |cs| ==> !cs[k].phase.Settled?)
    ensures forall i | 0 <= i < k :: cs[i].phase.Settled?
  {
    if cs == [] || !cs[0].phase.Settled? then 0 else 1 + FirstUnsettled(cs[1..])
  }

  /**
   However the earlier ceremonies settled, the first that has not can move on: start, or settle when it is
   running. The one exception is a body that awaits a promise which is not settled.
   */
  lemma FirstUnsettledMovesIff(s: State)
    requires Consistent(s)
    ensures var k := FirstUnsettled(s.ceremonies);
            k < |s.ceremonies| ==>
              ((Enabled(s, Start(k)) || Enabled(s, Settle(k, true))) <==> !Stuck(s, k))
  {}

  lemma MovingOnSticksNothing(s: State, e: Event)
    requires Consistent(s) && forall i :: !Stuck(s, i)
    requires Enabled(s, e) && (e.Start? || e.Settle?)
    ensures forall i :: !Stuck(Next(s, e), i)
    ensures |Next(s, e).ceremonies| == |s.ceremonies|
  {
    forall i ensures !Stuck(Next(s, e), i) {
      if IsRunning(s, i) { assert !Stuck(s, i); }
    }
  }

  /** While none is stuck, all of them can settle. */
  lemma {:induction false} AllCanSettle(s: State) returns (events: seq<Event>)
    requires Consistent(s) && forall i :: !Stuck(s, i)
    ensures Run(s, events).Some?
    ensures |Run(s, events).value.ceremonies| == |s.ceremonies|
    ensures forall i | 0 <= i < |s.ceremonies| :: Run(s, events).value.ceremonies[i].phase.Settled?
    decreases |s.ceremonies| - FirstUnsettled(s.ceremonies), if IsRunning(s, FirstUnsettled(s.ceremonies)) then 0 else 1
  {
    var k := FirstUnsettled(s.ceremonies);
    events := [];
    if k < |s.ceremonies| {
      var e := if IsRunning(s, k) then Settle(k, true) else Start(k);
      FirstUnsettledMovesIff(s);
      StepKeepsOrder(s, e);
      StepKeepsTruth(s, e);
      MovingOnSticksNothing(s, e);
      var rest := AllCanSettle(Next(s, e));
      events := [e] + rest;
      assert events[1..] == rest;
    }
  }
}
