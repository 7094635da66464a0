/** The relayer's fixed-window request limiter. Times are whole milliseconds. */
module RelayerRateLimit {
  import opened Common

  const WINDOW_MS := 60_000
  const MAX_REQUESTS := 30

  datatype Bucket = Bucket(startedAt: int, count: nat)

  datatype Request = Request(client: string, at: int)

  function Lookup(buckets: map<string, Bucket>, client: string): Option<Bucket> {
    if client in buckets then Some(buckets[client]) else None
  }

  predicate Expired(entry: Option<Bucket>, now: int) {
    entry.None? || now - entry.value.startedAt > WINDOW_MS
  }

  predicate Allowed(entry: Option<Bucket>, now: int) {
    Expired(entry, now) || entry.value.count < MAX_REQUESTS
  }

  function NextBucket(entry: Option<Bucket>, now: int): Bucket {
    if Expired(entry, now) then Bucket(now, 1)
    else if entry.value.count >= MAX_REQUESTS then entry.value
    else Bucket(entry.value.startedAt, entry.value.count + 1)
  }

  function After(buckets: map<string, Bucket>, client: string, now: int): map<string, Bucket> {
    buckets[client := NextBucket(Lookup(buckets, client), now)]
  }

  class Limiter {
    var buckets: map<string, Bucket>

    constructor ()
      ensures buckets == map[]
    {
      buckets := map[];
    }

    method AllowRelayerRequest(client: string, now: int) returns (allowed: bool)
      modifies this
      ensures allowed == Allowed(Lookup(old(buckets), client), now)
      ensures buckets == After(old(buckets), client, now)
    {
      if client !in buckets || now - buckets[client].startedAt > WINDOW_MS {
        buckets := buckets[client := Bucket(now, 1)];
        return true;
      }
      var entry := buckets[client];
      if entry.count >= MAX_REQUESTS {
        assert buckets[client := entry] == buckets;
        return false;
      }
      buckets := buckets[client := Bucket(entry.startedAt, entry.count + 1)];
      return true;
    }
  }

  // ---------------------------------------------------------------- traces

  /** The answers to a whole trace of requests. */
  function Answers(buckets: map<string, Bucket>, trace: seq<Request>): (answers: seq<bool>)
    ensures |answers| == |trace|
    decreases trace
  {
    if trace == [] then []
    else
      var r := trace[0];
      [Allowed(Lookup(buckets, r.client), r.at)] + Answers(After(buckets, r.client, r.at), trace[1..])
  }

  /** The answers one client would get if it were the only one. */
  function ClientAnswers(entry: Option<Bucket>, times: seq<int>): (answers: seq<bool>)
    ensures |answers| == |times|
    decreases times
  {
    if times == [] then []
    else [Allowed(entry, times[0])] + ClientAnswers(Some(NextBucket(entry, times[0])), times[1..])
  }

  function TimesOf(trace: seq<Request>, client: string): seq<int> {
    if trace == [] then []
    else (if trace[0].client == client then [trace[0].at] else []) + TimesOf(trace[1..], client)
  }

  function AnswersTo(trace: seq<Request>, answers: seq<bool>, client: string): (mine: seq<bool>)
    requires |answers| == |trace|
    ensures |mine| == |TimesOf(trace, client)|
  {
    if trace == [] then []
    else (if trace[0].client == client then [answers[0]] else []) + AnswersTo(trace[1..], answers[1..], client)
  }

  predicate Nondecreasing(times: seq<int>) {
    forall i, j | 0 <= i < j < |times| :: times[i] <= times[j]
  }

  /** How many of the requests in the closed interval were answered yes. */
  function Accepted(times: seq<int>, answers: seq<bool>, from: int, to: int): nat
    requires |times| == |answers|
  {
    if times == [] then 0
    else (if answers[0] && from <= times[0] <= to then 1 else 0) + Accepted(times[1..], answers[1..], from, to)
  }

  function Requests(times: seq<int>, from: int, to: int): nat {
    if times == [] then 0
    else (if from <= times[0] <= to then 1 else 0) + Requests(times[1..], from, to)
  }

  /** No client's answers depend on another client's requests. */
  lemma {:induction false} ClientsAreIndependent(buckets: map<string, Bucket>, trace: seq<Request>, client: string)
    ensures AnswersTo(trace, Answers(buckets, trace), client) ==
            ClientAnswers(Lookup(buckets, client), TimesOf(trace, client))
    decreases trace
  {
    if trace != [] {
      var r := trace[0];
      var rest := After(buckets, r.client, r.at);
      ClientsAreIndependent(rest, trace[1..], client);
      assert Answers(buckets, trace)[1..] == Answers(rest, trace[1..]);
      var mine := AnswersTo(trace[1..], Answers(rest, trace[1..]), client);
      if r.client == client {
        assert TimesOf(trace, client)[1..] == TimesOf(trace[1..], client);
        assert Lookup(rest, client) == Some(NextBucket(Lookup(buckets, client), r.at));
      } else {
        assert Lookup(rest, client) == Lookup(buckets, client);
        assert AnswersTo(trace, Answers(buckets, trace), client) == [] + mine == mine;
        assert TimesOf(trace, client) == [] + TimesOf(trace[1..], client) == TimesOf(trace[1..], client);
      }
    }
  }

  // ---------------------------------------------------------------- how many can get through

  /** How many windows can open in [from, to]: successive openings are at least 60001 ms apart. */
  function Openings(from: int, to: int): nat {
    if from > to then 0 else 1 + (to - from) / (WINDOW_MS + 1)
  }

  /** What the current window can still let through at or after `from`. */
  function Remaining(entry: Option<Bucket>, from: int): nat {
    if Expired(entry, from) || entry.value.count >= MAX_REQUESTS then 0 else MAX_REQUESTS - entry.value.count
  }

  function NextOpening(entry: Option<Bucket>, from: int): int {
    if entry.None? then from else Max(from, entry.value.startedAt + WINDOW_MS + 1)
  }

  lemma OpeningsMonotone(a: int, b: int, to: int)
    requires a <= b
    ensures Openings(b, to) <= Openings(a, to)
  {
    if b <= to { assert (to - b) / (WINDOW_MS + 1) <= (to - a) / (WINDOW_MS + 1); }
  }

  lemma OpeningsStep(from: int, to: int)
    requires from <= to
    ensures Openings(from, to) == 1 + Openings(from + WINDOW_MS + 1, to)
  {
    if from + WINDOW_MS + 1 <= to {
      assert (to - from) / (WINDOW_MS + 1) == 1 + (to - from - (WINDOW_MS + 1)) / (WINDOW_MS + 1);
    }
  }

  lemma {:induction false} AcceptedFrom(entry: Option<Bucket>, times: seq<int>, from: int, to: int)
    requires Nondecreasing(times) && forall t | t in times :: from <= t
    ensures Accepted(times, ClientAnswers(entry, times), from, to) <=
            Remaining(entry, from) + MAX_REQUESTS * Openings(NextOpening(entry, from), to)
    decreases times
  {
    if times != [] && times[0] <= to {
      var t := times[0];
      assert t in times;
      var next := Some(NextBucket(entry, t));
      AcceptedFrom(next, times[1..], t, to);
      assert ClientAnswers(entry, times)[1..] == ClientAnswers(next, times[1..]);
      AcceptedDependsOnlyOnTimes(times[1..], ClientAnswers(next, times[1..]), from, t, to);
      if Expired(entry, t) {
        OpeningsStep(t, to);
        OpeningsMonotone(NextOpening(entry, from), t, to);
      } else {
        OpeningsMonotone(NextOpening(entry, from), NextOpening(next, t), to);
      }
    } else if times != [] {
      NoneAfter(times, ClientAnswers(entry, times), from, to);
    }
  }

  lemma {:induction false} AcceptedDependsOnlyOnTimes(times: seq<int>, answers: seq<bool>, a: int, b: int, to: int)
    requires |times| == |answers| && a <= b && forall t | t in times :: b <= t
    ensures Accepted(times, answers, a, to) == Accepted(times, answers, b, to)
  {
    if times != [] {
      assert times[0] in times;
      assert forall t | t in times[1..] :: t in times;
      AcceptedDependsOnlyOnTimes(times[1..], answers[1..], a, b, to);
    }
  }

  lemma {:induction false} NoneAfter(times: seq<int>, answers: seq<bool>, from: int, to: int)
    requires |times| == |answers| && forall t | t in times :: to < t
    ensures Accepted(times, answers, from, to) == 0
  {
    if times != [] {
      assert times[0] in times;
      assert forall t | t in times[1..] :: t in times;
      NoneAfter(times[1..], answers[1..], from, to);
    }
  }

  /**
   The most that any closed interval of `length` ms can let through. The first window either
   opens inside the interval, or opened before it and spent a request there.
   */
  function Limit(length: nat): nat
    requires length >= 1
  {
    var windows := length / (WINDOW_MS + 1);
    if length % (WINDOW_MS + 1) == 0 then MAX_REQUESTS * (1 + windows)
    else MAX_REQUESTS * (2 + windows) - 1
  }

  /** At most two windows' worth for the first started 60001 ms, and one for each further. */
  lemma LimitBound(length: nat)
    requires length >= 1
    ensures Limit(length) <= MAX_REQUESTS * (2 + (length - 1) / (WINDOW_MS + 1))
  {
    var windows := length / (WINDOW_MS + 1);
    if length % (WINDOW_MS + 1) == 0 {
      assert (length - 1) / (WINDOW_MS + 1) == windows - 1;
    } else {
      assert (length - 1) / (WINDOW_MS + 1) == windows;
    }
  }

  lemma LimitCovers(entry: Option<Bucket>, from: int, length: nat)
    requires length >= 1 && (entry.Some? ==> entry.value.count >= 1 && entry.value.startedAt < from)
    ensures Remaining(entry, from) + MAX_REQUESTS * Openings(NextOpening(entry, from), from + length) <= Limit(length)
  {
    var to := from + length;
    if Expired(entry, from) {
      OpeningsMonotone(from, NextOpening(entry, from), to);
    } else {
      OpeningsMonotone(from + 1, NextOpening(entry, from), to);
      if length % (WINDOW_MS + 1) == 0 {
        assert (length - 1) / (WINDOW_MS + 1) == length / (WINDOW_MS + 1) - 1;
      } else {
        assert (length - 1) / (WINDOW_MS + 1) == length / (WINDOW_MS + 1);
      }
    }
  }

  lemma {:induction false} ClientLimit(entry: Option<Bucket>, times: seq<int>, from: int, length: nat)
    requires length >= 1 && Nondecreasing(times)
    requires entry.Some? ==> entry.value.count >= 1 && entry.value.startedAt < from
    ensures Accepted(times, ClientAnswers(entry, times), from, from + length) <= Limit(length)
    decreases times
  {
    if times != [] && times[0] < from {
      var next := Some(NextBucket(entry, times[0]));
      assert ClientAnswers(entry, times)[1..] == ClientAnswers(next, times[1..]);
      ClientLimit(next, times[1..], from, length);
    } else {
      AcceptedFrom(entry, times, from, from + length);
      LimitCovers(entry, from, length);
    }
  }

  /** In any closed interval, whatever the other clients do, a client stays within the limit: 59 in a minute. */
  lemma NoIntervalExceedsLimit(trace: seq<Request>, client: string, from: int, length: nat)
    requires length >= 1 && Nondecreasing(TimesOf(trace, client))
    ensures Accepted(TimesOf(trace, client), AnswersTo(trace, Answers(map[], trace), client), from, from + length)
            <= Limit(length) <= MAX_REQUESTS * (2 + (length - 1) / (WINDOW_MS + 1))
    ensures Limit(WINDOW_MS) == 59
  {
    ClientsAreIndependent(map[], trace, client);
    ClientLimit(None, TimesOf(trace, client), from, length);
    LimitBound(length);
  }

  // ---------------------------------------------------------------- the limit is reached

  function Burst(at: int, n: nat): (times: seq<int>)
    ensures |times| == n && forall i | 0 <= i < n :: times[i] == at
  {
    if n == 0 then [] else [at] + Burst(at, n - 1)
  }

  /** Bursts of 30, each just after the previous window has closed. */
  function Bursts(at: int, n: nat): seq<int>
    decreases n
  {
    if n == 0 then [] else Burst(at, MAX_REQUESTS) + Bursts(at + WINDOW_MS + 1, n - 1)
  }

  predicate AllTrue(answers: seq<bool>) {
    forall a | a in answers :: a
  }

  lemma {:induction false} BurstIsAccepted(entry: Bucket, at: int, n: nat, rest: seq<int>)
    requires 0 <= at - entry.startedAt <= WINDOW_MS && entry.count + n <= MAX_REQUESTS
    requires AllTrue(ClientAnswers(Some(Bucket(entry.startedAt, entry.count + n)), rest))
    ensures AllTrue(ClientAnswers(Some(entry), Burst(at, n) + rest))
    decreases n
  {
    var times := Burst(at, n) + rest;
    if n == 0 {
      assert times == rest;
    } else {
      assert times[1..] == Burst(at, n - 1) + rest;
      BurstIsAccepted(Bucket(entry.startedAt, entry.count + 1), at, n - 1, rest);
    }
  }

  lemma {:induction false} BurstsAreAccepted(entry: Option<Bucket>, at: int, n: nat)
    requires Expired(entry, at)
    ensures AllTrue(ClientAnswers(entry, Bursts(at, n))) && |Bursts(at, n)| == MAX_REQUESTS * n
    decreases n
  {
    if n > 0 {
      var later := Bursts(at + WINDOW_MS + 1, n - 1);
      BurstsAreAccepted(Some(Bucket(at, MAX_REQUESTS)), at + WINDOW_MS + 1, n - 1);
      BurstIsAccepted(Bucket(at, 1), at, MAX_REQUESTS - 1, later);
      assert Bursts(at, n)[1..] == Burst(at, MAX_REQUESTS - 1) + later;
    }
  }

  lemma {:induction false} AllAccepted(times: seq<int>, answers: seq<bool>, from: int, to: int)
    requires |times| == |answers| && AllTrue(answers) && forall t | t in times :: from <= t <= to
    ensures Accepted(times, answers, from, to) == |times|
  {
    if times != [] {
      assert times[0] in times && answers[0] in answers;
      assert forall t | t in times[1..] :: t in times;
      assert forall a | a in answers[1..] :: a in answers;
      AllAccepted(times[1..], answers[1..], from, to);
    }
  }

  lemma NondecreasingJoin(a: seq<int>, b: seq<int>, middle: int)
    requires Nondecreasing(a) && Nondecreasing(b)
    requires (forall t | t in a :: t <= middle) && forall t | t in b :: middle <= t
    ensures Nondecreasing(a + b)
  {
    forall i, j | 0 <= i < j < |a + b| ensures (a + b)[i] <= (a + b)[j] {
      if i < |a| <= j {
        assert a[i] in a && b[j - |a|] in b;
      }
    }
  }

  lemma {:induction false} BurstsAreOrdered(at: int, n: nat)
    ensures Nondecreasing(Bursts(at, n))
    ensures forall t | t in Bursts(at, n) :: at <= t <= at + (WINDOW_MS + 1) * (n - 1)
    decreases n
  {
    if n > 0 {
      BurstsAreOrdered(at + WINDOW_MS + 1, n - 1);
      var a, b := Burst(at, MAX_REQUESTS), Bursts(at + WINDOW_MS + 1, n - 1);
      assert forall t | t in a :: t == at;
      NondecreasingJoin(a, b, at);
    }
  }

  /** The limit cannot be lowered: for every interval length some client reaches it. */
  lemma LimitIsReached(length: nat) returns (times: seq<int>, from: int)
    requires length >= 1
    ensures Nondecreasing(times)
    ensures Accepted(times, ClientAnswers(None, times), from, from + length) == Limit(length)
  {
    var windows := length / (WINDOW_MS + 1);
    assert (WINDOW_MS + 1) * windows <= length;
    if length % (WINDOW_MS + 1) == 0 {
      times, from := Bursts(0, windows + 1), 0;
      BurstsAreAccepted(None, 0, windows + 1);
      BurstsAreOrdered(0, windows + 1);
      AllAccepted(times, ClientAnswers(None, times), 0, length);
    } else {
      times, from := ReachLimitFromBefore(length, windows);
    }
  }

  /** A burst at the end of a window whose first request came before, and a burst for each window after it. */
  lemma BurstsFromBefore(windows: nat) returns (rest: seq<int>)
    ensures AllTrue(ClientAnswers(Some(Bucket(0, 1)), rest)) && |rest| == MAX_REQUESTS * (2 + windows) - 1
    ensures Nondecreasing(rest) && forall t | t in rest :: WINDOW_MS <= t <= WINDOW_MS + 1 + (WINDOW_MS + 1) * windows
  {
    var first, later := Burst(WINDOW_MS, MAX_REQUESTS - 1), Bursts(WINDOW_MS + 1, windows + 1);
    BurstsAreAccepted(Some(Bucket(0, MAX_REQUESTS)), WINDOW_MS + 1, windows + 1);
    BurstIsAccepted(Bucket(0, 1), WINDOW_MS, MAX_REQUESTS - 1, later);
    BurstsAreOrdered(WINDOW_MS + 1, windows + 1);
    rest := first + later;
    assert forall t | t in first :: t == WINDOW_MS;
    assert forall t | t in rest :: t in first || t in later;
    NondecreasingJoin(first, later, WINDOW_MS);
  }

  lemma {:induction false} ReachLimitFromBefore(length: nat, windows: nat) returns (times: seq<int>, from: int)
    requires (WINDOW_MS + 1) * windows < length
    ensures Nondecreasing(times)
    ensures Accepted(times, ClientAnswers(None, times), from, from + length) == MAX_REQUESTS * (2 + windows) - 1
  {
    var rest := BurstsFromBefore(windows);
    times, from := [0] + rest, WINDOW_MS;
    assert times[1..] == rest;
    NondecreasingJoin([0], rest, 0);
    var answers := ClientAnswers(Some(Bucket(0, 1)), rest);
    AllAccepted(rest, answers, from, from + length);
    assert ClientAnswers(None, times)[1..] == answers;
  }

  // ---------------------------------------------------------------- who is never refused

  lemma {:induction false} RequestsFrom(times: seq<int>, a: int, b: int, to: int)
    requires a <= b && forall t | t in times :: b <= t
    ensures Requests(times, a, to) == Requests(times, b, to)
  {
    if times != [] {
      assert times[0] in times;
      assert forall t | t in times[1..] :: t in times;
      RequestsFrom(times[1..], a, b, to);
    }
  }

  lemma {:induction false} WithinBudgetIsAccepted(entry: Option<Bucket>, times: seq<int>)
    requires Nondecreasing(times)
    requires forall t | t in times :: Requests(times, t, t + WINDOW_MS) <= MAX_REQUESTS
    requires entry.Some? ==>
               && (forall t | t in times :: entry.value.startedAt <= t)
               && entry.value.count + Requests(times, entry.value.startedAt, entry.value.startedAt + WINDOW_MS)
                  <= MAX_REQUESTS
    ensures AllTrue(ClientAnswers(entry, times))
    decreases times
  {
    if times != [] {
      var t, rest := times[0], times[1..];
      var next := NextBucket(entry, t);
      assert t in times;
      assert forall u | u in rest :: u in times && t <= u;
      RequestsFrom(rest, next.startedAt, t, next.startedAt + WINDOW_MS);
      forall u | u in rest ensures Requests(rest, u, u + WINDOW_MS) <= MAX_REQUESTS {
        assert u in times;
      }
      WithinBudgetIsAccepted(Some(next), rest);
    }
  }

  /** A client that never makes more than 30 requests in 60000 ms is never refused. */
  lemma PoliteClientIsNeverRefused(trace: seq<Request>, client: string)
    requires Nondecreasing(TimesOf(trace, client))
    requires forall t | t in TimesOf(trace, client) ::
               Requests(TimesOf(trace, client), t, t + WINDOW_MS) <= MAX_REQUESTS
    ensures AllTrue(AnswersTo(trace, Answers(map[], trace), client))
  {
    ClientsAreIndependent(map[], trace, client);
    WithinBudgetIsAccepted(None, TimesOf(trace, client));
  }

  // ---------------------------------------------------------------- who is refused

  /** When the window that request `i` falls into opened: windows are told from the times alone, answers apart. */
  function WindowStart(times: seq<int>, i: nat): int
    requires i < |times|
  {
    if i == 0 || times[i] - WindowStart(times, i - 1) > WINDOW_MS then times[i] else WindowStart(times, i - 1)
  }

  /** The client's bucket after these requests. */
  function EntryAfter(entry: Option<Bucket>, times: seq<int>): Option<Bucket>
    decreases times
  {
    if times == [] then entry else EntryAfter(Some(NextBucket(entry, times[0])), times[1..])
  }

  lemma {:induction false} EntrySnoc(entry: Option<Bucket>, front: seq<int>, t: int)
    ensures EntryAfter(entry, front + [t]) == Some(NextBucket(EntryAfter(entry, front), t))
    ensures ClientAnswers(entry, front + [t]) == ClientAnswers(entry, front) + [Allowed(EntryAfter(entry, front), t)]
    decreases front
  {
    if front == [] {
      assert [t][1..] == [];
    } else {
      assert (front + [t])[1..] == front[1..] + [t];
      EntrySnoc(Some(NextBucket(entry, front[0])), front[1..], t);
    }
  }

  lemma {:induction false} CountsSnoc(front: seq<int>, answers: seq<bool>, t: int, a: bool, from: int, to: int)
    requires |front| == |answers|
    ensures var one := if from <= t <= to then 1 else 0;
            && Requests(front + [t], from, to) == Requests(front, from, to) + one
            && Accepted(front + [t], answers + [a], from, to) ==
               Accepted(front, answers, from, to) + if a then one else 0
  {
    if front == [] {
      assert [t][1..] == [] && [a][1..] == [];
    } else {
      assert (front + [t])[1..] == front[1..] + [t] && (answers + [a])[1..] == answers[1..] + [a];
      CountsSnoc(front[1..], answers[1..], t, a, from, to);
    }
  }

  /** Nothing changes between two interval ends with no request between them. */
  lemma {:induction false} CountsUpTo(times: seq<int>, answers: seq<bool>, from: int, a: int, b: int)
    requires |times| == |answers| && a <= b && forall t | t in times :: t <= a || b < t
    ensures Requests(times, from, a) == Requests(times, from, b)
    ensures Accepted(times, answers, from, a) == Accepted(times, answers, from, b)
  {
    if times != [] {
      assert times[0] in times;
      assert forall t | t in times[1..] :: t in times;
      CountsUpTo(times[1..], answers[1..], from, a, b);
    }
  }

  lemma {:induction false} NoneBefore(times: seq<int>, answers: seq<bool>, from: int, to: int)
    requires |times| == |answers| && forall t | t in times :: t < from
    ensures Requests(times, from, to) == 0 && Accepted(times, answers, from, to) == 0
  {
    if times != [] {
      assert times[0] in times;
      assert forall t | t in times[1..] :: t in times;
      NoneBefore(times[1..], answers[1..], from, to);
    }
  }

  lemma {:induction false} WindowStartOfPrefix(times: seq<int>, n: nat, i: nat)
    requires i < n <= |times|
    ensures WindowStart(times[..n], i) == WindowStart(times, i)
  {
    if i > 0 {
      WindowStartOfPrefix(times, n, i - 1);
    }
  }

  lemma {:induction false} AnswersOfPrefix(entry: Option<Bucket>, times: seq<int>, n: nat)
    requires n <= |times|
    ensures ClientAnswers(entry, times[..n]) == ClientAnswers(entry, times)[..n]
    decreases times
  {
    if n > 0 {
      var next := Some(NextBucket(entry, times[0]));
      assert times[..n][1..] == times[1..][..n - 1];
      AnswersOfPrefix(next, times[1..], n - 1);
    }
  }

  /** The bucket holds the start of the last window, and counts the requests made in it up to 30: those accepted. */
  ghost predicate CountsWindow(times: seq<int>, entry: Option<Bucket>)
    requires times != []
  {
    var last := times[|times| - 1];
    && entry.Some? && entry.value.startedAt == WindowStart(times, |times| - 1)
    && 0 <= last - entry.value.startedAt <= WINDOW_MS
    && entry.value.count == Min(MAX_REQUESTS, Requests(times, entry.value.startedAt, last))
    && entry.value.count == Accepted(times, ClientAnswers(None, times), entry.value.startedAt, last)
  }

  lemma {:induction false} BucketCountsWindow(times: seq<int>)
    requires times != [] && Nondecreasing(times)
    ensures CountsWindow(times, EntryAfter(None, times))
    decreases |times|
  {
    var n := |times| - 1;
    var front, t := times[..n], times[n];
    assert times == front + [t];
    EntrySnoc(None, front, t);
    if n > 0 {
      BucketCountsWindow(front);
      WindowStartOfPrefix(times, n, n - 1);
    }
    OneMoreCounts(times, front, t, ClientAnswers(None, front));
  }

  lemma NoneIsLater(times: seq<int>)
    requires Nondecreasing(times)
    ensures forall u | u in times :: u <= times[|times| - 1]
  {}

  lemma {:induction false} OneMoreCounts(times: seq<int>, front: seq<int>, t: int, answers: seq<bool>)
    requires times == front + [t] && Nondecreasing(times) && answers == ClientAnswers(None, front)
    requires front != [] ==>
               && CountsWindow(front, EntryAfter(None, front))
               && WindowStart(times, |front| - 1) == WindowStart(front, |front| - 1)
    requires ClientAnswers(None, times) == answers + [Allowed(EntryAfter(None, front), t)]
    requires EntryAfter(None, times) == Some(NextBucket(EntryAfter(None, front), t))
    ensures CountsWindow(times, EntryAfter(None, times))
  {
    var start := WindowStart(times, |front|);
    assert forall k | 0 <= k < |front| :: front[k] == times[k];
    NoneIsLater(front);
    CountsSnoc(front, answers, t, Allowed(EntryAfter(None, front), t), start, t);
    if front != [] {
      var last := front[|front| - 1];
      assert front[|front| - 1] == times[|front| - 1];
      CountsUpTo(front, answers, start, last, t);
    }
    if start == t && front != [] && t - WindowStart(front, |front| - 1) > WINDOW_MS {
      NoneBefore(front, answers, t, t);
    }
  }

  /** Request `i` is refused exactly when 30 requests were made before it in its window. */
  ghost predicate RefusedByCount(times: seq<int>, answers: seq<bool>, i: nat)
    requires i < |times| == |answers|
  {
    var t, start := times[i], WindowStart(times, i);
    && 0 <= t - start <= WINDOW_MS
    && (!answers[i] <==> Requests(times[..i], start, t) >= MAX_REQUESTS)
    && (!answers[i] ==> Accepted(times[..i], answers[..i], start, t) == MAX_REQUESTS)
  }

  /**
   A request is refused exactly when 30 requests were made before it in its window, answered however they
   were. Then exactly 30 were accepted in its window; in the last 60000 ms there were as many more as the
   window before let through at its end.
   */
  lemma {:induction false} RefusedIff(trace: seq<Request>, client: string, i: nat)
    requires Nondecreasing(TimesOf(trace, client)) && i < |TimesOf(trace, client)|
    ensures var times, answers := TimesOf(trace, client), AnswersTo(trace, Answers(map[], trace), client);
            var t, start := times[i], WindowStart(times, i);
            && RefusedByCount(times, answers, i)
            && (!answers[i] ==>
                  Accepted(times[..i], answers[..i], t - WINDOW_MS, t) ==
                  MAX_REQUESTS + Accepted(times[..i], answers[..i], t - WINDOW_MS, start - 1))
  {
    ClientsAreIndependent(map[], trace, client);
    var times, answers := TimesOf(trace, client), ClientAnswers(None, TimesOf(trace, client));
    ClientRefusedIff(times, i);
    CountsSplit(times[..i], answers[..i], times[i] - WINDOW_MS, WindowStart(times, i), times[i]);
  }

  lemma {:induction false} CountsSplit(times: seq<int>, answers: seq<bool>, from: int, middle: int, to: int)
    requires |times| == |answers| && from <= middle <= to
    ensures Accepted(times, answers, from, to) ==
            Accepted(times, answers, from, middle - 1) + Accepted(times, answers, middle, to)
  {
    if times != [] {
      CountsSplit(times[1..], answers[1..], from, middle, to);
    }
  }

  lemma {:induction false} ClientRefusedIff(times: seq<int>, i: nat)
    requires Nondecreasing(times) && i < |times|
    ensures RefusedByCount(times, ClientAnswers(None, times), i)
  {
    var front, t, all := times[..i], times[i], times[..i + 1];
    assert all == front + [t];
    AnswersOfPrefix(None, times, i);
    AnswersOfPrefix(None, times, i + 1);
    EntrySnoc(None, front, t);
    assert ClientAnswers(None, times)[i] == ClientAnswers(None, all)[i];
    WindowStartOfPrefix(times, i + 1, i);
    if i > 0 {
      BucketCountsWindow(front);
      WindowStartOfPrefix(times, i, i - 1);
    }
    LastRefusedIff(front, t, WindowStart(times, i), ClientAnswers(None, front));
  }

  /** The same for the last of a list of requests. */
  lemma {:induction false} LastRefusedIff(front: seq<int>, t: int, start: int, answers: seq<bool>)
    requires Nondecreasing(front) && (front != [] ==> front[|front| - 1] <= t) && answers == ClientAnswers(None, front)
    requires front != [] ==> CountsWindow(front, EntryAfter(None, front))
    requires start == if front == [] || t - WindowStart(front, |front| - 1) > WINDOW_MS then t
                      else WindowStart(front, |front| - 1)
    ensures 0 <= t - start <= WINDOW_MS
    ensures !Allowed(EntryAfter(None, front), t) <==> Requests(front, start, t) >= MAX_REQUESTS
    ensures !Allowed(EntryAfter(None, front), t) ==> Accepted(front, answers, start, t) == MAX_REQUESTS
  {
    if front != [] {
      var last := front[|front| - 1];
      NoneIsLater(front);
      CountsUpTo(front, answers, start, last, t);
      if t - WindowStart(front, |front| - 1) > WINDOW_MS {
        NoneBefore(front, answers, t, t);
      }
    }
  }

  /**
   Refused or not, and whatever it tries meanwhile, a client gets through with its first request more than
   60000 ms after its window opened.
   */
  lemma {:induction false} NextWindowOpens(trace: seq<Request>, client: string, i: nat, j: nat)
    requires Nondecreasing(TimesOf(trace, client)) && i < j < |TimesOf(trace, client)|
    requires var times := TimesOf(trace, client);
             times[j - 1] - WindowStart(times, i) <= WINDOW_MS < times[j] - WindowStart(times, i)
    ensures AnswersTo(trace, Answers(map[], trace), client)[j]
  {
    ClientsAreIndependent(map[], trace, client);
    ClientNextWindowOpens(TimesOf(trace, client), i, j);
  }

  lemma {:induction false} ClientNextWindowOpens(times: seq<int>, i: nat, j: nat)
    requires Nondecreasing(times) && i < j < |times|
    requires times[j - 1] - WindowStart(times, i) <= WINDOW_MS < times[j] - WindowStart(times, i)
    ensures ClientAnswers(None, times)[j]
  {
    var answers := ClientAnswers(None, times);
    SameWindow(times, i, j - 1);
    ClientRefusedIff(times, j);
    assert WindowStart(times, j) == times[j];
    forall t | t in times[..j] ensures t < times[j] {
      var k :| 0 <= k < j && times[k] == t;
      assert times[k] <= times[j - 1];
    }
    NoneBefore(times[..j], answers[..j], times[j], times[j]);
  }

  lemma {:induction false} SameWindow(times: seq<int>, i: nat, k: nat)
    requires Nondecreasing(times) && i <= k < |times| && times[k] - WindowStart(times, i) <= WINDOW_MS
    ensures WindowStart(times, k) == WindowStart(times, i)
  {
    if i < k {
      SameWindow(times, i, k - 1);
    }
  }

  lemma {:induction false} AnswersCons(buckets: map<string, Bucket>, r: Request, rest: seq<Request>)
    ensures Answers(buckets, [r] + rest) ==
            [Allowed(Lookup(buckets, r.client), r.at)] + Answers(After(buckets, r.client, r.at), rest)
  {
    assert ([r] + rest)[1..] == rest;
  }

  /** A refused request leaves no trace: without it every other request, of any client, is answered the same. */
  lemma {:induction false} RefusalsLeaveNoTrace(
    buckets: map<string, Bucket>, before: seq<Request>, r: Request, after: seq<Request>)
    requires !Answers(buckets, before + [r] + after)[|before|]
    ensures var answers := Answers(buckets, before + [r] + after);
            Answers(buckets, before + after) == answers[..|before|] + answers[|before| + 1..]
    decreases before
  {
    if before == [] {
      assert before + [r] + after == [r] + after && before + after == after;
      AnswersCons(buckets, r, after);
      assert After(buckets, r.client, r.at) == buckets;
    } else {
      var first, rest := before[0], before[1..];
      var next := After(buckets, first.client, first.at);
      assert before + [r] + after == [first] + (rest + [r] + after) && before + after == [first] + (rest + after);
      AnswersCons(buckets, first, rest + [r] + after);
      AnswersCons(buckets, first, rest + after);
      RefusalsLeaveNoTrace(next, rest, r, after);
    }
  }
}
