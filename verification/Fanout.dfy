/**
  FanoutEventHandler (pkg/channel/fanout): one goroutine per subscription, results on a buffered
  channel, and the loop that collects them until all are in or the timeout fires.
 */
module Fanout {
  import opened Wrappers
  import opened Dispatch

  /** DispatchResult; info is nil when a send option was invalid. */
  datatype Result = Result(err: bool, info: Option<Info>)

  predicate AnyError(rs: seq<Result>) { exists i | 0 <= i < |rs| :: rs[i].err }

  predicate Started(r: Result) { r.info.Some? && r.info.value.duration > NO_DURATION }

  predicate AnyStarted(rs: seq<Result>) { exists i | 0 <= i < |rs| :: Started(rs[i]) }

  function StartedSum(rs: seq<Result>): int {
    if rs == [] then 0
    else StartedSum(rs[..|rs| - 1]) + if Started(rs[|rs| - 1]) then rs[|rs| - 1].info.value.duration else 0
  }

  /** The sum of the started durations, or NO_DURATION if none started. */
  function TotalDuration(rs: seq<Result>): int { if AnyStarted(rs) then StartedSum(rs) else NO_DURATION }

  /** The response code of the last result that has one. */
  function LastCode(rs: seq<Result>): int {
    if rs == [] then NO_RESPONSE
    else if rs[|rs| - 1].info.Some? then rs[|rs| - 1].info.value.code
    else LastCode(rs[..|rs| - 1])
  }

  lemma {:induction false} StartedSumNonNegative(rs: seq<Result>)
    ensures StartedSum(rs) >= 0
  {
    if rs != [] {
      StartedSumNonNegative(rs[..|rs| - 1]);
    }
  }

  /** dispatch's collecting loop, for results in order of arrival; timeoutAfter is None if it never fires. */
  method Collect(arrivals: seq<Result>, timeoutAfter: Option<nat>) returns (r: Result, received: nat)
    requires timeoutAfter.Some? ==> timeoutAfter.value < |arrivals|
    ensures received == if timeoutAfter.Some? then timeoutAfter.value else |arrivals|
    ensures r.info == Some(Info(TotalDuration(arrivals[..received]), LastCode(arrivals[..received])))
    ensures r.err <==> timeoutAfter.Some? || AnyError(arrivals)
  {
    var total := NO_DURATION;
    r := Result(false, Some(Info(NO_DURATION, NO_RESPONSE)));
    for i := 0 to |arrivals|
      invariant timeoutAfter.Some? ==> i <= timeoutAfter.value
      invariant total == TotalDuration(arrivals[..i])
      invariant r.info == Some(Info(total, LastCode(arrivals[..i])))
      invariant r.err <==> AnyError(arrivals[..i])
    {
      if timeoutAfter == Some(i) {
        return Result(true, r.info), i;
      }
      ghost var before, after := arrivals[..i], arrivals[..i + 1];
      var x := arrivals[i];
      assert after[..i] == before && after[i] == x;
      assert forall j | 0 <= j < i :: after[j] == before[j];
      StartedSumNonNegative(before);
      if x.info.Some? {
        if x.info.value.duration > NO_DURATION {
          total := if total > NO_DURATION then total + x.info.value.duration else x.info.value.duration;
          NoneStarted(before);
        }
        r := r.(info := Some(Info(total, x.info.value.code)));
      }
      if x.err {
        r := r.(err := true);
      }
    }
    assert arrivals[..|arrivals|] == arrivals;
    received := |arrivals|;
  }

  lemma {:induction false} NoneStarted(rs: seq<Result>)
    ensures !AnyStarted(rs) ==> StartedSum(rs) == 0
  {
    if rs != [] && !AnyStarted(rs) {
      assert !Started(rs[|rs| - 1]);
      assert forall i | 0 <= i < |rs| - 1 :: rs[..|rs| - 1][i] == rs[i];
      NoneStarted(rs[..|rs| - 1]);
    }
  }

  /** What the total of durations is, result by result: -1 stands for a request that never started. */
  lemma {:induction false} TotalDurationLaws(a: seq<Result>, b: seq<Result>, err: bool, d: int, code: int)
    requires d >= -1
    ensures TotalDuration([]) == -1 && TotalDuration([Result(err, None)]) == -1
    ensures TotalDuration([Result(err, Some(Info(d, code)))]) == d
    ensures
      var x, y := TotalDuration(a), TotalDuration(b);
      TotalDuration(a + b) == if x == -1 then y else if y == -1 then x else x + y
  {
    var none, one := [Result(err, None)], [Result(err, Some(Info(d, code)))];
    OneStarted(none[0]);
    OneStarted(one[0]);
    assert Started(one[0]) <==> d > -1;
    StartedSumAppend(a, b);
    StartedSumNonNegative(a);
    StartedSumNonNegative(b);
    NoneStarted(a);
    NoneStarted(b);
    AnyStartedAppend(a, b);
  }

  lemma AnyStartedAppend(a: seq<Result>, b: seq<Result>)
    ensures AnyStarted(a + b) <==> AnyStarted(a) || AnyStarted(b)
  {
    forall i | 0 <= i < |b| && Started(b[i]) ensures AnyStarted(a + b) {
      assert Started((a + b)[|a| + i]);
    }
    forall i | 0 <= i < |a| && Started(a[i]) ensures AnyStarted(a + b) {
      assert Started((a + b)[i]);
    }
  }

  /** The code is that of the last result with one. */
  lemma {:induction false} LastCodeAt(rs: seq<Result>, i: nat)
    requires i < |rs| && rs[i].info.Some? && forall j | i < j < |rs| :: rs[j].info.None?
    ensures LastCode(rs) == rs[i].info.value.code
  {
    if i < |rs| - 1 {
      assert rs[|rs| - 1].info.None?;
      LastCodeAt(rs[..|rs| - 1], i);
    }
  }

  lemma {:induction false} LastCodeNone(rs: seq<Result>)
    requires forall j | 0 <= j < |rs| :: rs[j].info.None?
    ensures LastCode(rs) == -1
  {
    if rs != [] {
      LastCodeNone(rs[..|rs| - 1]);
    }
  }

  // ---------- the order of arrival does not matter ----------

  lemma {:induction false} StartedSumAppend(a: seq<Result>, b: seq<Result>)
    ensures StartedSum(a + b) == StartedSum(a) + StartedSum(b)
  {
    if b == [] {
      assert a + b == a;
    } else {
      StartedSumAppend(a, b[..|b| - 1]);
      assert (a + b)[..|a + b| - 1] == a + b[..|b| - 1];
    }
  }

  lemma RemoveOne<T>(s: seq<T>, i: nat)
    requires i < |s|
    ensures multiset(s) == multiset(s[..i] + s[i + 1..]) + multiset{s[i]}
  {
    assert s == s[..i] + ([s[i]] + s[i + 1..]);
  }

  lemma StartedSumMiddle(u: seq<Result>, x: seq<Result>, v: seq<Result>)
    ensures StartedSum(u + (x + v)) == StartedSum(u + v) + StartedSum(x)
  {
    StartedSumAppend(u, x + v);
    StartedSumAppend(x, v);
    StartedSumAppend(u, v);
  }

  lemma ThreeParts<T>(s: seq<T>, i: nat)
    requires i < |s|
    ensures s == s[..i] + ([s[i]] + s[i + 1..])
  {
  }

  lemma StartedSumRemove(b: seq<Result>, i: nat)
    requires i < |b|
    ensures StartedSum(b) == StartedSum(b[..i] + b[i + 1..]) + StartedSum([b[i]])
  {
    ThreeParts(b, i);
    StartedSumMiddle(b[..i], [b[i]], b[i + 1..]);
  }

  /** The last result of a stands somewhere in its permutation b, and the others are permutations too. */
  lemma FindLast(a: seq<Result>, b: seq<Result>) returns (i: nat)
    requires multiset(a) == multiset(b) && a != []
    ensures i < |b| && b[i] == a[|a| - 1] && multiset(a[..|a| - 1]) == multiset(b[..i] + b[i + 1..])
  {
    var n := |a| - 1;
    assert a == a[..n] + [a[n]];
    assert a[n] in multiset(b);
    i :| 0 <= i < |b| && b[i] == a[n];
    RemoveOne(b, i);
    assert multiset(a) == multiset(a[..n]) + multiset{a[n]};
    assert multiset(a[..n]) == multiset(a) - multiset{a[n]};
    assert multiset(b[..i] + b[i + 1..]) == multiset(b) - multiset{b[i]};
  }

  lemma {:induction false} StartedSumPermuted(a: seq<Result>, b: seq<Result>)
    requires multiset(a) == multiset(b)
    ensures StartedSum(a) == StartedSum(b)
    decreases |a|
  {
    if a == [] {
      assert |multiset(b)| == 0;
    } else {
      var i := FindLast(a, b);
      StartedSumPermuted(a[..|a| - 1], b[..i] + b[i + 1..]);
      StartedSumRemove(b, i);
      OneStarted(a[|a| - 1]);
    }
  }

  lemma OneStarted(r: Result)
    ensures StartedSum([r]) == if Started(r) then r.info.value.duration else 0
  {
    assert [r][..0] == [];
  }

  /** The collected error and duration depend on the results, not on the order in which they arrive. */
  lemma ArrivalOrderIrrelevant(results: seq<Result>, arrivals: seq<Result>)
    requires multiset(arrivals) == multiset(results)
    ensures AnyError(arrivals) <==> AnyError(results)
    ensures TotalDuration(arrivals) == TotalDuration(results)
  {
    assert forall r :: r in results <==> r in multiset(results);
    assert forall r :: r in arrivals <==> r in multiset(arrivals);
    assert AnyError(results) <==> exists r :: r in results && r.err;
    assert AnyError(arrivals) <==> exists r :: r in arrivals && r.err;
    assert AnyStarted(results) <==> exists r :: r in results && Started(r);
    assert AnyStarted(arrivals) <==> exists r :: r in arrivals && Started(r);
    StartedSumPermuted(arrivals, results);
  }

  // ---------- goroutines, channel and receiver ----------

  /** Results still to be sent, buffered in the channel, and received; timedOut once the receiver gave up. */
  datatype State = State(pending: seq<Result>, buffer: seq<Result>, received: seq<Result>, timedOut: bool)

  ghost predicate Init(results: seq<Result>, s: State) { s == State(results, [], [], false) }

  predicate CanSend(n: nat, s: State) { |s.buffer| < n }

  /** Pending result i enters the channel. */
  function Sent(s: State, i: nat): State
    requires i < |s.pending|
  {
    s.(pending := s.pending[..i] + s.pending[i + 1..], buffer := s.buffer + [s.pending[i]])
  }

  ghost predicate Next(n: nat, s: State, s': State) {
    || (exists i | 0 <= i < |s.pending| ::
          CanSend(n, s) && s' == Sent(s, i))
    || (!s.timedOut && s.buffer != [] && s' == s.(buffer := s.buffer[1..], received := s.received + [s.buffer[0]]))
    || (!s.timedOut && |s.received| < n && s' == s.(timedOut := true))
  }

  ghost predicate IsRun(results: seq<Result>, run: seq<State>) {
    run != [] && Init(results, run[0]) && forall i | 0 <= i < |run| - 1 :: Next(|results|, run[i], run[i + 1])
  }

  ghost function AllResults(s: State): multiset<Result> {
    multiset(s.pending) + multiset(s.buffer) + multiset(s.received)
  }

  lemma SendKeepsResults(s: State, s': State, i: nat)
    requires i < |s.pending| && s' == Sent(s, i)
    ensures AllResults(s') == AllResults(s)
  {
    RemoveOne(s.pending, i);
    assert multiset(s'.buffer) == multiset(s.buffer) + multiset{s.pending[i]};
  }

  lemma ReceiveKeepsResults(s: State, s': State)
    requires s.buffer != [] && s' == s.(buffer := s.buffer[1..], received := s.received + [s.buffer[0]])
    ensures AllResults(s') == AllResults(s)
  {
    assert s.buffer == [s.buffer[0]] + s.buffer[1..];
    assert multiset(s.buffer) == multiset{s.buffer[0]} + multiset(s'.buffer);
    assert multiset(s'.received) == multiset(s.received) + multiset{s.buffer[0]};
  }

  lemma NextKeepsResults(n: nat, s: State, s': State)
    requires Next(n, s, s')
    ensures AllResults(s') == AllResults(s)
  {
    if i :| 0 <= i < |s.pending| && s' == Sent(s, i) {
      SendKeepsResults(s, s', i);
    } else if s.buffer != [] && s' == s.(buffer := s.buffer[1..], received := s.received + [s.buffer[0]]) {
      ReceiveKeepsResults(s, s');
    }
  }

  lemma {:induction false} RunKeepsResults(results: seq<Result>, run: seq<State>, k: nat)
    requires IsRun(results, run) && k < |run|
    ensures AllResults(run[k]) == multiset(results)
  {
    if k > 0 {
      RunKeepsResults(results, run, k - 1);
      assert Next(|results|, run[k - 1], run[k - 1 + 1]);
      NextKeepsResults(|results|, run[k - 1], run[k]);
    }
  }

  /** No goroutine ever blocks on the channel, even after the receiver timed out. */
  lemma NoSenderBlocks(results: seq<Result>, run: seq<State>, k: nat)
    requires IsRun(results, run) && k < |run|
    ensures run[k].pending != [] ==> |run[k].buffer| < |results| && CanSend(|results|, run[k])
  {
    RunKeepsResults(results, run, k);
    var s := run[k];
    assert |AllResults(s)| == |s.pending| + |s.buffer| + |s.received|;
    assert |multiset(results)| == |results|;
  }

  /** Once as many results as subscriptions are in, the fan-out's error and duration are those of all the results. */
  lemma CollectedAll(results: seq<Result>, run: seq<State>, k: nat)
    requires IsRun(results, run) && k < |run| && |run[k].received| == |results|
    ensures AnyError(run[k].received) <==> AnyError(results)
    ensures TotalDuration(run[k].received) == TotalDuration(results)
  {
    RunKeepsResults(results, run, k);
    var s := run[k];
    assert |AllResults(s)| == |s.pending| + |s.buffer| + |s.received|;
    assert |multiset(results)| == |results|;
    assert s.pending == [] && s.buffer == [];
    ArrivalOrderIrrelevant(results, s.received);
  }

  // ---------- the synchronous channel ----------

  datatype Subscription = Subscription(subscriber: Option<Address>, config: Config)

  /** One send per subscription of the snapshot, each with its own oracle; a subscriber may have no URL. */
  ghost predicate SentAll(subs: seq<Subscription>, oracles: seq<Oracle>, sends: seq<SendResult>) {
    && |subs| == |oracles| == |sends|
    && forall i | 0 <= i < |subs| ::
         if subs[i].subscriber.None? then !sends[i].ok
         else Protocol(subs[i].subscriber.value, subs[i].config, oracles[i], sends[i])
  }

  ghost predicate HandedOver(sub: Subscription, oracle: Oracle, log: seq<Request>) {
    sub.subscriber.Some? && SomeoneAnswered2xx(sub.subscriber.value, sub.config, oracle, log)
  }

  function ResultsOf(sends: seq<SendResult>): seq<Result> {
    seq(|sends|, i requires 0 <= i < |sends| => Result(!sends[i].ok, Some(sends[i].info)))
  }

  /** 202 for a nil error, 500 otherwise; an empty snapshot is accepted at once. */
  function Status(s: State, n: nat): int {
    if n == 0 then 202
    else if s.timedOut || AnyError(s.received) then 500
    else 202
  }

  /**
    A synchronous channel that answers 202 has, for every subscription in its snapshot, a 2xx from
    the subscriber or from its dead letter sink; and it answers 202 when every send succeeded in time.
   */
  lemma AcceptedOnlyIfHandedOver(subs: seq<Subscription>, oracles: seq<Oracle>, sends: seq<SendResult>, run: seq<State>)
    requires SentAll(subs, oracles, sends) && IsRun(ResultsOf(sends), run)
    requires run[|run| - 1].timedOut || |run[|run| - 1].received| == |subs|
    ensures Status(run[|run| - 1], |subs|) == 202 ==>
      forall i | 0 <= i < |subs| :: HandedOver(subs[i], oracles[i], sends[i].log)
    ensures Status(run[|run| - 1], |subs|) in {202, 500}
    ensures !run[|run| - 1].timedOut ==>
      (Status(run[|run| - 1], |subs|) == 202 <==> forall i | 0 <= i < |subs| :: sends[i].ok)
  {
    var last, rs := run[|run| - 1], ResultsOf(sends);
    assert forall i | 0 <= i < |subs| :: rs[i].err == !sends[i].ok;
    if !last.timedOut {
      CollectedAll(rs, run, |run| - 1);
      if Status(last, |subs|) == 202 {
        forall i | 0 <= i < |subs|
          ensures sends[i].ok && HandedOver(subs[i], oracles[i], sends[i].log)
        {
          assert !rs[i].err;
          OkMeansHandedOver(subs[i].subscriber.value, subs[i].config, oracles[i], sends[i]);
        }
      }
    }
  }
}
