/**
  Dispatcher.send (pkg/kncloudevents/event_dispatcher.go): destination, reply and dead letter sink,
  over an oracle that says how each HTTP exchange goes.
 */
module Dispatch {
  import opened Wrappers

  type Address = string

  /** How one HTTP exchange, with its retries, can go. */
  datatype Exchange =
    | NotSent                                                     // no request or no client could be made
    | TransportError(took: nat)
    | Response(status: int, isEvent: bool, bodyRead: bool, took: nat)

  predicate IsFailure(status: int) { status < 200 || status >= 300 }

  predicate Succeeded(e: Exchange) { e.Response? && !IsFailure(e.status) }

  /** The response carries an event to forward or to finish. */
  predicate HasEvent(e: Exchange) { Succeeded(e) && e.isEvent }

  const NO_DURATION: int := -1
  const NO_RESPONSE: int := -1

  datatype Info = Info(duration: int, code: int)

  /** The DispatchInfo executeRequest fills in; a body that cannot be read turns a success into code 500. */
  function InfoOf(e: Exchange): Info {
    match e
    case NotSent => Info(NO_DURATION, NO_RESPONSE)
    case TransportError(took) => Info(took, 500)
    case Response(status, _, bodyRead, took) => Info(took, if IsFailure(status) || bodyRead then status else 500)
  }

  /** What is sent: the original event, the same with error extensions about `failed`, or the response. */
  datatype Payload = Original | Failed(failed: Address) | Reply

  datatype Request = Request(target: Address, payload: Payload)

  /** Oracle(i, r): how the i-th request of this send goes. */
  type Oracle = (nat, Request) -> Exchange

  datatype Config = Config(reply: Option<Address>, deadLetterSink: Option<Address>)

  /** requests made, whether the error is nil, the info, and whose response messages were finished. */
  datatype SendResult = SendResult(log: seq<Request>, ok: bool, info: Info, finished: set<nat>)

  function At(oracle: Oracle, log: seq<Request>, i: nat): Exchange
    requires i < |log|
  {
    oracle(i, log[i])
  }

  /** The protocol of one send to a destination that has a URL. */
  ghost predicate Protocol(destination: Address, config: Config, oracle: Oracle, r: SendResult) {
    && 1 <= |r.log| <= 3 && r.log[0] == Request(destination, Original)
    && var first := At(oracle, r.log, 0);
    var replied := HasEvent(first) && config.reply.Some?;
    && (replied ==> |r.log| >= 2 && r.log[1] == Request(config.reply.value, Reply))
    && var failed := !Succeeded(first) || (replied && !Succeeded(At(oracle, r.log, 1)));
    var deadLettered := failed && config.deadLetterSink.Some?;
    && |r.log| == 1 + (if replied then 1 else 0) + (if deadLettered then 1 else 0)
    && var blamed := if replied then config.reply.value else destination;
    && (deadLettered ==> r.log[|r.log| - 1] == Request(config.deadLetterSink.value, Failed(blamed)))
    && (r.ok <==> Succeeded(At(oracle, r.log, |r.log| - 1)))
    && r.info == InfoOf(At(oracle, r.log, |r.log| - 1))
    && r.finished == set i | 0 <= i < |r.log| && HasEvent(At(oracle, r.log, i))
  }

  method Send(destination: Option<Address>, config: Config, oracle: Oracle) returns (r: SendResult)
    ensures destination.None? ==> r == SendResult([], false, Info(0, 0), {})
    ensures destination.Some? ==> Protocol(destination.value, config, oracle, r)
    // the same in status codes: what counts as a failure, which requests follow, and what is reported
    ensures destination.Some? ==>
      var first := oracle(0, Request(destination.value, Original));
      var ok := first.Response? && 200 <= first.status < 300;
      var replying := ok && first.isEvent && config.reply.Some?;
      var reply := if replying then oracle(1, Request(config.reply.value, Reply)) else first;
      var failed := !(reply.Response? && 200 <= reply.status < 300);
      var blamed := if replying then config.reply.value else destination.value;
      r.log == [Request(destination.value, Original)]
               + (if replying then [Request(config.reply.value, Reply)] else [])
               + if failed && config.deadLetterSink.Some?
                 then [Request(config.deadLetterSink.value, Failed(blamed))]
                 else []
    ensures destination.Some? ==>
      var n := |r.log|;
      n > 0 && var last := oracle(n - 1, r.log[n - 1]);
      && (r.ok <==> last.Response? && 200 <= last.status < 300)
      && r.info == match last
                   case NotSent => Info(-1, -1)
                   case TransportError(took) => Info(took, 500)
                   case Response(status, _, read, took) =>
                     Info(took, if 200 <= status < 300 && !read then 500 else status)
  {
    if destination.None? {
      return SendResult([], false, Info(0, 0), {});
    }
    var log := [Request(destination.value, Original)];
    var e := oracle(0, log[0]);
    if !Succeeded(e) {
      if config.deadLetterSink.Some? {
        log := log + [Request(config.deadLetterSink.value, Failed(destination.value))];
        var d := oracle(1, log[1]);
        return SendResult(log, Succeeded(d), InfoOf(d), if HasEvent(d) then {1} else {});
      }
      return SendResult(log, false, InfoOf(e), {});
    }
    if !e.isEvent {
      return SendResult(log, true, InfoOf(e), {});
    }
    if config.reply.None? {
      return SendResult(log, true, InfoOf(e), {0});
    }
    log := log + [Request(config.reply.value, Reply)];
    var f := oracle(1, log[1]);
    if !Succeeded(f) {
      if config.deadLetterSink.Some? {
        log := log + [Request(config.deadLetterSink.value, Failed(config.reply.value))];
        var d := oracle(2, log[2]);
        return SendResult(log, Succeeded(d), InfoOf(d), {0} + if HasEvent(d) then {2} else {});
      }
      return SendResult(log, false, InfoOf(f), {0});
    }
    r := SendResult(log, true, InfoOf(f), {0} + if HasEvent(f) then {1} else {});
  }

  /** The subscriber itself, or the dead letter sink configured for it, answered 2xx. */
  ghost predicate SomeoneAnswered2xx(destination: Address, config: Config, oracle: Oracle, log: seq<Request>) {
    exists i | 0 <= i < |log| ::
      && At(oracle, log, i).Response? && 200 <= At(oracle, log, i).status < 300
      && ((i == 0 && log[i].target == destination)
          || (config.deadLetterSink.Some? && log[i].target == config.deadLetterSink.value && log[i].payload.Failed?))
  }

  /** A send without error means the event is in the hands of its subscriber or of the dead letter sink. */
  lemma OkMeansHandedOver(destination: Address, config: Config, oracle: Oracle, r: SendResult)
    requires Protocol(destination, config, oracle, r)
    ensures r.ok ==> SomeoneAnswered2xx(destination, config, oracle, r.log)
    ensures !r.ok && config.deadLetterSink.Some? ==> r.log[|r.log| - 1].target == config.deadLetterSink.value
  {
    if r.ok {
      if Succeeded(At(oracle, r.log, 0)) {
        assert r.log[0].target == destination;
      } else {
        var n := |r.log| - 1;
        assert Succeeded(At(oracle, r.log, n)) && r.log[n].payload.Failed?;
      }
    }
  }
}
