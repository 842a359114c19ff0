/**
  The broker loop (pkg/broker): ingress stamps a time-to-live, the channel fans the event out to
  the triggers, the filter strips the TTL before the subscriber sees the event and puts it back on
  the reply, and the reply comes in at ingress again.
 */
module BrokerTtl {
  import opened Wrappers

  const MIN_INT32: int := -0x8000_0000
  const MAX_INT32: int := 0x7fff_ffff

  /** Two's-complement wrap-around of an int32 operation. */
  function Wrap32(x: int): int { (x - MIN_INT32) % 0x1_0000_0000 + MIN_INT32 }

  type int32 = x: int | MIN_INT32 <= x <= MAX_INT32

  /** An extension value: one that converts to an int32 (including such a string), or not. */
  datatype Extension = Integer(value: int32) | Other(text: string)

  const TTL := "knativebrokerttl"
  const ARRIVAL_TIME := "knativearrivaltime"

  function TtlOf(extensions: map<string, Extension>): Option<Extension> {
    if TTL in extensions then Some(extensions[TTL]) else None
  }

  class CloudEvent {
    var extensions: map<string, Extension>

    /** None is the error result: the attribute is absent or not an integer. */
    method GetTTL() returns (r: Option<int32>)
      ensures r == match TtlOf(extensions) case Some(Integer(v)) => Some(v) case _ => None
    {
      if TTL in extensions && extensions[TTL].Integer? {
        return Some(extensions[TTL].value);
      }
      r := None;
    }

    method SetTTL(ttl: int32)
      modifies this
      ensures extensions == old(extensions)[TTL := Integer(ttl)]
    {
      extensions := extensions[TTL := Integer(ttl)];
    }

    method DeleteTTL()
      modifies this
      ensures extensions == old(extensions) - {TTL}
    {
      extensions := extensions - {TTL};
    }
  }

  // ---------- ingress ----------

  /** The TTL that TTLDefaulter writes over the one that arrived. */
  function Stamp(raw: Option<Extension>, defaultTTL: int32): int32 {
    match raw
    case Some(Integer(v)) => var t := Wrap32(v - 1); if t < 0 then 0 else t
    case _ => defaultTTL
  }

  /**
    "A TTL is reduced by one, and stays 0 at or below 0" is what the comment promises; it holds for
    every TTL but the smallest int32, which wraps around to the largest.
   */
  lemma StampAsDocumentedIff(v: int32, defaultTTL: int32)
    ensures Stamp(Some(Integer(v)), defaultTTL) == (if v > 0 then v - 1 else 0) <==> v != MIN_INT32
    ensures Stamp(Some(Integer(MIN_INT32)), defaultTTL) == MAX_INT32
  {
  }

  method TTLDefaulter(event: CloudEvent, defaultTTL: int32)
    modifies event
    ensures event.extensions == old(event.extensions)[TTL := Integer(Stamp(TtlOf(old(event.extensions)), defaultTTL))]
    ensures
      var was, now := old(event.extensions), event.extensions["knativebrokerttl"];
      if "knativebrokerttl" !in was || was["knativebrokerttl"].Other? then now == Integer(defaultTTL)
      else
        var v := was["knativebrokerttl"].value;
        now == Integer(if v == -0x8000_0000 then 0x7fff_ffff else if v > 0 then v - 1 else 0)
  {
    var ttl: int32;
    if TTL !in event.extensions {
      ttl := defaultTTL;
    } else if event.extensions[TTL].Other? {
      ttl := defaultTTL;
    } else {
      ttl := Wrap32(event.extensions[TTL].value - 1);
      if ttl < 0 {
        ttl := 0;
      }
    }
    event.SetTTL(ttl);
  }

  /** Handler.receive up to the dispatch: whether the event goes on to the channel. */
  method Receive(event: CloudEvent, defaulter: Option<int32>, now: string) returns (forwarded: bool)
    modifies event
    ensures defaulter.Some? ==>
      var t := Stamp(TtlOf(old(event.extensions)), defaulter.value);
      && (forwarded <==> t > 0)
      && event.extensions == old(event.extensions)[ARRIVAL_TIME := Other(now)][TTL := Integer(t)]
    ensures forwarded ==>
      var ttl := TtlOf(event.extensions);
      ttl.Some? && ttl.value.Integer? && ttl.value.value > 0
    ensures defaulter.Some? && "knativebrokerttl" !in old(event.extensions) ==> (forwarded <==> defaulter.value > 0)
    ensures defaulter.Some? && "knativebrokerttl" in old(event.extensions) ==>
      match old(event.extensions)["knativebrokerttl"]
      case Other(_) => forwarded <==> defaulter.value > 0
      case Integer(v) => forwarded <==> v > 1 || v == -0x8000_0000
    ensures defaulter.None? ==>
      event.extensions == old(event.extensions)[ARRIVAL_TIME := Other(now)]
  {
    event.extensions := event.extensions[ARRIVAL_TIME := Other(now)];
    if defaulter.Some? {
      TTLDefaulter(event, defaulter.value);
    }
    var ttl := event.GetTTL();
    forwarded := ttl.Some? && ttl.value > 0;
  }

  // ---------- filter ----------

  const SKIP_TTL: int32 := -1

  /** The TTL a reply carries after writeResponse. */
  function ReplyTtl(ttl: int32, written: Option<Extension>): Option<Extension> {
    if ttl == SKIP_TTL then written else Some(Integer(ttl))
  }

  datatype Outcome = BadRequest | NotFound | Filtered | Delivered

  /**
    handleDispatchToSubscriberRequest with writeResponse: `response` is the event the subscriber
    answers with, if any.  The subscriber never sees the TTL, and cannot choose the reply's.
   */
  method DispatchToSubscriber(event: CloudEvent, hasSubscriber: bool, passes: bool, response: CloudEvent?)
      returns (outcome: Outcome)
    requires response != event
    modifies event, if response == null then {} else {response}
    ensures outcome == BadRequest
       <==> !(TtlOf(old(event.extensions)).Some? && TtlOf(old(event.extensions)).value.Integer?)
    ensures outcome == BadRequest ==> event.extensions == old(event.extensions)
    ensures outcome != BadRequest ==> event.extensions == old(event.extensions) - {TTL}
    ensures outcome == Delivered <==> outcome != BadRequest && hasSubscriber && passes
    ensures outcome == NotFound <==> outcome != BadRequest && !hasSubscriber
    ensures response != null && outcome == Delivered ==>
      && TtlOf(response.extensions)
         == ReplyTtl(TtlOf(old(event.extensions)).value.value, TtlOf(old(response.extensions)))
      && response.extensions - {TTL} == old(response.extensions) - {TTL}
    ensures response != null && outcome == Delivered ==>
      var ttl := old(event.extensions)["knativebrokerttl"];
      if ttl == Integer(-1) then response.extensions == old(response.extensions)
      else response.extensions == old(response.extensions)["knativebrokerttl" := ttl]
    ensures outcome != BadRequest ==> "knativebrokerttl" !in event.extensions
    ensures response != null && outcome != Delivered ==> response.extensions == old(response.extensions)
  {
    var ttl := event.GetTTL();
    if ttl.None? {
      return BadRequest;
    }
    event.DeleteTTL();
    if !hasSubscriber {
      return NotFound;
    }
    if !passes {
      return Filtered;
    }
    if response != null && ttl.value != SKIP_TTL {
      response.SetTTL(ttl.value);
    }
    outcome := Delivered;
  }

  // ---------- the loop as a transition system ----------

  /** An event on its way to ingress: `hops` acceptances so far, `root` the TTL of the first one. */
  datatype Message = Message(raw: Option<Extension>, root: int, hops: nat)
  /** An event on its way from the channel to one trigger. */
  datatype Delivery = Delivery(ttl: int32, root: int, hops: nat)
  datatype Broker = Broker(ingress: seq<Message>, deliveries: seq<Delivery>, delivered: nat)

  function Remove<T>(s: seq<T>, i: nat): seq<T>
    requires i < |s|
  {
    s[..i] + s[i + 1..]
  }

  function Repeat<T>(n: nat, x: T): seq<T> { if n == 0 then [] else [x] + Repeat(n - 1, x) }

  /** The delivery that ingress makes of message m when it stamps t. */
  function Accepted(m: Message, t: int32): Delivery {
    Delivery(t, if m.hops == 0 then t else m.root, m.hops + 1)
  }

  /** Ingress drops the message or hands it to each of the k triggers. */
  function Ingress(k: nat, defaultTTL: int32, b: Broker, i: nat): Broker
    requires i < |b.ingress|
  {
    var m := b.ingress[i];
    var t := Stamp(m.raw, defaultTTL);
    b.(ingress := Remove(b.ingress, i),
       deliveries := if t > 0 then b.deliveries + Repeat(k, Accepted(m, t)) else b.deliveries)
  }

  /** A trigger handles a delivery; `reply` is the TTL on the subscriber's answer, None if there is none. */
  function Deliver(b: Broker, i: nat, reply: Option<Option<Extension>>): Broker
    requires i < |b.deliveries|
  {
    var d := b.deliveries[i];
    Broker(if reply.None? then b.ingress else b.ingress + [Message(ReplyTtl(d.ttl, reply.value), d.root, d.hops)],
           Remove(b.deliveries, i), b.delivered + 1)
  }

  ghost predicate Next(k: nat, defaultTTL: int32, b: Broker, b': Broker) {
    || (exists i | 0 <= i < |b.ingress| :: b' == Ingress(k, defaultTTL, b, i))
    || (exists i, reply | 0 <= i < |b.deliveries| :: b' == Deliver(b, i, reply))
  }

  /** A run from finitely many external events. */
  ghost predicate IsRun(k: nat, defaultTTL: int32, run: seq<Broker>) {
    && run != []
    && run[0].deliveries == [] && run[0].delivered == 0 && (forall m <- run[0].ingress :: m.hops == 0)
    && forall i | 0 <= i < |run| - 1 :: Next(k, defaultTTL, run[i], run[i + 1])
  }

  predicate GoodMessage(m: Message) {
    m.hops > 0 ==> m.raw.Some? && m.raw.value.Integer? && 0 < m.raw.value.value == m.root + 1 - m.hops
  }

  /** On each reply chain the TTL has dropped by one per acceptance, and is still positive. */
  predicate GoodDelivery(d: Delivery) {
    0 < d.ttl == d.root + 1 - d.hops
  }

  ghost predicate Good(b: Broker) {
    (forall m <- b.ingress :: GoodMessage(m)) && (forall d <- b.deliveries :: GoodDelivery(d))
  }

  lemma RemoveMembers<T>(s: seq<T>, i: nat, x: T)
    requires i < |s| && x in Remove(s, i)
    ensures x in s
  {
  }

  lemma {:induction false} RepeatMembers<T>(n: nat, x: T, y: T)
    requires y in Repeat(n, x)
    ensures y == x
  {
    if y != x {
      RepeatMembers(n - 1, x, y);
    }
  }

  lemma IngressKeepsGood(k: nat, defaultTTL: int32, b: Broker, i: nat)
    requires Good(b) && i < |b.ingress|
    ensures Good(Ingress(k, defaultTTL, b, i))
  {
    var b' := Ingress(k, defaultTTL, b, i);
    assert GoodMessage(b.ingress[i]) by { assert b.ingress[i] in b.ingress; }
    forall m | m in b'.ingress ensures GoodMessage(m) {
      RemoveMembers(b.ingress, i, m);
    }
    var d := Accepted(b.ingress[i], Stamp(b.ingress[i].raw, defaultTTL));
    forall x | x in b'.deliveries ensures GoodDelivery(x) {
      if x !in b.deliveries {
        RepeatMembers(k, d, x);
      }
    }
  }

  lemma DeliverKeepsGood(b: Broker, i: nat, reply: Option<Option<Extension>>)
    requires Good(b) && i < |b.deliveries|
    ensures Good(Deliver(b, i, reply))
  {
    var b' := Deliver(b, i, reply);
    assert GoodDelivery(b.deliveries[i]) by { assert b.deliveries[i] in b.deliveries; }
    forall d | d in b'.deliveries ensures GoodDelivery(d) {
      RemoveMembers(b.deliveries, i, d);
    }
  }

  lemma NextKeepsGood(k: nat, defaultTTL: int32, b: Broker, b': Broker)
    requires Good(b) && Next(k, defaultTTL, b, b')
    ensures Good(b')
  {
    if i :| 0 <= i < |b.ingress| && b' == Ingress(k, defaultTTL, b, i) {
      IngressKeepsGood(k, defaultTTL, b, i);
    } else {
      var i, reply :| 0 <= i < |b.deliveries| && b' == Deliver(b, i, reply);
      DeliverKeepsGood(b, i, reply);
    }
  }

  // ---------- how much a broker can still do ----------

  function Sum<T>(f: T -> nat, s: seq<T>): nat {
    if s == [] then 0 else f(s[0]) + Sum(f, s[1..])
  }

  lemma {:induction false} SumAppend<T>(f: T -> nat, a: seq<T>, b: seq<T>)
    ensures Sum(f, a + b) == Sum(f, a) + Sum(f, b)
  {
    if a == [] {
      assert a + b == b;
    } else {
      SumAppend(f, a[1..], b);
      assert (a + b)[1..] == a[1..] + b;
    }
  }

  lemma SumCons<T>(f: T -> nat, x: T, s: seq<T>)
    ensures Sum(f, [x] + s) == f(x) + Sum(f, s)
  {
    assert ([x] + s)[1..] == s;
  }

  lemma SumMiddle<T>(f: T -> nat, a: seq<T>, x: T, b: seq<T>)
    ensures Sum(f, a + ([x] + b)) == f(x) + Sum(f, a + b)
  {
    SumAppend(f, a, [x] + b);
    SumCons(f, x, b);
    SumAppend(f, a, b);
  }

  lemma ThreeParts<T>(s: seq<T>, i: nat)
    requires i < |s|
    ensures s == s[..i] + ([s[i]] + s[i + 1..])
  {
  }

  lemma SumRemove<T>(f: T -> nat, s: seq<T>, i: nat)
    requires i < |s|
    ensures Sum(f, s) == f(s[i]) + Sum(f, Remove(s, i))
  {
    ThreeParts(s, i);
    SumMiddle(f, s[..i], s[i], s[i + 1..]);
  }

  lemma {:induction false} SumRepeat<T>(f: T -> nat, n: nat, x: T)
    ensures Sum(f, Repeat(n, x)) == n * f(x)
  {
    if n > 0 {
      SumRepeat(f, n - 1, x);
      SumCons(f, x, Repeat(n - 1, x));
      assert n * f(x) == (n - 1) * f(x) + f(x);
    }
  }

  /** The deliveries an accepted event with TTL n can cause, replies and their replies included. */
  function Deliveries(k: nat, n: nat): nat {
    if n == 0 then 0 else k * (1 + Deliveries(k, n - 1))
  }

  /** The steps a message that will be stamped n can cause. */
  function Steps(k: nat, n: nat): nat {
    if n == 0 then 1 else 1 + k * (1 + Steps(k, n - 1))
  }

  function Power(k: nat, n: nat): nat { if n == 0 then 1 else k * Power(k, n - 1) }

  /** k + k^2 + ... + k^n. */
  function PowerSum(k: nat, n: nat): nat { if n == 0 then 0 else PowerSum(k, n - 1) + Power(k, n) }

  lemma {:induction false} PowerSumShift(k: nat, n: nat)
    ensures k * (1 + PowerSum(k, n)) == PowerSum(k, n + 1)
  {
    if n == 0 {
      assert Power(k, 1) == k * Power(k, 0) == k;
    } else {
      PowerSumShift(k, n - 1);
      var a, p := PowerSum(k, n - 1), Power(k, n);
      assert PowerSum(k, n) == a + p && Power(k, n + 1) == k * p;
      assert k * (1 + (a + p)) == k * (1 + a) + k * p;
    }
  }

  lemma {:induction false} DeliveriesIsPowerSum(k: nat, n: nat)
    ensures Deliveries(k, n) == PowerSum(k, n)
  {
    if n > 0 {
      DeliveriesIsPowerSum(k, n - 1);
      PowerSumShift(k, n - 1);
    }
  }

  function Positive(t: int): nat { if t > 0 then t else 0 }

  function MessageDeliveries(k: nat, defaultTTL: int32): Message -> nat {
    (m: Message) => Deliveries(k, Positive(Stamp(m.raw, defaultTTL)))
  }
  function MessageSteps(k: nat, defaultTTL: int32): Message -> nat {
    (m: Message) => Steps(k, Positive(Stamp(m.raw, defaultTTL)))
  }
  function DeliveryDeliveries(k: nat): Delivery -> nat { (d: Delivery) => 1 + Deliveries(k, Positive(d.ttl - 1)) }
  function DeliverySteps(k: nat): Delivery -> nat { (d: Delivery) => 1 + Steps(k, Positive(d.ttl - 1)) }

  /** Deliveries made plus the most that can still come. */
  function Total(k: nat, defaultTTL: int32, b: Broker): nat {
    b.delivered + Sum(MessageDeliveries(k, defaultTTL), b.ingress) + Sum(DeliveryDeliveries(k), b.deliveries)
  }

  /** The most steps that can still come: the measure under which every run ends. */
  function Measure(k: nat, defaultTTL: int32, b: Broker): nat {
    Sum(MessageSteps(k, defaultTTL), b.ingress) + Sum(DeliverySteps(k), b.deliveries)
  }

  /** One message replaced by k deliveries, weighed by f and g. */
  lemma SumFanOut<T, U>(f: T -> nat, g: U -> nat, ms: seq<T>, ds: seq<U>, i: nat, k: nat, d: U)
    requires i < |ms|
    ensures Sum(f, Remove(ms, i)) + Sum(g, ds + Repeat(k, d)) == Sum(f, ms) - f(ms[i]) + Sum(g, ds) + k * g(d)
  {
    SumRemove(f, ms, i);
    SumAppend(g, ds, Repeat(k, d));
    SumRepeat(g, k, d);
  }

  lemma IngressStep(k: nat, defaultTTL: int32, b: Broker, i: nat)
    requires i < |b.ingress|
    ensures Measure(k, defaultTTL, Ingress(k, defaultTTL, b, i)) < Measure(k, defaultTTL, b)
    ensures Total(k, defaultTTL, Ingress(k, defaultTTL, b, i)) == Total(k, defaultTTL, b)
  {
    var m := b.ingress[i];
    var t := Stamp(m.raw, defaultTTL);
    if t > 0 {
      var d := Accepted(m, t);
      assert MessageSteps(k, defaultTTL)(m) == 1 + k * DeliverySteps(k)(d);
      assert MessageDeliveries(k, defaultTTL)(m) == k * DeliveryDeliveries(k)(d);
      SumFanOut(MessageSteps(k, defaultTTL), DeliverySteps(k), b.ingress, b.deliveries, i, k, d);
      SumFanOut(MessageDeliveries(k, defaultTTL), DeliveryDeliveries(k), b.ingress, b.deliveries, i, k, d);
    } else {
      SumRemove(MessageSteps(k, defaultTTL), b.ingress, i);
      SumRemove(MessageDeliveries(k, defaultTTL), b.ingress, i);
    }
  }

  lemma DeliverStep(k: nat, defaultTTL: int32, b: Broker, i: nat, reply: Option<Option<Extension>>)
    requires i < |b.deliveries| && GoodDelivery(b.deliveries[i])
    ensures Measure(k, defaultTTL, Deliver(b, i, reply)) < Measure(k, defaultTTL, b)
    ensures Total(k, defaultTTL, Deliver(b, i, reply)) <= Total(k, defaultTTL, b)
    ensures reply.Some? ==> Total(k, defaultTTL, Deliver(b, i, reply)) == Total(k, defaultTTL, b)
  {
    var d := b.deliveries[i];
    SumRemove(DeliverySteps(k), b.deliveries, i);
    SumRemove(DeliveryDeliveries(k), b.deliveries, i);
    if reply.Some? {
      var m := Message(ReplyTtl(d.ttl, reply.value), d.root, d.hops);
      assert Stamp(m.raw, defaultTTL) == d.ttl - 1;
      SumAppend(MessageSteps(k, defaultTTL), b.ingress, [m]);
      SumAppend(MessageDeliveries(k, defaultTTL), b.ingress, [m]);
    }
  }

  lemma NextDecreases(k: nat, defaultTTL: int32, b: Broker, b': Broker)
    requires Good(b) && Next(k, defaultTTL, b, b')
    ensures Measure(k, defaultTTL, b') < Measure(k, defaultTTL, b)
    ensures Total(k, defaultTTL, b') <= Total(k, defaultTTL, b)
  {
    if i :| 0 <= i < |b.ingress| && b' == Ingress(k, defaultTTL, b, i) {
      IngressStep(k, defaultTTL, b, i);
    } else {
      var i, reply :| 0 <= i < |b.deliveries| && b' == Deliver(b, i, reply);
      assert b.deliveries[i] in b.deliveries;
      DeliverStep(k, defaultTTL, b, i, reply);
    }
  }

  lemma {:induction false} RunInvariant(k: nat, defaultTTL: int32, run: seq<Broker>, n: nat)
    requires IsRun(k, defaultTTL, run) && n < |run|
    ensures Good(run[n])
    ensures Measure(k, defaultTTL, run[n]) + n <= Measure(k, defaultTTL, run[0])
    ensures Total(k, defaultTTL, run[n]) <= Total(k, defaultTTL, run[0])
  {
    if n > 0 {
      RunInvariant(k, defaultTTL, run, n - 1);
      assert Next(k, defaultTTL, run[n - 1], run[n - 1 + 1]);
      NextKeepsGood(k, defaultTTL, run[n - 1], run[n]);
      NextDecreases(k, defaultTTL, run[n - 1], run[n]);
    }
  }

  /** k + ... + k^n for an external event stamped n. */
  function Bound(k: nat, defaultTTL: int32): Message -> nat {
    (m: Message) => PowerSum(k, Positive(Stamp(m.raw, defaultTTL)))
  }

  lemma {:induction false} TotalIsBound(k: nat, defaultTTL: int32, ms: seq<Message>)
    ensures Sum(MessageDeliveries(k, defaultTTL), ms) == Sum(Bound(k, defaultTTL), ms)
  {
    if ms != [] {
      DeliveriesIsPowerSum(k, Positive(Stamp(ms[0].raw, defaultTTL)));
      TotalIsBound(k, defaultTTL, ms[1..]);
    }
  }

  /**
    No reply storm: whatever the subscribers answer, every run ends, makes at most k + ... + k^n
    deliveries for each external event stamped n, accepts no event more than n times on one chain,
    and never forwards a TTL that the filter would take for its skip marker.
   */
  lemma NoReplyStorm(k: nat, defaultTTL: int32, run: seq<Broker>)
    requires IsRun(k, defaultTTL, run)
    ensures |run| <= Measure(k, defaultTTL, run[0]) + 1
    ensures run[|run| - 1].delivered <= Sum(Bound(k, defaultTTL), run[0].ingress)
    ensures forall n, d | 0 <= n < |run| && d in run[n].deliveries ::
      1 <= d.ttl && d.hops <= d.root && d.ttl != SKIP_TTL
  {
    RunInvariant(k, defaultTTL, run, |run| - 1);
    TotalIsBound(k, defaultTTL, run[0].ingress);
    forall n, d | 0 <= n < |run| && d in run[n].deliveries ensures 1 <= d.ttl && d.hops <= d.root && d.ttl != SKIP_TTL {
      RunInvariant(k, defaultTTL, run, n);
      assert GoodDelivery(d);
    }
  }
}
