/**
  The table of waiting requests in pkg/requestreply/ingress_handler.go, as a transition system.
  Each step is one lock-protected region, one channel operation or one answer; requests, replies,
  timeouts and key rotation interleave freely, and event ids may repeat.
 */
module RequestReply {
  import opened Wrappers
  import opened Text
  import opened CorrelationId
  import opened KeyStore

  // ---------- the table ----------

  /** The waiting requests of each RequestReply, by event id. */
  type Table<V> = map<NamespacedName, map<Bytes, V>>

  function Find<V>(entries: Table<V>, rr: NamespacedName, id: Bytes): Option<V> {
    if rr in entries && id in entries[rr] then Some(entries[rr][id]) else None
  }

  function Register<V>(entries: Table<V>, rr: NamespacedName, id: Bytes, v: V): Table<V> {
    var ids := if rr in entries then entries[rr] else map[];
    entries[rr := ids[id := v]]
  }

  function Unregister<V>(entries: Table<V>, rr: NamespacedName, id: Bytes): Table<V> {
    if rr in entries then entries[rr := entries[rr] - {id}] else entries
  }

  /** Registering or unregistering one id changes what that id leads to, and nothing else. */
  lemma TableLaws<V>(entries: Table<V>, rr: NamespacedName, id: Bytes, v: V, rr': NamespacedName, id': Bytes)
    ensures Find(Register(entries, rr, id, v), rr', id')
         == if rr' == rr && id' == id then Some(v) else Find(entries, rr', id')
    ensures Find(Unregister(entries, rr, id), rr', id')
         == if rr' == rr && id' == id then None else Find(entries, rr', id')
  {
  }

  /** The reply attribute of an incoming event: absent, not a string, or a string. */
  datatype ReplyAttribute = Missing | NotString | ReplyId(text: Bytes)

  datatype Incoming = Incoming(attribute: ReplyAttribute, data: Bytes)

  class ProxiedRequest {
    /** replyEvent, a channel of capacity one. */
    var replyEvent: Option<Incoming>

    constructor ()
      ensures replyEvent == None
    {
      replyEvent := None;
    }
  }

  /** The reply id verifies under one of the keys, which are None if the store knows no such RequestReply. */
  ghost predicate ValidReply(aead: Aead, event: Incoming, keys: Option<seq<Bytes>>) {
    && keys.Some? && event.attribute.ReplyId?
    && exists i | 0 <= i < |keys.value| :: Verifies(aead, event.attribute.text, keys.value[i])
  }

  class IngressHandler {
    var entries: Table<ProxiedRequest>

    constructor ()
      ensures entries == map[]
    {
      entries := map[];
    }

    method AddEvent(id: Bytes, rr: NamespacedName) returns (pr: ProxiedRequest)
      modifies this
      ensures fresh(pr) && pr.replyEvent == None && entries == Register(old(entries), rr, id, pr)
    {
      pr := new ProxiedRequest();
      if rr !in entries {
        entries := entries[rr := map[]];
      }
      entries := entries[rr := entries[rr][id := pr]];
    }

    method DeleteEvent(id: Bytes, rr: NamespacedName)
      modifies this
      ensures entries == Unregister(old(entries), rr, id)
    {
      if rr in entries {
        entries := entries[rr := entries[rr] - {id}];
      }
    }

    method GetEvent(id: Bytes, rr: NamespacedName) returns (pr: Option<ProxiedRequest>)
      ensures pr == Find(entries, rr, id)
    {
      if rr in entries && id in entries[rr] {
        return Some(entries[rr][id]);
      }
      pr := None;
    }

    /**
      handleReplyEvent with nothing else running: the status, and the one channel that may be filled,
      that of the request whose event id the reply names.
     */
    method HandleReplyEvent(aead: Aead, event: Incoming, rr: NamespacedName, keys: Option<seq<Bytes>>)
        returns (status: int)
      modifies set r, i | r in entries && i in entries[r] :: entries[r][i]
      ensures status == if ValidReply(aead, event, keys) then 202 else if keys.None? then 500 else 400
      ensures forall r, i | r in entries && i in entries[r] ::
        var pr := entries[r][i];
        pr.replyEvent ==
          if && ValidReply(aead, event, keys) && old(pr.replyEvent).None?
             && Find(entries, rr, Split(event.attribute.text, COLON)[0]) == Some(pr)
          then Some(event) else old(pr.replyEvent)
      ensures status == 202 ==>
        keys.Some? && exists k, id :: k in keys.value && SealedFor(aead, event.attribute.text, k, id)
      ensures forall r, i | r in entries && i in entries[r] ::
        var pr := entries[r][i];
        pr.replyEvent != old(pr.replyEvent) ==>
          exists k, id ::
            k in keys.value && SealedFor(aead, event.attribute.text, k, id) && Find(entries, rr, id) == Some(pr)
    {
      if keys.None? {
        return 500;
      }
      if !event.attribute.ReplyId? {
        return 400;
      }
      var valid := AnyKeyVerifies(aead, event.attribute.text, keys.value);
      if !valid {
        return 400;
      }
      ghost var k :| k in keys.value && Verifies(aead, event.attribute.text, k);
      VerifiesIff(aead, event.attribute.text, k);
      var found := GetEvent(Split(event.attribute.text, COLON)[0], rr);
      if found.Some? && found.value.replyEvent.None? {
        found.value.replyEvent := Some(event);
      }
      status := 202;
    }
  }

  // ---------- the handlers running together ----------

  /** A reply event sent to rr, and the stored key under which its id verified. */
  datatype Reply = Reply(rr: NamespacedName, replyId: Bytes, key: Bytes)

  /** The event id a reply id names. */
  function OriginalId(r: Reply): Bytes { Split(r.replyId, COLON)[0] }

  /** Sending covers everything before the select; Leaving is between the select and deleteEvent. */
  datatype Phase = Sending | Waiting | Leaving | Gone

  /** A proxiedRequest: channel is its reply channel of capacity one, written what it answered with. */
  datatype Request = Request(rr: NamespacedName, id: Bytes, phase: Phase, channel: Option<Reply>, written: seq<Reply>)

  /** A running handleReplyEvent: its id has verified, or it holds the request it looked up. */
  datatype Handler = Verified(reply: Reply) | Found(reply: Reply, request: nat)

  datatype State = State(
    requests: seq<Request>,
    entries: Table<nat>,
    handlers: seq<Handler>,
    keyLog: seq<Op>,
    verified: set<Reply>)

  const INIT := State([], map[], [], [], {})

  /** The key is one of those GetAllKeys returns for rr after the operations of the log. */
  predicate Stored(log: seq<Op>, rr: NamespacedName, key: Bytes) { key in Entries(log, rr).Values }

  datatype Step =
    | AddEvent(rr: NamespacedName, id: Bytes)       // handleNewEvent: addEvent
    | GiveUp(request: nat)                          // handleNewEvent: an error before the select
    | Await(request: nat)                           // handleNewEvent: reaches the select
    | TakeReply(request: nat)                       // select: a reply, which is written
    | Timeout(request: nat)                         // select: the context is done
    | DeleteEvent(request: nat)
    | Verify(reply: Reply)                          // handleReplyEvent: a stored key verifies the id
    | GetEvent(handler: nat)
    | TrySend(handler: nat)                         // the select with a default branch
    | ChangeKeys(op: Op)                            // the key store adds or removes a key

  function Lookup(s: State, rr: NamespacedName, id: Bytes): Option<nat> { Find(s.entries, rr, id) }

  predicate Enabled(aead: Aead, s: State, step: Step) {
    match step
    case AddEvent(_, _) => true
    case GiveUp(q) => q < |s.requests| && s.requests[q].phase == Sending
    case Await(q) => q < |s.requests| && s.requests[q].phase == Sending
    case TakeReply(q) => q < |s.requests| && s.requests[q].phase == Waiting && s.requests[q].channel.Some?
    case Timeout(q) => q < |s.requests| && s.requests[q].phase == Waiting
    case DeleteEvent(q) => q < |s.requests| && s.requests[q].phase == Leaving
    case Verify(r) => Stored(s.keyLog, r.rr, r.key) && Verifies(aead, r.replyId, r.key)
    case GetEvent(h) => h < |s.handlers| && s.handlers[h].Verified?
    case TrySend(h) => h < |s.handlers| && s.handlers[h].Found? && s.handlers[h].request < |s.requests|
    case ChangeKeys(_) => true
  }

  function WithRequest(s: State, q: nat, r: Request): State
    requires q < |s.requests|
  {
    s.(requests := s.requests[q := r])
  }

  function Without<T>(xs: seq<T>, i: nat): seq<T>
    requires i < |xs|
  {
    xs[..i] + xs[i + 1..]
  }

  function Do(aead: Aead, s: State, step: Step): State
    requires Enabled(aead, s, step)
  {
    match step
    case AddEvent(rr, id) =>
      s.(requests := s.requests + [Request(rr, id, Sending, None, [])],
         entries := Register(s.entries, rr, id, |s.requests|))
    case GiveUp(q) => WithRequest(s, q, s.requests[q].(phase := Gone))
    case Await(q) => WithRequest(s, q, s.requests[q].(phase := Waiting))
    case TakeReply(q) =>
      var r := s.requests[q];
      WithRequest(s, q, r.(phase := Leaving, channel := None, written := r.written + [r.channel.value]))
    case Timeout(q) => WithRequest(s, q, s.requests[q].(phase := Leaving))
    case DeleteEvent(q) =>
      var r := s.requests[q];
      WithRequest(s, q, r.(phase := Gone)).(entries := Unregister(s.entries, r.rr, r.id))
    case Verify(r) => s.(handlers := s.handlers + [Verified(r)], verified := s.verified + {r})
    case GetEvent(h) =>
      var r := s.handlers[h].reply;
      var found := Lookup(s, r.rr, OriginalId(r));
      s.(handlers := if found.Some? then s.handlers[h := Found(r, found.value)] else Without(s.handlers, h))
    case TrySend(h) =>
      var q, r := s.handlers[h].request, s.handlers[h].reply;
      var s' := s.(handlers := Without(s.handlers, h));
      if s.requests[q].channel.None? then WithRequest(s', q, s.requests[q].(channel := Some(r))) else s'
    case ChangeKeys(op) => s.(keyLog := s.keyLog + [op])
  }

  // ---------- what every run keeps ----------

  /** The reply belongs to the request: same RequestReply, and it names the request's event. */
  predicate Answers(r: Reply, q: Request) { r.rr == q.rr && OriginalId(r) == q.id }

  ghost predicate GoodRequest(s: State, q: Request) {
    && |q.written| <= 1 && (q.phase in {Sending, Waiting} ==> q.written == [])
    && (forall r <- q.written :: Answers(r, q) && r in s.verified)
    && (q.channel.Some? ==> Answers(q.channel.value, q) && q.channel.value in s.verified)
  }

  ghost predicate GoodHandler(s: State, h: Handler) {
    && h.reply in s.verified
    && (h.Found? ==> h.request < |s.requests| && Answers(h.reply, s.requests[h.request]))
  }

  ghost predicate GoodEntry(s: State, rr: NamespacedName, id: Bytes) {
    var q := Lookup(s, rr, id);
    q.Some? ==> q.value < |s.requests| && s.requests[q.value].rr == rr && s.requests[q.value].id == id
  }

  ghost predicate Good(s: State) {
    && (forall q | 0 <= q < |s.requests| :: GoodRequest(s, s.requests[q]))
    && (forall h | 0 <= h < |s.handlers| :: GoodHandler(s, s.handlers[h]))
    && (forall rr, id :: GoodEntry(s, rr, id))
  }

  /** s' differs from s only in request q, which keeps its identity. */
  lemma RequestChanged(s: State, q: nat, r: Request)
    requires Good(s) && q < |s.requests| && GoodRequest(s, r)
    requires r.rr == s.requests[q].rr && r.id == s.requests[q].id
    ensures Good(WithRequest(s, q, r))
  {
    var s' := WithRequest(s, q, r);
    forall p | 0 <= p < |s'.requests| ensures GoodRequest(s', s'.requests[p]) {
      assert GoodRequest(s, s'.requests[p]);
    }
    forall h | 0 <= h < |s'.handlers| ensures GoodHandler(s', s'.handlers[h]) {
      assert GoodHandler(s, s.handlers[h]);
    }
    forall rr, id ensures GoodEntry(s', rr, id) {
      assert GoodEntry(s, rr, id);
    }
  }

  lemma AddEventGood(aead: Aead, s: State, rr: NamespacedName, id: Bytes)
    requires Good(s)
    ensures Good(Do(aead, s, AddEvent(rr, id)))
  {
    var s' := Do(aead, s, AddEvent(rr, id));
    forall p | 0 <= p < |s'.requests| ensures GoodRequest(s', s'.requests[p]) {
      assert p < |s.requests| ==> GoodRequest(s, s.requests[p]);
    }
    forall h | 0 <= h < |s'.handlers| ensures GoodHandler(s', s'.handlers[h]) {
      assert GoodHandler(s, s.handlers[h]);
    }
    forall rr', id' ensures GoodEntry(s', rr', id') {
      assert GoodEntry(s, rr', id');
    }
  }

  lemma DeleteEventGood(aead: Aead, s: State, q: nat)
    requires Good(s) && Enabled(aead, s, DeleteEvent(q))
    ensures Good(Do(aead, s, DeleteEvent(q)))
  {
    var r := s.requests[q].(phase := Gone);
    assert GoodRequest(s, s.requests[q]);
    RequestChanged(s, q, r);
    var t, s' := WithRequest(s, q, r), Do(aead, s, DeleteEvent(q));
    forall rr, id ensures GoodEntry(s', rr, id) {
      assert GoodEntry(t, rr, id);
    }
    forall p | 0 <= p < |s'.requests| ensures GoodRequest(s', s'.requests[p]) {
      assert GoodRequest(t, t.requests[p]);
    }
    forall h | 0 <= h < |s'.handlers| ensures GoodHandler(s', s'.handlers[h]) {
      assert GoodHandler(t, t.handlers[h]);
    }
  }

  /** Changing only the handlers, to good ones. */
  lemma HandlersChanged(s: State, hs: seq<Handler>)
    requires Good(s) && forall h | 0 <= h < |hs| :: GoodHandler(s, hs[h])
    ensures Good(s.(handlers := hs))
  {
    var s' := s.(handlers := hs);
    forall p | 0 <= p < |s'.requests| ensures GoodRequest(s', s'.requests[p]) {
      assert GoodRequest(s, s.requests[p]);
    }
    forall h | 0 <= h < |hs| ensures GoodHandler(s', hs[h]) {
      assert GoodHandler(s, hs[h]);
    }
    forall rr, id ensures GoodEntry(s', rr, id) {
      assert GoodEntry(s, rr, id);
    }
  }

  lemma ChangeKeysGood(s: State, op: Op)
    requires Good(s)
    ensures Good(s.(keyLog := s.keyLog + [op]))
  {
    var s' := s.(keyLog := s.keyLog + [op]);
    forall p | 0 <= p < |s'.requests| ensures GoodRequest(s', s'.requests[p]) {
      assert GoodRequest(s, s.requests[p]);
    }
    forall h | 0 <= h < |s'.handlers| ensures GoodHandler(s', s'.handlers[h]) {
      assert GoodHandler(s, s.handlers[h]);
    }
    forall rr', id ensures GoodEntry(s', rr', id) {
      assert GoodEntry(s, rr', id);
    }
  }

  lemma VerifyGood(s: State, r: Reply)
    requires Good(s)
    ensures Good(s.(handlers := s.handlers + [Verified(r)], verified := s.verified + {r}))
  {
    var s' := s.(handlers := s.handlers + [Verified(r)], verified := s.verified + {r});
    forall p | 0 <= p < |s'.requests| ensures GoodRequest(s', s'.requests[p]) {
      assert GoodRequest(s, s.requests[p]);
    }
    forall h | 0 <= h < |s'.handlers| ensures GoodHandler(s', s'.handlers[h]) {
      assert h < |s.handlers| ==> GoodHandler(s, s.handlers[h]);
    }
    forall rr, id ensures GoodEntry(s', rr, id) {
      assert GoodEntry(s, rr, id);
    }
  }

  /** Every step of every participant keeps the invariant. */
  lemma StepKeepsGood(aead: Aead, s: State, step: Step)
    requires Good(s) && Enabled(aead, s, step)
    ensures Good(Do(aead, s, step))
  {
    match step
    case AddEvent(rr, id) => AddEventGood(aead, s, rr, id);
    case GiveUp(q) =>
      assert GoodRequest(s, s.requests[q]);
      RequestChanged(s, q, s.requests[q].(phase := Gone));
    case Await(q) =>
      assert GoodRequest(s, s.requests[q]);
      RequestChanged(s, q, s.requests[q].(phase := Waiting));
    case TakeReply(q) =>
      var r := s.requests[q];
      assert GoodRequest(s, r);
      RequestChanged(s, q, r.(phase := Leaving, channel := None, written := r.written + [r.channel.value]));
    case Timeout(q) =>
      assert GoodRequest(s, s.requests[q]);
      RequestChanged(s, q, s.requests[q].(phase := Leaving));
    case DeleteEvent(q) => DeleteEventGood(aead, s, q);
    case Verify(r) => VerifyGood(s, r);
    case GetEvent(h) =>
      var r := s.handlers[h].reply;
      assert GoodHandler(s, s.handlers[h]);
      assert GoodEntry(s, r.rr, OriginalId(r));
      HandlersChanged(s, Do(aead, s, step).handlers);
    case TrySend(h) =>
      var q, r := s.handlers[h].request, s.handlers[h].reply;
      assert GoodHandler(s, s.handlers[h]);
      HandlersChanged(s, Without(s.handlers, h));
      var t := s.(handlers := Without(s.handlers, h));
      assert GoodRequest(t, t.requests[q]);
      RequestChanged(t, q, t.requests[q].(channel := Some(r)));
    case ChangeKeys(op) => ChangeKeysGood(s, op);
  }

  /** The state after a run, if every step of it is enabled in turn. */
  function After(aead: Aead, steps: seq<Step>): Option<State> {
    if steps == [] then Some(INIT)
    else
      var s := After(aead, steps[..|steps| - 1]);
      if s.Some? && Enabled(aead, s.value, steps[|steps| - 1])
      then Some(Do(aead, s.value, steps[|steps| - 1]))
      else None
  }

  lemma {:induction false} RunKeepsGood(aead: Aead, steps: seq<Step>)
    requires After(aead, steps).Some?
    ensures Good(After(aead, steps).value)
  {
    if steps != [] {
      RunKeepsGood(aead, steps[..|steps| - 1]);
      StepKeepsGood(aead, After(aead, steps[..|steps| - 1]).value, steps[|steps| - 1]);
    }
  }

  /** The key operations of a run. */
  function KeyOps(steps: seq<Step>): seq<Op> {
    if steps == [] then []
    else
      var last := steps[|steps| - 1];
      KeyOps(steps[..|steps| - 1]) + if last.ChangeKeys? then [last.op] else []
  }

  /** Step i verified the reply, under a key that was stored for its RequestReply just then. */
  ghost predicate VerifiedAt(aead: Aead, steps: seq<Step>, r: Reply, i: nat) {
    i < |steps| && steps[i] == Verify(r) && Stored(KeyOps(steps[..i]), r.rr, r.key) && Verifies(aead, r.replyId, r.key)
  }

  lemma {:induction false} KeyLogIsKeyOps(aead: Aead, steps: seq<Step>)
    requires After(aead, steps).Some?
    ensures After(aead, steps).value.keyLog == KeyOps(steps)
  {
    if steps != [] {
      KeyLogIsKeyOps(aead, steps[..|steps| - 1]);
    }
  }

  lemma {:induction false} VerifiedWhileStored(aead: Aead, steps: seq<Step>, r: Reply)
    requires After(aead, steps).Some? && r in After(aead, steps).value.verified
    ensures exists i: nat :: VerifiedAt(aead, steps, r, i)
  {
    var n := |steps| - 1;
    var front := steps[..n];
    if r in After(aead, front).value.verified {
      VerifiedWhileStored(aead, front, r);
      var i: nat :| VerifiedAt(aead, front, r, i);
      assert front[..i] == steps[..i];
      assert VerifiedAt(aead, steps, r, i);
    } else {
      KeyLogIsKeyOps(aead, front);
      assert VerifiedAt(aead, steps, r, n);
    }
  }

  /**
    In every run, a request answers at most once, and only with a reply to its own event, sent to
    its own RequestReply, in which the request's own id is sealed under a key that the key store held
    when the reply was verified.
   */
  lemma AtMostOneAuthenticReply(aead: Aead, steps: seq<Step>, q: nat)
    requires After(aead, steps).Some? && q < |After(aead, steps).value.requests|
    ensures
      var request := After(aead, steps).value.requests[q];
      && |request.written| <= 1
      && forall r <- request.written ::
           && Answers(r, request) && SealedFor(aead, r.replyId, r.key, request.id)
           && exists i: nat :: VerifiedAt(aead, steps, r, i)
  {
    RunKeepsGood(aead, steps);
    var s := After(aead, steps).value;
    assert GoodRequest(s, s.requests[q]);
    forall r | r in s.requests[q].written
      ensures SealedFor(aead, r.replyId, r.key, s.requests[q].id) && exists i: nat :: VerifiedAt(aead, steps, r, i)
    {
      VerifiedWhileStored(aead, steps, r);
      VerifiesIff(aead, r.replyId, r.key);
    }
  }

  /** A reply handler always has a next step, whatever the channels hold, and two steps end it. */
  lemma HandlerNeverBlocks(aead: Aead, steps: seq<Step>, h: nat)
    requires After(aead, steps).Some? && h < |After(aead, steps).value.handlers|
    ensures
      var s := After(aead, steps).value;
      if s.handlers[h].Found? then
        Enabled(aead, s, TrySend(h)) && |Do(aead, s, TrySend(h)).handlers| == |s.handlers| - 1
      else
        && Enabled(aead, s, GetEvent(h))
        && var t := Do(aead, s, GetEvent(h));
        |t.handlers| == |s.handlers| - 1 || (t.handlers[h].Found? && Enabled(aead, t, TrySend(h)))
  {
    RunKeepsGood(aead, steps);
    var s := After(aead, steps).value;
    assert GoodHandler(s, s.handlers[h]);
    if s.handlers[h].Verified? {
      var r := s.handlers[h].reply;
      assert GoodEntry(s, r.rr, OriginalId(r));
    }
  }

  // ---------- which request a reply finds ----------

  lemma StepKeepsIdentity(aead: Aead, s: State, step: Step)
    requires Enabled(aead, s, step)
    ensures
      var t := Do(aead, s, step);
      && |t.requests| == |s.requests| + (if step.AddEvent? then 1 else 0)
      && forall p | 0 <= p < |s.requests| :: SameKey(t.requests[p], s.requests[p])
  {
  }

  predicate SameKey(a: Request, b: Request) { a.rr == b.rr && a.id == b.id }

  /** The requests made by a run. */
  function Adds(steps: seq<Step>): nat {
    if steps == [] then 0 else Adds(steps[..|steps| - 1]) + if steps[|steps| - 1].AddEvent? then 1 else 0
  }

  /** The step adds or deletes an event with the key of request q; requests are those of a later state. */
  predicate Touches(requests: seq<Request>, step: Step, q: Request) {
    match step
    case AddEvent(rr, id) => rr == q.rr && id == q.id
    case DeleteEvent(p) => p < |requests| && SameKey(requests[p], q)
    case _ => false
  }

  lemma {:induction false} RunCounts(aead: Aead, steps: seq<Step>)
    requires After(aead, steps).Some?
    ensures |After(aead, steps).value.requests| == Adds(steps)
    ensures forall j | 0 <= j < |steps| && (steps[j].DeleteEvent? || steps[j].GiveUp?) :: steps[j].request < Adds(steps)
  {
    if steps != [] {
      var front := steps[..|steps| - 1];
      RunCounts(aead, front);
      StepKeepsIdentity(aead, After(aead, front).value, steps[|steps| - 1]);
      assert forall j | 0 <= j < |front| :: front[j] == steps[j];
    }
  }

  /** Step i is the AddEvent of request q, and no later step adds or deletes an event with its key. */
  ghost predicate LastTouch(requests: seq<Request>, steps: seq<Step>, q: nat, i: nat) {
    && i < |steps| && q < |requests| && steps[i].AddEvent? && Adds(steps[..i]) == q
    && forall j | i < j < |steps| :: !Touches(requests, steps[j], requests[q])
  }

  /** A step that does not touch the key of an earlier request changes nothing about its last touch. */
  lemma LastTouchKept(before: seq<Request>, after: seq<Request>, front: seq<Step>, last: Step, q: nat, i: nat)
    requires q < |before| <= |after| && |before| == Adds(front)
    requires forall p | 0 <= p < |before| :: SameKey(after[p], before[p])
    requires forall j | 0 <= j < |front| && front[j].DeleteEvent? :: front[j].request < |before|
    requires !Touches(after, last, after[q])
    ensures LastTouch(after, front + [last], q, i) <==> LastTouch(before, front, q, i)
  {
    var steps, n := front + [last], |front|;
    assert i < n ==> front[..i] == steps[..i];
    assert i == n ==> steps[..i] == front;
    forall j | 0 <= j < n ensures Touches(after, steps[j], after[q]) <==> Touches(before, front[j], before[q]) {
      assert steps[j] == front[j] && SameKey(after[q], before[q]);
    }
  }

  /** One more step: an earlier request keeps its last touch unless the step touches its key. */
  lemma LastTouchStep(before: seq<Request>, after: seq<Request>, front: seq<Step>, last: Step, q: nat)
    requires q < |before| <= |after| && |before| == Adds(front)
    requires forall p | 0 <= p < |before| :: SameKey(after[p], before[p])
    requires forall j | 0 <= j < |front| && front[j].DeleteEvent? :: front[j].request < |before|
    ensures (exists i: nat :: LastTouch(after, front + [last], q, i))
       <==> !Touches(after, last, after[q]) && exists i: nat :: LastTouch(before, front, q, i)
  {
    var steps, n := front + [last], |front|;
    if Touches(after, last, after[q]) {
      forall i: nat ensures !LastTouch(after, steps, q, i) {
        assert steps[n] == last;
        assert i == n ==> steps[..i] == front;
      }
    } else {
      forall i: nat ensures LastTouch(after, steps, q, i) <==> LastTouch(before, front, q, i) {
        LastTouchKept(before, after, front, last, q, i);
      }
    }
  }

  ghost predicate Registered(s: State, q: nat)
    requires q < |s.requests|
  {
    Lookup(s, s.requests[q].rr, s.requests[q].id) == Some(q)
  }

  lemma StepRegisters(aead: Aead, s: State, step: Step, q: nat)
    requires Good(s) && Enabled(aead, s, step) && q < |s.requests|
    ensures
      var t := Do(aead, s, step);
      Registered(t, q) <==> Registered(s, q) && !Touches(t.requests, step, t.requests[q])
  {
    StepKeepsIdentity(aead, s, step);
    var t := Do(aead, s, step);
    var rr, id := s.requests[q].rr, s.requests[q].id;
    if step.AddEvent? {
      TableLaws(s.entries, step.rr, step.id, |s.requests|, rr, id);
    } else if step.DeleteEvent? {
      TableLaws(s.entries, s.requests[step.request].rr, s.requests[step.request].id, 0, rr, id);
    }
  }

  lemma NewIsRegistered(aead: Aead, s: State, step: Step)
    requires step.AddEvent?
    ensures Registered(Do(aead, s, step), |s.requests|)
  {
  }

  lemma NewLastTouch(requests: seq<Request>, front: seq<Step>, step: Step)
    requires step.AddEvent? && Adds(front) < |requests|
    ensures LastTouch(requests, front + [step], Adds(front), |front|)
  {
    assert (front + [step])[..|front|] == front;
  }

  /**
    In every run, the event id of a request leads to that request if and only if the last step that
    added or deleted an event with its id, for its RequestReply, is the request's own AddEvent.
   */
  lemma {:induction false} RegisteredIff(aead: Aead, steps: seq<Step>, q: nat)
    requires After(aead, steps).Some? && q < |After(aead, steps).value.requests|
    ensures Registered(After(aead, steps).value, q)
       <==> exists i: nat :: LastTouch(After(aead, steps).value.requests, steps, q, i)
  {
    var n := |steps| - 1;
    var front := steps[..n];
    var s, t := After(aead, front).value, After(aead, steps).value;
    RunCounts(aead, front);
    StepKeepsIdentity(aead, s, steps[n]);
    assert front + [steps[n]] == steps;
    if q == |s.requests| {
      NewIsRegistered(aead, s, steps[n]);
      NewLastTouch(t.requests, front, steps[n]);
    } else {
      RunKeepsGood(aead, front);
      RegisteredIff(aead, front, q);
      StepRegisters(aead, s, steps[n], q);
      LastTouchStep(s.requests, t.requests, front, steps[n], q);
    }
  }

  ghost predicate DistinctKeys(requests: seq<Request>) {
    forall p, q | 0 <= p < q < |requests| :: !SameKey(requests[p], requests[q])
  }

  lemma DistinctBefore(before: seq<Request>, after: seq<Request>)
    requires DistinctKeys(after) && |before| <= |after| && forall p | 0 <= p < |before| :: SameKey(after[p], before[p])
    ensures DistinctKeys(before)
  {
    forall p, r | 0 <= p < r < |before| ensures !SameKey(before[p], before[r]) {
      assert !SameKey(after[p], after[r]);
    }
  }

  /** With distinct keys a step unregisters a request only by deleting its own event. */
  lemma DistinctStep(aead: Aead, s: State, step: Step, q: nat)
    requires Good(s) && Enabled(aead, s, step) && q < |s.requests| && DistinctKeys(Do(aead, s, step).requests)
    ensures
      var t := Do(aead, s, step);
      && (Registered(t, q) <==> Registered(s, q) && step != DeleteEvent(q))
      && (t.requests[q].phase == Gone <==> s.requests[q].phase == Gone || step in {DeleteEvent(q), GiveUp(q)})
  {
    var t := Do(aead, s, step);
    StepKeepsIdentity(aead, s, step);
    StepRegisters(aead, s, step, q);
    assert step.AddEvent? ==> !SameKey(t.requests[q], t.requests[|s.requests|]);
  }

  /**
    If no two requests share RequestReply and event id, a request is registered exactly while it is
    not gone, and for ever if it gave up before it waited.
   */
  lemma {:induction false} DistinctRegisteredIff(aead: Aead, steps: seq<Step>, q: nat)
    requires After(aead, steps).Some? && q < |After(aead, steps).value.requests|
    requires DistinctKeys(After(aead, steps).value.requests)
    ensures Registered(After(aead, steps).value, q)
       <==> After(aead, steps).value.requests[q].phase != Gone || GiveUp(q) in steps
    ensures GiveUp(q) in steps ==> After(aead, steps).value.requests[q].phase == Gone
  {
    var n := |steps| - 1;
    var front, last := steps[..n], steps[n];
    var s, t := After(aead, front).value, After(aead, steps).value;
    StepKeepsIdentity(aead, s, last);
    RunCounts(aead, front);
    assert steps == front + [last];
    if q == |s.requests| {
      NewIsRegistered(aead, s, last);
      assert GiveUp(q) !in front;
    } else {
      DistinctBefore(s.requests, t.requests);
      DistinctRegisteredIff(aead, front, q);
      RunKeepsGood(aead, front);
      DistinctStep(aead, s, last, q);
    }
  }

  // ---------- what stays in the table ----------

  ghost predicate TableEmpty(s: State) { forall rr, id :: Lookup(s, rr, id).None? }

  lemma EmptyIffNoneRegistered(s: State)
    requires Good(s)
    ensures TableEmpty(s) <==> forall q | 0 <= q < |s.requests| :: !Registered(s, q)
  {
    forall rr, id | Lookup(s, rr, id).Some? ensures exists q | 0 <= q < |s.requests| :: Registered(s, q) {
      assert GoodEntry(s, rr, id);
      assert Registered(s, Lookup(s, rr, id).value);
    }
  }

  /** The request that step i makes has the key of that step. */
  lemma {:induction false} AddedRequest(aead: Aead, steps: seq<Step>, i: nat)
    requires After(aead, steps).Some? && i < |steps| && steps[i].AddEvent?
    ensures
      var q, requests := Adds(steps[..i]), After(aead, steps).value.requests;
      q < |requests| && requests[q].rr == steps[i].rr && requests[q].id == steps[i].id
  {
    var n := |steps| - 1;
    var front := steps[..n];
    RunCounts(aead, front);
    StepKeepsIdentity(aead, After(aead, front).value, steps[n]);
    if i < n {
      AddedRequest(aead, front, i);
      assert front[..i] == steps[..i];
    }
  }

  /** After step i some step deletes an event with the key of the request that step i made. */
  ghost predicate DeletedAfter(requests: seq<Request>, steps: seq<Step>, i: nat) {
    && i < |steps| && Adds(steps[..i]) < |requests|
    && exists j | i < j < |steps| :: steps[j].DeleteEvent? && Touches(requests, steps[j], requests[Adds(steps[..i])])
  }

  lemma {:induction false} UnregisteredIsDeleted(aead: Aead, steps: seq<Step>, i: nat)
    requires After(aead, steps).Some? && i < |steps| && steps[i].AddEvent?
    requires forall q | 0 <= q < |After(aead, steps).value.requests| :: !Registered(After(aead, steps).value, q)
    ensures DeletedAfter(After(aead, steps).value.requests, steps, i)
    decreases |steps| - i
  {
    var requests, q := After(aead, steps).value.requests, Adds(steps[..i]);
    AddedRequest(aead, steps, i);
    RegisteredIff(aead, steps, q);
    assert !LastTouch(requests, steps, q, i);
    var j :| i < j < |steps| && Touches(requests, steps[j], requests[q]);
    if steps[j].AddEvent? {
      UnregisteredIsDeleted(aead, steps, j);
      AddedRequest(aead, steps, j);
      var k :| j < k < |steps| && steps[k].DeleteEvent? && Touches(requests, steps[k], requests[Adds(steps[..j])]);
      assert Touches(requests, steps[k], requests[q]);
    }
  }

  /** In every run, the table is empty if and only if every AddEvent is followed by a DeleteEvent on its key. */
  lemma TableEmptyIff(aead: Aead, steps: seq<Step>)
    requires After(aead, steps).Some?
    ensures TableEmpty(After(aead, steps).value)
       <==> forall i | 0 <= i < |steps| && steps[i].AddEvent? ::
              DeletedAfter(After(aead, steps).value.requests, steps, i)
  {
    var s := After(aead, steps).value;
    RunKeepsGood(aead, steps);
    EmptyIffNoneRegistered(s);
    if TableEmpty(s) {
      forall i | 0 <= i < |steps| && steps[i].AddEvent? ensures DeletedAfter(s.requests, steps, i) {
        UnregisteredIsDeleted(aead, steps, i);
      }
    }
    if forall i | 0 <= i < |steps| && steps[i].AddEvent? :: DeletedAfter(s.requests, steps, i) {
      forall q | 0 <= q < |s.requests| ensures !Registered(s, q) {
        RegisteredIff(aead, steps, q);
        assert forall i: nat | LastTouch(s.requests, steps, q, i) :: !DeletedAfter(s.requests, steps, i);
      }
    }
  }

  /** With distinct keys, once all requests are gone the table is empty if and only if none gave up before it waited. */
  lemma DrainedIff(aead: Aead, steps: seq<Step>)
    requires After(aead, steps).Some? && DistinctKeys(After(aead, steps).value.requests)
    requires forall q | 0 <= q < |After(aead, steps).value.requests| ::
      After(aead, steps).value.requests[q].phase == Gone
    ensures TableEmpty(After(aead, steps).value) <==> forall q: nat :: GiveUp(q) !in steps
  {
    var s := After(aead, steps).value;
    RunKeepsGood(aead, steps);
    RunCounts(aead, steps);
    EmptyIffNoneRegistered(s);
    forall q | 0 <= q < |s.requests| ensures Registered(s, q) <==> GiveUp(q) in steps {
      DistinctRegisteredIff(aead, steps, q);
    }
  }

  /** A request that cannot be sent leaves its entry behind. */
  lemma GiveUpLeavesEntry(aead: Aead, rr: NamespacedName, id: Bytes)
    ensures
      var s := After(aead, [AddEvent(rr, id)] + [GiveUp(0)]);
      s.Some? && s.value.requests == [Request(rr, id, Gone, None, [])] && Lookup(s.value, rr, id) == Some(0)
  {
    AfterSnoc(aead, [], AddEvent(rr, id));
    assert [] + [AddEvent(rr, id)] == [AddEvent(rr, id)];
    AfterSnoc(aead, [AddEvent(rr, id)], GiveUp(0));
  }

  // ---------- what becomes of a reply ----------

  lemma AfterSnoc(aead: Aead, steps: seq<Step>, step: Step)
    requires After(aead, steps).Some? && Enabled(aead, After(aead, steps).value, step)
    ensures After(aead, steps + [step]) == Some(Do(aead, After(aead, steps).value, step))
  {
    assert (steps + [step])[..|steps|] == steps;
  }

  /**
    At whatever point of a run a verified reply looks its request up, it finds request q if and only
    if the last step on q's key was q's own AddEvent.
   */
  lemma GetEventFindsIff(aead: Aead, steps: seq<Step>, h: nat, q: nat)
    requires After(aead, steps).Some? && q < |After(aead, steps).value.requests|
    requires h < |After(aead, steps).value.handlers| && After(aead, steps).value.handlers[h].Verified?
    requires Answers(After(aead, steps).value.handlers[h].reply, After(aead, steps).value.requests[q])
    ensures
      var s, t := After(aead, steps).value, After(aead, steps + [GetEvent(h)]);
      && t.Some?
      && (|t.value.handlers| == |s.handlers| && t.value.handlers[h] == Found(s.handlers[h].reply, q)
          <==> exists i: nat :: LastTouch(s.requests, steps, q, i))
  {
    RegisteredIff(aead, steps, q);
    AfterSnoc(aead, steps, GetEvent(h));
  }

  /**
    At whatever point of a run a handler offers its reply, it fills the channel of the request it
    found if and only if that is empty, and no request changes otherwise.
   */
  lemma TrySendFillsIff(aead: Aead, steps: seq<Step>, h: nat)
    requires After(aead, steps).Some?
    requires h < |After(aead, steps).value.handlers| && After(aead, steps).value.handlers[h].Found?
    ensures
      var s, t := After(aead, steps).value, After(aead, steps + [TrySend(h)]);
      var r, q := s.handlers[h].reply, s.handlers[h].request;
      && t.Some? && q < |s.requests|
      && t.value.requests
         == if s.requests[q].channel.None? then s.requests[q := s.requests[q].(channel := Some(r))] else s.requests
  {
    var s := After(aead, steps).value;
    RunKeepsGood(aead, steps);
    assert GoodHandler(s, s.handlers[h]);
    AfterSnoc(aead, steps, TrySend(h));
  }

  /** The request has not left its select, and r is in its channel. */
  predicate Holding(s: State, q: nat, r: Reply) {
    && q < |s.requests| && s.requests[q].phase in {Sending, Waiting}
    && s.requests[q].channel == Some(r) && s.requests[q].written == []
  }

  lemma HoldingStep(aead: Aead, s: State, step: Step, q: nat, r: Reply)
    requires Enabled(aead, s, step) && Holding(s, q, r)
    ensures
      var t := Do(aead, s, step);
      if step == TakeReply(q) then
        q < |t.requests| && t.requests[q] == Request(s.requests[q].rr, s.requests[q].id, Leaving, None, [r])
      else || Holding(t, q, r)
           || (q < |t.requests| && t.requests[q].phase in {Leaving, Gone} && t.requests[q].written == [])
  {
  }

  lemma LeftStep(aead: Aead, s: State, step: Step, q: nat)
    requires Enabled(aead, s, step) && q < |s.requests| && s.requests[q].phase in {Leaving, Gone}
    ensures
      var t := Do(aead, s, step);
      && q < |t.requests| && t.requests[q].phase in {Leaving, Gone} && t.requests[q].written == s.requests[q].written
      && step != TakeReply(q)
  {
  }

  /** From step n on, the request takes a reply. */
  predicate Takes(steps: seq<Step>, n: nat, q: nat) {
    n < |steps| && (steps[|steps| - 1] == TakeReply(q) || Takes(steps[..|steps| - 1], n, q))
  }

  /** What a request that held r at some time looks like later. */
  ghost predicate WroteHeld(t: State, q: nat, r: Reply, took: bool) {
    && q < |t.requests| && t.requests[q].written == (if took then [r] else [])
    && (t.requests[q].phase in {Leaving, Gone} || (!took && Holding(t, q, r)))
  }

  /**
    Whatever steps follow the first n, a reply then in the channel of a request that has not left its
    select is what the request writes if it takes a reply, and it writes nothing if it does not.
   */
  lemma {:induction false} HeldReplyIsWritten(aead: Aead, steps: seq<Step>, n: nat, q: nat, r: Reply)
    requires After(aead, steps).Some? && n <= |steps|
    requires After(aead, steps[..n]).Some? && Holding(After(aead, steps[..n]).value, q, r)
    ensures WroteHeld(After(aead, steps).value, q, r, Takes(steps, n, q))
  {
    if n == |steps| {
      assert steps[..n] == steps;
    } else {
      var front, last := steps[..|steps| - 1], steps[|steps| - 1];
      assert front[..n] == steps[..n];
      HeldReplyIsWritten(aead, front, n, q, r);
      WroteHeldStep(aead, After(aead, front).value, last, q, r, Takes(front, n, q));
      assert Takes(steps, n, q) == (Takes(front, n, q) || last == TakeReply(q));
    }
  }

  lemma WroteHeldStep(aead: Aead, s: State, step: Step, q: nat, r: Reply, took: bool)
    requires Enabled(aead, s, step) && WroteHeld(s, q, r, took)
    ensures WroteHeld(Do(aead, s, step), q, r, took || step == TakeReply(q))
  {
    if s.requests[q].phase in {Leaving, Gone} {
      LeftStep(aead, s, step, q);
    } else {
      HoldingStep(aead, s, step, q, r);
    }
  }

  /** What a reply handler does once its id has verified, if nothing comes between. */
  function HandlerSteps(s: State, h: nat): seq<Step>
    requires h < |s.handlers|
  {
    var r := s.handlers[h].reply;
    if Lookup(s, r.rr, OriginalId(r)).Some? then [GetEvent(h), TrySend(h)] else [GetEvent(h)]
  }

  /** The run is possible, and leaves c in the reply channel of request q. */
  ghost predicate LeavesReply(aead: Aead, steps: seq<Step>, q: nat, c: Option<Reply>) {
    var t := After(aead, steps);
    t.Some? && q < |t.value.requests| && t.value.requests[q].channel == c
  }

  /** The run is possible, and request q has answered with r in it. */
  ghost predicate Writes(aead: Aead, steps: seq<Step>, q: nat, r: Reply) {
    var t := After(aead, steps);
    t.Some? && q < |t.value.requests| && t.value.requests[q].written == [r]
  }

  /** The request is in its select, and no reply is there yet. */
  predicate Awaiting(s: State, q: nat) {
    q < |s.requests| && s.requests[q].phase == Waiting && s.requests[q].channel.None?
  }

  /**
    After every run, a reply to a waiting, unanswered request whose handler is not disturbed reaches
    it if and only if the request's own AddEvent was the last step on its key; and then it is what
    the request writes.
   */
  lemma ReplyReachesWaiterIff(aead: Aead, steps: seq<Step>, h: nat, q: nat)
    requires After(aead, steps).Some? && Awaiting(After(aead, steps).value, q)
    requires h < |After(aead, steps).value.handlers| && After(aead, steps).value.handlers[h].Verified?
    requires Answers(After(aead, steps).value.handlers[h].reply, After(aead, steps).value.requests[q])
    ensures
      var s := After(aead, steps).value;
      var r, more := s.handlers[h].reply, steps + HandlerSteps(s, h);
      if exists i: nat :: LastTouch(s.requests, steps, q, i)
      then LeavesReply(aead, more, q, Some(r)) && Writes(aead, more + [TakeReply(q)], q, r)
      else LeavesReply(aead, more, q, None)
  {
    var s := After(aead, steps).value;
    var r, more := s.handlers[h].reply, steps + HandlerSteps(s, h);
    RunKeepsGood(aead, steps);
    RegisteredIff(aead, steps, q);
    assert GoodEntry(s, r.rr, OriginalId(r)) && GoodRequest(s, s.requests[q]);
    AfterSnoc(aead, steps, GetEvent(h));
    if Lookup(s, r.rr, OriginalId(r)).Some? {
      AfterSnoc(aead, steps + [GetEvent(h)], TrySend(h));
      assert more == steps + [GetEvent(h)] + [TrySend(h)];
    }
    if Registered(s, q) {
      AfterSnoc(aead, more, TakeReply(q));
    }
  }

  /**
    The whole exchange, undisturbed from there: a waiting request that is still registered gets the
    reply that carries the correlation id minted for it under a key that is still stored.
   */
  lemma MintedReplyComesBack(aead: Aead, steps: seq<Step>, q: nat, i: nat, key: Bytes, nonce: Bytes, idx: int)
    requires After(aead, steps).Some? && LastTouch(After(aead, steps).value.requests, steps, q, i)
    requires Awaiting(After(aead, steps).value, q)
    requires Stored(KeyOps(steps), After(aead, steps).value.requests[q].rr, key)
    requires Lawful(aead) && UsableKey(key) && |nonce| == NONCE_SIZE
    requires COLON !in After(aead, steps).value.requests[q].id
    ensures
      var s := After(aead, steps).value;
      var r := Reply(s.requests[q].rr, SetCorrelationId(aead, s.requests[q].id, key, nonce, idx).value, key);
      var h := |s.handlers|;
      var more := steps + [Verify(r)] + [GetEvent(h), TrySend(h)] + [TakeReply(q)];
      Writes(aead, more, q, r)
  {
    var s := After(aead, steps).value;
    var id := s.requests[q].id;
    var r := Reply(s.requests[q].rr, SetCorrelationId(aead, id, key, nonce, idx).value, key);
    KeyLogIsKeyOps(aead, steps);
    MintedVerifiesIff(aead, id, key, nonce, idx);
    PartsOfPrint(id, nonce + aead.seal(key, nonce, id), idx);
    AfterSnoc(aead, steps, Verify(r));
    RegisteredIff(aead, steps, q);
    RegisteredIff(aead, steps + [Verify(r)], q);
    ReplyReachesWaiterIff(aead, steps + [Verify(r)], |s.handlers|, q);
  }

  /** Two requests with one event id wait. */
  function DuplicateRun(rr: NamespacedName, id: Bytes): seq<Step> {
    [AddEvent(rr, id), AddEvent(rr, id)] + [Await(0)] + [Await(1)]
  }

  lemma BothWait(aead: Aead, rr: NamespacedName, id: Bytes)
    ensures
      var s, waiting := After(aead, DuplicateRun(rr, id)), Request(rr, id, Waiting, None, []);
      s.Some? && s.value.requests == [waiting, waiting]
  {
    var a, b := [AddEvent(rr, id)], [AddEvent(rr, id), AddEvent(rr, id)];
    AfterSnoc(aead, [], AddEvent(rr, id));
    assert [] + [AddEvent(rr, id)] == a && a + [AddEvent(rr, id)] == b;
    AfterSnoc(aead, a, AddEvent(rr, id));
    AfterSnoc(aead, b, Await(0));
    AfterSnoc(aead, b + [Await(0)], Await(1));
  }

  /** Then one times out and deletes the event: the other waits on, but no reply handler can find it any more. */
  lemma DuplicateIdLosesEntry(aead: Aead, rr: NamespacedName, id: Bytes)
    ensures
      var s := After(aead, DuplicateRun(rr, id) + [Timeout(0)] + [DeleteEvent(0)]);
      && s.Some? && |s.value.requests| == 2
      && s.value.requests[1] == Request(rr, id, Waiting, None, []) && Lookup(s.value, rr, id).None?
  {
    var run := DuplicateRun(rr, id);
    BothWait(aead, rr, id);
    AfterSnoc(aead, run, Timeout(0));
    AfterSnoc(aead, run + [Timeout(0)], DeleteEvent(0));
  }
}
