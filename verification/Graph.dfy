/**
  The lineage graph of pkg/graph: vertices with in- and out-edge lists, a vertex map, an index
  of edges by reference, and the Add* methods that build it in place.
 */
module LineageGraph {
  import opened Wrappers
  import opened Transforms

  datatype KReference = KReference(kind: string, namespace: string, name: string, apiVersion: string, group: string)

  datatype Destination = Destination(ref: Option<KReference>, uri: Option<string>)

  /** comparableDestination: the map key, where nil pointers have become zero values. */
  datatype DestKey = DestKey(ref: KReference, uri: string)

  function MakeComparable(d: Destination): DestKey {
    DestKey(if d.ref.Some? then d.ref.value else KReference("", "", "", "", ""),
            if d.uri.Some? then d.uri.value else "")
  }

  const ZERO_REF := KReference("", "", "", "", "")

  /** Equal, where nil stands for the zero value. */
  predicate SameDestination(a: Destination, b: Destination) {
    && (a.ref == b.ref || {a.ref, b.ref} == {None, Some(KReference("", "", "", "", ""))})
    && (a.uri == b.uri || {a.uri, b.uri} == {None, Some("")})
  }

  /** Two destinations share a key, and so a vertex, iff they are equal up to nil for the zero value. */
  lemma SameKeyIff(a: Destination, b: Destination)
    ensures MakeComparable(a) == MakeComparable(b) <==> SameDestination(a, b)
  {
    assert forall x: Option<KReference>, y: Option<KReference> | x != y ::
      {x, y} == {None, Some(ZERO_REF)} <==> (x == None && y == Some(ZERO_REF)) || (x == Some(ZERO_REF) && y == None);
  }

  lemma SameKeys()
    ensures forall a, b :: MakeComparable(a) == MakeComparable(b) <==> SameDestination(a, b)
  {
    forall a, b ensures MakeComparable(a) == MakeComparable(b) <==> SameDestination(a, b) {
      SameKeyIff(a, b);
    }
  }

  function RefDest(kind: string, namespace: string, name: string, apiVersion: string): Destination {
    Destination(Some(KReference(kind, namespace, name, apiVersion, "")), None)
  }

  class Edge {
    const transform: Transform
    const self: Destination
    const source: Vertex
    const target: Vertex
    const isDLS: bool

    constructor (source: Vertex, target: Vertex, self: Destination, transform: Transform, isDLS: bool)
      ensures this.source == source && this.target == target && this.self == self
      ensures this.transform == transform && this.isDLS == isDLS
    {
      this.source, this.target, this.self := source, target, self;
      this.transform, this.isDLS := transform, isDLS;
    }
  }

  // ---------- the three views of the history of edges ----------

  ghost function OutOf(log: seq<Edge>, v: Vertex): seq<Edge> {
    if log == [] then []
    else OutOf(log[..|log| - 1], v) + if log[|log| - 1].source == v then [log[|log| - 1]] else []
  }

  ghost function Into(log: seq<Edge>, v: Vertex): seq<Edge> {
    if log == [] then []
    else Into(log[..|log| - 1], v) + if log[|log| - 1].target == v then [log[|log| - 1]] else []
  }

  ghost function WithRef(log: seq<Edge>, k: DestKey): seq<Edge> {
    if log == [] then []
    else WithRef(log[..|log| - 1], k) + if MakeComparable(log[|log| - 1].self) == k then [log[|log| - 1]] else []
  }

  ghost predicate Distinct<T>(s: seq<T>) {
    s == [] || (s[|s| - 1] !in s[..|s| - 1] && Distinct(s[..|s| - 1]))
  }

  class Vertex {
    const self: Destination
    const parent: Graph?
    var inEdges: seq<Edge>
    var outEdges: seq<Edge>
    var visited: bool

    constructor (self: Destination, parent: Graph?)
      ensures this.self == self && this.parent == parent
      ensures inEdges == [] && outEdges == [] && !visited
    {
      this.self, this.parent := self, parent;
      inEdges, outEdges, visited := [], [], false;
    }

    /** Appends one edge to both ends and, inside a graph, to the index. */
    method AddEdge(target: Vertex, edgeRef: Destination, transform: Transform, isDLS: bool) returns (edge: Edge)
      modifies this`outEdges, target`inEdges
      modifies (if parent == null then {} else {parent})`edges, (if parent == null then {} else {parent})`log
      ensures fresh(edge) && edge.source == this && edge.target == target && edge.self == edgeRef
      ensures edge.transform == transform && edge.isDLS == isDLS
      ensures outEdges == old(outEdges) + [edge] && target.inEdges == old(target.inEdges) + [edge]
      ensures parent != null ==>
        var k := MakeComparable(edgeRef);
        var before := if k in old(parent.edges) then old(parent.edges)[k] else [];
        && parent.log == old(parent.log) + [edge]
        && parent.edges == old(parent.edges)[k := before + [edge]]
    {
      edge := new Edge(this, target, edgeRef, transform, isDLS);
      outEdges := outEdges + [edge];
      target.inEdges := target.inEdges + [edge];
      if parent == null {
        return;
      }
      var k := MakeComparable(edgeRef);
      if k !in parent.edges {
        parent.edges := parent.edges[k := []];
      }
      parent.edges := parent.edges[k := parent.edges[k] + [edge]];
      parent.log := parent.log + [edge];
    }
  }

  // ---------- resources ----------

  const EVENTING_V1 := "eventing.knative.dev/v1"
  const EVENTING_V1BETA3 := "eventing.knative.dev/v1beta3"
  const MESSAGING_V1 := "messaging.knative.dev/v1"

  datatype Delivery = Delivery(deadLetterSink: Option<Destination>)
  datatype Broker = Broker(name: string, namespace: string, delivery: Option<Delivery>)
  datatype Channel = Channel(kind: string, name: string, namespace: string, delivery: Option<Delivery>)
  datatype Source = Source(kind: string, apiVersion: string, name: string, namespace: string,
                           sink: Destination, overrides: map<string, string>)
  datatype Trigger = Trigger(name: string, namespace: string, broker: string, subscriber: Destination,
                             filter: Option<map<string, string>>, hasFilters: bool, delivery: Option<Delivery>)
  datatype Subscription = Subscription(name: string, namespace: string, apiVersion: string, channel: KReference,
                                       subscriber: Destination, reply: Option<Destination>, delivery: Option<Delivery>)
  datatype EventTypeResource = EventTypeResource(name: string, namespace: string, reference: KReference,
                                                 attributes: seq<AttributeDefinition>)

  function TransformForTrigger(t: Trigger): Transform {
    if !t.hasFilters && t.filter.Some? then AttributesFilterTransform(t.filter.value) else NoTransform
  }

  datatype Addition =
    | OfBroker(b: Broker) | OfChannel(c: Channel) | OfSource(src: Source)
    | OfTrigger(t: Trigger) | OfSubscription(s: Subscription) | OfEventType(et: EventTypeResource)

  function BrokerRef(b: Broker): Destination { RefDest("Broker", b.namespace, b.name, EVENTING_V1) }
  function ChannelRef(c: Channel): Destination {
    RefDest(if c.kind == "" then "Channel" else c.kind, c.namespace, c.name, MESSAGING_V1)
  }
  function SourceRef(s: Source): Destination { RefDest(s.kind, s.namespace, s.name, s.apiVersion) }
  function BrokerDest(t: Trigger): Destination { RefDest("Broker", t.namespace, t.broker, EVENTING_V1) }
  function TriggerDest(t: Trigger): Destination { RefDest("Trigger", t.namespace, t.name, EVENTING_V1) }
  function ChannelDest(s: Subscription): Destination {
    RefDest(s.channel.kind, s.namespace, s.channel.name, s.channel.apiVersion)
  }
  function SubscriptionDest(s: Subscription): Destination { RefDest("Subscription", s.namespace, s.name, s.apiVersion) }
  function EventTypeDest(t: EventTypeResource): Destination {
    RefDest("EventType", t.namespace, t.name, EVENTING_V1BETA3)
  }

  /** One edge to add: getOrCreateVertex for both ends, then AddEdge. */
  datatype LinkSpec = LinkSpec(source: Destination, target: Destination, ref: Destination, transform: Transform,
                               isDLS: bool)

  function DeadLetterLinks(source: Destination, ref: Destination, delivery: Option<Delivery>): seq<LinkSpec> {
    if delivery.Some? && delivery.value.deadLetterSink.Some?
    then [LinkSpec(source, delivery.value.deadLetterSink.value, ref, NoTransform, true)]
    else []
  }

  /** The edge of an event type to the resource it refers to. */
  function EventTypeLink(et: EventTypeResource): LinkSpec {
    LinkSpec(EventTypeDest(et), Destination(Some(et.reference), None), EventTypeDest(et),
             EventTypeTransform(et.attributes), false)
  }

  function SourceLink(s: Source): LinkSpec {
    LinkSpec(SourceRef(s), s.sink, SourceRef(s), CloudEventOverridesTransform(s.overrides), true)
  }

  function TriggerLinks(t: Trigger): seq<LinkSpec> {
    [LinkSpec(BrokerDest(t), t.subscriber, TriggerDest(t), TransformForTrigger(t), false)]
    + DeadLetterLinks(BrokerDest(t), TriggerDest(t), t.delivery)
  }

  function SubscriptionLinks(s: Subscription): seq<LinkSpec> {
    [LinkSpec(ChannelDest(s), s.subscriber, SubscriptionDest(s), NoTransform, false)]
    + (if s.reply.Some? then [LinkSpec(s.subscriber, s.reply.value, SubscriptionDest(s), NoTransform, false)] else [])
    + DeadLetterLinks(ChannelDest(s), SubscriptionDest(s), s.delivery)
  }

  /** The first edge with the key that is not a dead-letter edge. */
  ghost function Primary(log: seq<Edge>, k: DestKey): Option<Edge> {
    if log == [] then None
    else match Primary(log[..|log| - 1], k)
         case Some(e) => Some(e)
         case None =>
           var e := log[|log| - 1];
           if MakeComparable(e.self) == k && !e.isDLS then Some(e) else None
  }

  function Ends(l: LinkSpec): set<DestKey> { {MakeComparable(l.source), MakeComparable(l.target)} }

  ghost function AllEnds(links: seq<LinkSpec>): set<DestKey> {
    if links == [] then {} else AllEnds(links[..|links| - 1]) + Ends(links[|links| - 1])
  }

  /** Edge e is the one that l asks for, between the vertices under l's two keys. */
  ghost predicate Realises(vertices: map<DestKey, Vertex>, e: Edge, l: LinkSpec) {
    && MakeComparable(l.source) in vertices && e.source == vertices[MakeComparable(l.source)]
    && MakeComparable(l.target) in vertices && e.target == vertices[MakeComparable(l.target)]
    && e.self == l.ref && e.transform == l.transform && e.isDLS == l.isDLS
  }

  ghost predicate AllRealised(vertices: map<DestKey, Vertex>, es: seq<Edge>, links: seq<LinkSpec>) {
    |es| == |links| && forall i | 0 <= i < |es| :: Realises(vertices, es[i], links[i])
  }

  /** The edge joins the vertices of two destinations, and carries this reference, transform and flag. */
  ghost predicate Joins(e: Edge, source: Destination, target: Destination, ref: Destination, transform: Transform,
                        isDLS: bool) {
    && SameDestination(e.source.self, source) && SameDestination(e.target.self, target)
    && e.self == ref && e.transform == transform && e.isDLS == isDLS
  }

  /** A key is in the map iff some vertex stands for the destination. */
  lemma KnownIff(g: Graph, dest: Destination)
    requires g.Valid()
    ensures MakeComparable(dest) in g.vertices <==> exists v :: v in g.vertices.Values && SameDestination(v.self, dest)
  {
    SameKeys();
    var k := MakeComparable(dest);
    if k in g.vertices {
      assert g.vertices[k] in g.vertices.Values && SameDestination(g.vertices[k].self, dest);
    }
  }

  lemma RealisedJoins(g: Graph, n: nat, links: seq<LinkSpec>)
    requires g.Valid() && n + |links| == |g.log| && AllRealised(g.vertices, g.log[n..], links)
    ensures forall i | 0 <= i < |links| ::
      Joins(g.log[n + i], links[i].source, links[i].target, links[i].ref, links[i].transform, links[i].isDLS)
  {
    forall i | 0 <= i < |links|
      ensures Joins(g.log[n + i], links[i].source, links[i].target, links[i].ref, links[i].transform, links[i].isDLS)
    {
      var e, l := g.log[n..][i], links[i];
      assert Realises(g.vertices, e, l) && e == g.log[n + i];
      SameKeyIff(e.source.self, l.source);
      SameKeyIff(e.target.self, l.target);
    }
  }

  /** From edge n on: channel to subscriber, subscriber to reply, and channel to dead letter sink. */
  ghost predicate SubscriptionEdges(log: seq<Edge>, n: nat, s: Subscription) {
    var channelRef := KReference(s.channel.kind, s.namespace, s.channel.name, s.channel.apiVersion, "");
    var channel := Destination(Some(channelRef), None);
    var self := Destination(Some(KReference("Subscription", s.namespace, s.name, s.apiVersion, "")), None);
    var sink := if s.delivery.Some? then s.delivery.value.deadLetterSink else None;
    var m := n + 1 + if s.reply.Some? then 1 else 0;
    && |log| == m + (if sink.Some? then 1 else 0)
    && Joins(log[n], channel, s.subscriber, self, NoTransform, false)
    && (s.reply.Some? ==> Joins(log[n + 1], s.subscriber, s.reply.value, self, NoTransform, false))
    && (sink.Some? ==> Joins(log[m], channel, sink.value, self, NoTransform, true))
  }

  lemma SubscriptionJoins(g: Graph, n: nat, s: Subscription)
    requires g.Valid() && n + |SubscriptionLinks(s)| == |g.log|
    requires AllRealised(g.vertices, g.log[n..], SubscriptionLinks(s))
    ensures SubscriptionEdges(g.log, n, s)
  {
    var links := SubscriptionLinks(s);
    RealisedJoins(g, n, links);
    assert links[0].target == s.subscriber;
    assert s.reply.Some? ==> links[1] == LinkSpec(s.subscriber, s.reply.value, SubscriptionDest(s), NoTransform, false);
  }

  lemma DistinctSnoc<T>(s: seq<T>, x: T)
    requires Distinct(s) && x !in s
    ensures Distinct(s + [x])
  {
    assert (s + [x])[..|s|] == s;
  }

  /**
    From (vs0, log0) to (vs, log): no old vertex moved, no old edge left, exactly the links were
    added in order, and no vertex beyond their ends and extra.
   */
  ghost predicate Extended(vs0: map<DestKey, Vertex>, log0: seq<Edge>, vs: map<DestKey, Vertex>, log: seq<Edge>,
                           links: seq<LinkSpec>, extra: set<DestKey>) {
    && (forall k <- vs0 :: k in vs && vs[k] == vs0[k])
    && vs.Keys == vs0.Keys + AllEnds(links) + extra
    && log0 <= log && AllRealised(vs, log[|log0|..], links)
  }

  lemma ExtendedByOne(vs0: map<DestKey, Vertex>, log0: seq<Edge>, vs: map<DestKey, Vertex>, l: LinkSpec,
                      source: Vertex, target: Vertex, edge: Edge)
    requires vs == vs0[MakeComparable(l.source) := source][MakeComparable(l.target) := target]
    requires forall k <- vs0 :: vs[k] == vs0[k]
    requires MakeComparable(l.source) == MakeComparable(l.target) ==> source == target
    requires EdgeIs(edge, source, target, l.ref, l.transform, l.isDLS)
    ensures Extended(vs0, log0, vs, log0 + [edge], [l], {})
  {
    assert (log0 + [edge])[|log0|..] == [edge];
    assert AllEnds([l]) == Ends(l);
  }

  lemma ExtendedTwice(vs0: map<DestKey, Vertex>, log0: seq<Edge>, vs1: map<DestKey, Vertex>, log1: seq<Edge>,
                      vs2: map<DestKey, Vertex>, log2: seq<Edge>, links: seq<LinkSpec>)
    requires links != []
    requires Extended(vs0, log0, vs1, log1, links[..|links| - 1], {})
    requires Extended(vs1, log1, vs2, log2, [links[|links| - 1]], {})
    ensures Extended(vs0, log0, vs2, log2, links, {})
  {
    var n, l := |log0|, links[|links| - 1];
    var es := log2[n..];
    assert es == log1[n..] + log2[|log1|..];
    assert AllEnds([l]) == Ends(l);
    forall i | 0 <= i < |es| ensures Realises(vs2, es[i], links[i]) {
      if i < |links| - 1 {
        assert Realises(vs1, log1[n..][i], links[..|links| - 1][i]);
      } else {
        assert Realises(vs2, log2[|log1|..][0], [l][0]);
      }
    }
  }

  lemma ExtendedAfterCreate(vs0: map<DestKey, Vertex>, log0: seq<Edge>, vs1: map<DestKey, Vertex>,
                            vs2: map<DestKey, Vertex>, log2: seq<Edge>, links: seq<LinkSpec>, k: DestKey, v: Vertex)
    requires vs1 == vs0[k := v] && (k in vs0 ==> vs0[k] == v) && Extended(vs1, log0, vs2, log2, links, {})
    ensures Extended(vs0, log0, vs2, log2, links, {k})
  {
  }

  /** The index lists the edges of the log under their references, and has no empty entry. */
  ghost predicate Indexes(edges: map<DestKey, seq<Edge>>, log: seq<Edge>) {
    && (forall k :: WithRef(log, k) == if k in edges then edges[k] else [])
    && (forall k <- edges :: edges[k] != [])
  }

  lemma IndexGrows(edges: map<DestKey, seq<Edge>>, log: seq<Edge>, e: Edge)
    requires Indexes(edges, log)
    ensures
      var k := MakeComparable(e.self);
      Indexes(edges[k := (if k in edges then edges[k] else []) + [e]], log + [e])
  {
    Snoc(log, e);
  }

  /** No vertex moved, and no edge left. */
  ghost predicate Grown(vs0: map<DestKey, Vertex>, log0: seq<Edge>, vs: map<DestKey, Vertex>, log: seq<Edge>) {
    (forall k <- vs0 :: k in vs && vs[k] == vs0[k]) && log0 <= log
  }

  lemma GrownTwice(vs0: map<DestKey, Vertex>, log0: seq<Edge>, vs1: map<DestKey, Vertex>, log1: seq<Edge>,
                   vs2: map<DestKey, Vertex>, log2: seq<Edge>)
    requires Grown(vs0, log0, vs1, log1) && Grown(vs1, log1, vs2, log2)
    ensures Grown(vs0, log0, vs2, log2)
  {
  }

  ghost predicate EdgeIs(e: Edge, source: Vertex, target: Vertex, ref: Destination, transform: Transform, isDLS: bool) {
    e.source == source && e.target == target && e.self == ref && e.transform == transform && e.isDLS == isDLS
  }

  class Graph {
    var vertices: map<DestKey, Vertex>
    var edges: map<DestKey, seq<Edge>>
    /** Every edge ever added, in the order of the AddEdge calls. */
    ghost var log: seq<Edge>

    /** Well-formedness: every list in the graph is the matching view of the history. */
    ghost predicate Valid()
      reads this, vertices.Values`inEdges, vertices.Values`outEdges
    {
      && (forall k <- vertices :: MakeComparable(vertices[k].self) == k && vertices[k].parent == this)
      && Distinct(log)
      && (forall e {:trigger Inside(e)} | e in log :: Inside(e))
      && (forall v {:trigger InStep(v)} | v in vertices.Values :: InStep(v))
      && Indexes(edges, log)
    }

    ghost predicate Inside(e: Edge)
      reads this
    {
      e.source in vertices.Values && e.target in vertices.Values
    }

    ghost predicate InStep(v: Vertex)
      reads this, v`inEdges, v`outEdges
    {
      v.outEdges == OutOf(log, v) && v.inEdges == Into(log, v)
    }

    constructor ()
      ensures Valid() && vertices == map[] && edges == map[] && log == []
    {
      vertices, edges, log := map[], map[], [];
    }

    /** The well-formed graph after exactly these additions: see Extended. */
    twostate predicate Added(links: seq<LinkSpec>, extra: set<DestKey>)
      reads this, vertices.Values
    {
      && Valid() && fresh(vertices.Values - old(vertices.Values))
      && Extended(old(vertices), old(log), vertices, log, links, extra)
    }

    method GetOrCreateVertex(dest: Destination) returns (v: Vertex)
      requires Valid()
      modifies this`vertices
      ensures Valid() && fresh(vertices.Values - old(vertices.Values))
      ensures v in vertices.Values && vertices == old(vertices)[MakeComparable(dest) := v]
      ensures MakeComparable(dest) in old(vertices) ==> v == old(vertices)[MakeComparable(dest)]
      ensures MakeComparable(dest) in old(vertices) || (fresh(v) && v.self == dest && !v.visited)
      ensures SameDestination(v.self, dest)
      ensures forall other | !SameDestination(v.self, other) ::
        MakeComparable(other) in vertices ==> vertices[MakeComparable(other)] != v
    {
      SameKeys();
      var k := MakeComparable(dest);
      if k in vertices {
        v := vertices[k];
      } else {
        v := CreateVertex(dest);
      }
    }

    method CreateVertex(dest: Destination) returns (v: Vertex)
      requires Valid() && MakeComparable(dest) !in vertices
      modifies this`vertices
      ensures Valid() && vertices.Values == old(vertices.Values) + {v}
      ensures v in vertices.Values && vertices == old(vertices)[MakeComparable(dest) := v]
      ensures fresh(v) && v.self == dest && !v.visited
    {
      assert forall e <- log :: Inside(e);
      assert forall u <- vertices.Values :: InStep(u);
      v := new Vertex(dest, this);
      NoEdges(log, v);
      vertices := vertices[MakeComparable(dest) := v];
      ValuesInsert(old(vertices), MakeComparable(dest), v);
    }

    /** AddEdge between two vertices of the graph keeps every view in step. */
    method Link(source: Vertex, target: Vertex, edgeRef: Destination, transform: Transform, isDLS: bool)
        returns (edge: Edge)
      requires Valid() && source in vertices.Values && target in vertices.Values
      modifies this`edges, this`log, vertices.Values`inEdges, vertices.Values`outEdges
      ensures Valid() && vertices == old(vertices) && log == old(log) + [edge]
      ensures EdgeIs(edge, source, target, edgeRef, transform, isDLS)
    {
      edge := source.AddEdge(target, edgeRef, transform, isDLS);
      IndexGrows(old(edges), old(log), edge);
      Snoc(old(log), edge);
      forall u | u in vertices.Values ensures InStep(u) {
        assert old(InStep(u));
      }
      forall e | e in log ensures Inside(e) {
        assert e != edge ==> e in old(log) && old(Inside(e));
      }
      DistinctSnoc(old(log), edge);
    }

    method GetOrCreateEnds(l: LinkSpec) returns (source: Vertex, target: Vertex)
      requires Valid()
      modifies this`vertices
      ensures Valid() && fresh(vertices.Values - old(vertices.Values))
      ensures source in vertices.Values && target in vertices.Values
      ensures vertices == old(vertices)[MakeComparable(l.source) := source][MakeComparable(l.target) := target]
      ensures forall k <- old(vertices) :: vertices[k] == old(vertices)[k]
      ensures MakeComparable(l.source) == MakeComparable(l.target) ==> source == target
    {
      source := GetOrCreateVertex(l.source);
      target := GetOrCreateVertex(l.target);
      assert MakeComparable(l.source) in vertices && vertices[MakeComparable(l.source)] == source;
    }

    method LinkDests(l: LinkSpec)
      requires Valid()
      modifies this, vertices.Values`inEdges, vertices.Values`outEdges
      ensures Added([l], {})
    {
      var source, target := GetOrCreateEnds(l);
      var edge := Link(source, target, l.ref, l.transform, l.isDLS);
      ExtendedByOne(old(vertices), old(log), vertices, l, source, target, edge);
    }

    method LinkAll(links: seq<LinkSpec>)
      requires Valid()
      modifies this, vertices.Values`inEdges, vertices.Values`outEdges
      ensures Added(links, {})
      decreases |links|
    {
      if links == [] {
        return;
      }
      LinkAll(links[..|links| - 1]);
      ghost var vs, before := vertices, log;
      LinkDests(links[|links| - 1]);
      ExtendedTwice(old(vertices), old(log), vs, before, vertices, log, links);
    }

    method AddBroker(b: Broker)
      requires Valid()
      modifies this, vertices.Values`inEdges, vertices.Values`outEdges
      ensures Added(DeadLetterLinks(BrokerRef(b), BrokerRef(b), b.delivery), {MakeComparable(BrokerRef(b))})
      ensures
        var self := Destination(Some(KReference("Broker", b.namespace, b.name, "eventing.knative.dev/v1", "")), None);
        var sink := if b.delivery.Some? then b.delivery.value.deadLetterSink else None;
        var n := |old(log)|;
        && (exists v :: v in vertices.Values && SameDestination(v.self, self))
        && |log| == n + (if sink.Some? then 1 else 0)
        && (sink.Some? ==> Joins(log[n], self, sink.value, self, NoTransform, true))
    {
      var v := GetOrCreateVertex(BrokerRef(b));
      ghost var vs := vertices;
      LinkAll(DeadLetterLinks(BrokerRef(b), BrokerRef(b), b.delivery));
      ExtendedAfterCreate(old(vertices), old(log), vs, vertices, log,
                          DeadLetterLinks(BrokerRef(b), BrokerRef(b), b.delivery), MakeComparable(BrokerRef(b)), v);
      RealisedJoins(this, |old(log)|, DeadLetterLinks(BrokerRef(b), BrokerRef(b), b.delivery));
    }

    method AddChannel(c: Channel)
      requires Valid()
      modifies this, vertices.Values`inEdges, vertices.Values`outEdges
      ensures Added(DeadLetterLinks(ChannelRef(c), ChannelRef(c), c.delivery), {MakeComparable(ChannelRef(c))})
      ensures
        var kind := if c.kind == "" then "Channel" else c.kind;
        var self := Destination(Some(KReference(kind, c.namespace, c.name, "messaging.knative.dev/v1", "")), None);
        var sink := if c.delivery.Some? then c.delivery.value.deadLetterSink else None;
        var n := |old(log)|;
        && (exists v :: v in vertices.Values && SameDestination(v.self, self))
        && |log| == n + (if sink.Some? then 1 else 0)
        && (sink.Some? ==> Joins(log[n], self, sink.value, self, NoTransform, true))
    {
      var v := GetOrCreateVertex(ChannelRef(c));
      ghost var vs := vertices;
      LinkAll(DeadLetterLinks(ChannelRef(c), ChannelRef(c), c.delivery));
      ExtendedAfterCreate(old(vertices), old(log), vs, vertices, log,
                          DeadLetterLinks(ChannelRef(c), ChannelRef(c), c.delivery), MakeComparable(ChannelRef(c)), v);
      RealisedJoins(this, |old(log)|, DeadLetterLinks(ChannelRef(c), ChannelRef(c), c.delivery));
    }

    /** The source's edge carries isDLS = true, so no primary lookup ever finds it. */
    method AddSource(s: Source)
      requires Valid()
      modifies this, vertices.Values`inEdges, vertices.Values`outEdges
      ensures Added([SourceLink(s)], {})
      ensures
        var self := Destination(Some(KReference(s.kind, s.namespace, s.name, s.apiVersion, "")), None);
        var n := |old(log)|;
        |log| == n + 1 && Joins(log[n], self, s.sink, self, CloudEventOverridesTransform(s.overrides), true)
    {
      LinkAll([SourceLink(s)]);
      RealisedJoins(this, |old(log)|, [SourceLink(s)]);
    }

    /** A trigger of a known broker becomes a broker-to-subscriber edge; one of an unknown broker is an error. */
    method AddTrigger(t: Trigger) returns (ok: bool)
      requires Valid()
      modifies this, vertices.Values`inEdges, vertices.Values`outEdges
      ensures ok <==> MakeComparable(BrokerDest(t)) in old(vertices)
      ensures
        var brokerRef := KReference("Broker", t.namespace, t.broker, "eventing.knative.dev/v1", "");
        var broker := Destination(Some(brokerRef), None);
        ok <==> exists v :: v in old(vertices.Values) && SameDestination(v.self, broker)
      ensures Added(if ok then TriggerLinks(t) else [], {})
      ensures ok ==>
        var brokerRef := KReference("Broker", t.namespace, t.broker, "eventing.knative.dev/v1", "");
        var broker := Destination(Some(brokerRef), None);
        var self := Destination(Some(KReference("Trigger", t.namespace, t.name, "eventing.knative.dev/v1", "")), None);
        var transform :=
          if t.hasFilters || t.filter.None? then NoTransform else AttributesFilterTransform(t.filter.value);
        var sink := if t.delivery.Some? then t.delivery.value.deadLetterSink else None;
        var n := |old(log)|;
        && |log| == n + 1 + (if sink.Some? then 1 else 0)
        && Joins(log[n], broker, t.subscriber, self, transform, false)
        && (sink.Some? ==> Joins(log[n + 1], broker, sink.value, self, NoTransform, true))
    {
      KnownIff(this, BrokerDest(t));
      ok := MakeComparable(BrokerDest(t)) in vertices;
      LinkAll(if ok then TriggerLinks(t) else []);
      RealisedJoins(this, |old(log)|, if ok then TriggerLinks(t) else []);
    }

    method AddSubscription(s: Subscription) returns (ok: bool)
      requires Valid()
      modifies this, vertices.Values`inEdges, vertices.Values`outEdges
      ensures ok <==> MakeComparable(ChannelDest(s)) in old(vertices)
      ensures
        var channel := KReference(s.channel.kind, s.namespace, s.channel.name, s.channel.apiVersion, "");
        ok <==> exists v :: v in old(vertices.Values) && SameDestination(v.self, Destination(Some(channel), None))
      ensures Added(if ok then SubscriptionLinks(s) else [], {})
      ensures ok ==> SubscriptionEdges(log, |old(log)|, s)
    {
      KnownIff(this, ChannelDest(s));
      ok := MakeComparable(ChannelDest(s)) in vertices;
      LinkAll(if ok then SubscriptionLinks(s) else []);
      if ok {
        SubscriptionJoins(this, |old(log)|, s);
      }
    }

    /** An event type of a trigger or subscription is an edge back along that resource's primary edge. */
    method AddEventType(et: EventTypeResource) returns (ok: bool)
      requires Valid()
      modifies this, vertices.Values`inEdges, vertices.Values`outEdges
      ensures
        var on := Destination(Some(et.reference), None);
        var primary := Primary(old(log), MakeComparable(on));
        if et.reference.kind in {"Subscription", "Trigger"} then
          && (ok <==> primary.Some?) && Valid() && vertices == old(vertices)
          && (!ok ==> log == old(log))
          && (ok ==>
                && |log| == |old(log)| + 1 && old(log) <= log
                && EdgeIs(log[|old(log)|], primary.value.target, primary.value.source,
                          EventTypeDest(et), EventTypeTransform(et.attributes), false))
        else
          ok && Added([EventTypeLink(et)], {})
      ensures ok ==>
        var selfRef := KReference("EventType", et.namespace, et.name, "eventing.knative.dev/v1beta3", "");
        var self := Destination(Some(selfRef), None);
        var n := |old(log)|;
        && |log| == n + 1 && log[n].self == self
        && log[n].transform == EventTypeTransform(et.attributes) && !log[n].isDLS
        && (et.reference.kind in {"Subscription", "Trigger"} ||
            Joins(log[n], self, Destination(Some(et.reference), None), self, EventTypeTransform(et.attributes), false))
    {
      var on := Destination(Some(et.reference), None);
      if et.reference.kind == "Subscription" || et.reference.kind == "Trigger" {
        var outEdge := GetPrimaryOutEdgeWithRef(et.reference);
        if outEdge == null {
          return false;
        }
        PrimaryInLog(log, MakeComparable(on));
        assert Inside(outEdge);
        var _ := Link(outEdge.target, outEdge.source, EventTypeDest(et), EventTypeTransform(et.attributes), false);
        return true;
      }
      LinkAll([EventTypeLink(et)]);
      RealisedJoins(this, |old(log)|, [EventTypeLink(et)]);
      ok := true;
    }

    /** Looking a trigger up right after adding it finds its broker-to-subscriber edge. */
    method AddTriggerAndLookUp(t: Trigger) returns (ok: bool, edge: Edge?)
      requires Valid() && Primary(log, MakeComparable(TriggerDest(t))).None?
      modifies this, vertices.Values`inEdges, vertices.Values`outEdges
      ensures Added(if ok then TriggerLinks(t) else [], {})
      ensures ok ==> edge != null && !edge.isDLS && Realises(vertices, edge, TriggerLinks(t)[0])
    {
      ok := AddTrigger(t);
      edge := GetPrimaryOutEdgeWithRef(TriggerDest(t).ref.value);
      if ok {
        FirstLinkIsPrimary(old(vertices), old(log), vertices, log, TriggerLinks(t));
      }
    }

    /** Likewise a subscription's channel-to-subscriber edge, although its reply edge is not dead-letter either. */
    method AddSubscriptionAndLookUp(s: Subscription) returns (ok: bool, edge: Edge?)
      requires Valid() && Primary(log, MakeComparable(SubscriptionDest(s))).None?
      modifies this, vertices.Values`inEdges, vertices.Values`outEdges
      ensures Added(if ok then SubscriptionLinks(s) else [], {})
      ensures ok ==> edge != null && !edge.isDLS && Realises(vertices, edge, SubscriptionLinks(s)[0])
    {
      ok := AddSubscription(s);
      edge := GetPrimaryOutEdgeWithRef(SubscriptionDest(s).ref.value);
      if ok {
        FirstLinkIsPrimary(old(vertices), old(log), vertices, log, SubscriptionLinks(s));
      }
    }

    method GetPrimaryOutEdgeWithRef(edgeRef: KReference) returns (edge: Edge?)
      requires Valid()
      ensures var p := Primary(log, MakeComparable(Destination(Some(edgeRef), None)));
        if edge == null then p.None? else p == Some(edge)
    {
      var k := MakeComparable(Destination(Some(edgeRef), None));
      PrimaryOfView(log, k);
      edge := null;
      if k in edges {
        edge := FirstNotDeadLetter(edges[k]);
      }
    }

    /** Any run of additions, in any order and whether or not each succeeds, keeps the graph well formed. */
    method Run(ops: seq<Addition>)
      requires Valid()
      modifies this, vertices.Values`inEdges, vertices.Values`outEdges
      ensures Valid() && fresh(vertices.Values - old(vertices.Values))
      ensures Grown(old(vertices), old(log), vertices, log)
    {
      for i := 0 to |ops|
        invariant Valid() && fresh(vertices.Values - old(vertices.Values))
        invariant Grown(old(vertices), old(log), vertices, log)
      {
        ghost var vs, before := vertices, log;
        AddOne(ops[i]);
        GrownTwice(old(vertices), old(log), vs, before, vertices, log);
      }
    }

    method AddOne(op: Addition)
      requires Valid()
      modifies this, vertices.Values`inEdges, vertices.Values`outEdges
      ensures Valid() && fresh(vertices.Values - old(vertices.Values))
      ensures Grown(old(vertices), old(log), vertices, log)
    {
      match op
      case OfBroker(b) => AddBroker(b);
      case OfChannel(c) => AddChannel(c);
      case OfSource(s) => AddSource(s);
      case OfTrigger(t) => var _ := AddTrigger(t);
      case OfSubscription(s) => var _ := AddSubscription(s);
      case OfEventType(et) => var _ := AddEventType(et);
    }

    /** Graph.Vertices: the vertices, each once, in whatever order the map is walked. */
    method Vertices() returns (vs: seq<Vertex>)
      requires Valid()
      ensures Enumerates(vs, vertices.Values)
    {
      vs := [];
      var todo := vertices.Keys;
      while todo != {}
        invariant todo <= vertices.Keys
        invariant Enumerates(vs, set k | k in vertices && k !in todo :: vertices[k])
      {
        var k :| k in todo;
        ghost var was := set j | j in vertices && j !in todo :: vertices[j];
        assert vertices[k] !in was;
        todo := todo - {k};
        vs := vs + [vertices[k]];
        assert (set j | j in vertices && j !in todo :: vertices[j]) == was + {vertices[k]};
      }
    }

    /** The vertices with out-edges and no in-edges. */
    ghost function SourceSet(): set<Vertex>
      reads this, vertices.Values`inEdges, vertices.Values`outEdges
    {
      set v | v in vertices.Values && |v.inEdges| == 0 && |v.outEdges| >= 1
    }

    /** Graph.Sources: exactly the vertices with out-edges and no in-edges, each once. */
    method Sources() returns (sources: seq<Vertex>)
      requires Valid()
      ensures Enumerates(sources, SourceSet())
    {
      var vs := Vertices();
      sources := [];
      for i := 0 to |vs|
        invariant forall j, k | 0 <= j < k < |sources| :: sources[j] != sources[k]
        invariant forall v <- sources :: v in vs[..i] && |v.inEdges| == 0 && |v.outEdges| >= 1
        invariant forall v <- vs[..i] :: |v.inEdges| == 0 && |v.outEdges| >= 1 ==> v in sources
      {
        assert vs[..i + 1] == vs[..i] + [vs[i]];
        assert vs[i] !in vs[..i];
        if |vs[i].inEdges| == 0 && |vs[i].outEdges| >= 1 {
          sources := sources + [vs[i]];
        }
      }
      assert vs[..|vs|] == vs;
    }
  }

  lemma ValuesInsert<K, V>(m: map<K, V>, k: K, v: V)
    requires k !in m
    ensures m[k := v].Values == m.Values + {v}
  {
    var n := m[k := v];
    assert v in n.Values by { assert k in n && n[k] == v; }
    forall u | u in m.Values ensures u in n.Values {
      var j :| j in m && m[j] == u;
      assert j in n && n[j] == u;
    }
  }

  lemma {:induction false} NoEdges(log: seq<Edge>, v: Vertex)
    requires forall e <- log :: e.source != v && e.target != v
    ensures OutOf(log, v) == [] && Into(log, v) == []
  {
    if log != [] {
      NoEdges(log[..|log| - 1], v);
    }
  }

  lemma Snoc(log: seq<Edge>, e: Edge)
    ensures forall v :: OutOf(log + [e], v) == OutOf(log, v) + if e.source == v then [e] else []
    ensures forall v :: Into(log + [e], v) == Into(log, v) + if e.target == v then [e] else []
    ensures forall k :: WithRef(log + [e], k) == WithRef(log, k) + if MakeComparable(e.self) == k then [e] else []
  {
    assert (log + [e])[..|log|] == log;
  }

  ghost predicate Enumerates(vs: seq<Vertex>, s: set<Vertex>) {
    && (forall i, j | 0 <= i < j < |vs| :: vs[i] != vs[j])
    && (forall v <- vs :: v in s) && (forall v <- s :: v in vs)
  }

  ghost function FirstNonDLS(es: seq<Edge>): Option<Edge> {
    if es == [] then None
    else match FirstNonDLS(es[..|es| - 1])
         case Some(e) => Some(e)
         case None => if es[|es| - 1].isDLS then None else Some(es[|es| - 1])
  }

  lemma {:induction false} FirstNonDLSPrefix(es: seq<Edge>, i: nat)
    requires i <= |es| && FirstNonDLS(es[..i]).Some?
    ensures FirstNonDLS(es) == FirstNonDLS(es[..i])
  {
    if i < |es| {
      assert es[..|es| - 1][..i] == es[..i];
      FirstNonDLSPrefix(es[..|es| - 1], i);
    } else {
      assert es[..i] == es;
    }
  }

  /** The loop of GetPrimaryOutEdgeWithRef. */
  method FirstNotDeadLetter(es: seq<Edge>) returns (edge: Edge?)
    ensures if edge == null then FirstNonDLS(es).None? else FirstNonDLS(es) == Some(edge)
  {
    for i := 0 to |es|
      invariant FirstNonDLS(es[..i]).None?
    {
      assert es[..i + 1][..i] == es[..i];
      if !es[i].isDLS {
        FirstNonDLSPrefix(es, i + 1);
        return es[i];
      }
    }
    assert es[..|es|] == es;
    edge := null;
  }

  /** The index under a reference holds enough to find the primary edge of the whole graph. */
  lemma {:induction false} PrimaryOfView(log: seq<Edge>, k: DestKey)
    ensures Primary(log, k) == FirstNonDLS(WithRef(log, k))
  {
    if log != [] {
      var front, e := log[..|log| - 1], log[|log| - 1];
      PrimaryOfView(front, k);
      if MakeComparable(e.self) == k {
        assert WithRef(log, k)[..|WithRef(front, k)|] == WithRef(front, k);
      } else {
        assert WithRef(log, k) == WithRef(front, k);
      }
    }
  }

  lemma {:induction false} PrimaryInLog(log: seq<Edge>, k: DestKey)
    ensures Primary(log, k).Some? ==> Primary(log, k).value in log
  {
    if log != [] {
      PrimaryInLog(log[..|log| - 1], k);
    }
  }

  /** Edge n is primary for its reference when no earlier edge was, whatever is added later. */
  lemma {:induction false} PrimaryAdded(log: seq<Edge>, n: nat, k: DestKey)
    requires n < |log| && MakeComparable(log[n].self) == k && !log[n].isDLS
    ensures Primary(log[..n], k).None? ==> Primary(log, k) == Some(log[n])
  {
    if n + 1 < |log| {
      assert log[..|log| - 1][..n] == log[..n];
      PrimaryAdded(log[..|log| - 1], n, k);
    }
  }

  /** The first link added under a reference that had no primary edge yet gives that edge. */
  lemma FirstLinkIsPrimary(vs0: map<DestKey, Vertex>, log0: seq<Edge>, vs: map<DestKey, Vertex>, log: seq<Edge>,
                           links: seq<LinkSpec>)
    requires Extended(vs0, log0, vs, log, links, {}) && links != [] && !links[0].isDLS
    requires Primary(log0, MakeComparable(links[0].ref)).None?
    ensures
      var p := Primary(log, MakeComparable(links[0].ref));
      p.Some? && !p.value.isDLS && Realises(vs, p.value, links[0])
  {
    var n := |log0|;
    assert log[n] == log[n..][0] && log[..n] == log0;
    PrimaryAdded(log, n, MakeComparable(links[0].ref));
  }

  // ---------- degrees ----------

  ghost function OutDegrees(vs: seq<Vertex>): nat
    reads vs
  {
    if vs == [] then 0 else |vs[0].outEdges| + OutDegrees(vs[1..])
  }

  ghost function InDegrees(vs: seq<Vertex>): nat
    reads vs
  {
    if vs == [] then 0 else |vs[0].inEdges| + InDegrees(vs[1..])
  }

  ghost function TotalOut(vs: seq<Vertex>, log: seq<Edge>): nat {
    if vs == [] then 0 else |OutOf(log, vs[0])| + TotalOut(vs[1..], log)
  }

  ghost function TotalIn(vs: seq<Vertex>, log: seq<Edge>): nat {
    if vs == [] then 0 else |Into(log, vs[0])| + TotalIn(vs[1..], log)
  }

  lemma HeadOrTail(vs: seq<Vertex>, v: Vertex)
    requires vs != [] && forall i, j | 0 <= i < j < |vs| :: vs[i] != vs[j]
    ensures v in vs <==> v == vs[0] || v in vs[1..]
    ensures v == vs[0] ==> v !in vs[1..]
  {
    assert vs == [vs[0]] + vs[1..];
  }

  /** The last edge counts once in each total. */
  lemma {:induction false} TotalsStep(vs: seq<Vertex>, log: seq<Edge>)
    requires log != [] && forall i, j | 0 <= i < j < |vs| :: vs[i] != vs[j]
    ensures
      var front, e := log[..|log| - 1], log[|log| - 1];
      && TotalOut(vs, log) == TotalOut(vs, front) + (if e.source in vs then 1 else 0)
      && TotalIn(vs, log) == TotalIn(vs, front) + (if e.target in vs then 1 else 0)
  {
    if vs != [] {
      var front, e := log[..|log| - 1], log[|log| - 1];
      TotalsStep(vs[1..], log);
      HeadOrTail(vs, e.source);
      HeadOrTail(vs, e.target);
      assert |OutOf(log, vs[0])| == |OutOf(front, vs[0])| + if e.source == vs[0] then 1 else 0;
      assert |Into(log, vs[0])| == |Into(front, vs[0])| + if e.target == vs[0] then 1 else 0;
    }
  }

  lemma {:induction false} TotalsEmpty(vs: seq<Vertex>)
    ensures TotalOut(vs, []) == 0 && TotalIn(vs, []) == 0
  {
    if vs != [] {
      TotalsEmpty(vs[1..]);
    }
  }

  lemma {:induction false} TotalsAreEdges(vs: seq<Vertex>, log: seq<Edge>)
    requires forall i, j | 0 <= i < j < |vs| :: vs[i] != vs[j]
    requires forall i | 0 <= i < |log| :: log[i].source in vs && log[i].target in vs
    ensures TotalOut(vs, log) == |log| == TotalIn(vs, log)
  {
    if log == [] {
      TotalsEmpty(vs);
    } else {
      TotalsAreEdges(vs, log[..|log| - 1]);
      TotalsStep(vs, log);
    }
  }

  lemma {:induction false} DegreesAreTotals(g: Graph, vs: seq<Vertex>)
    requires g.Valid() && forall v <- vs :: v in g.vertices.Values
    ensures OutDegrees(vs) == TotalOut(vs, g.log) && InDegrees(vs) == TotalIn(vs, g.log)
  {
    if vs != [] {
      assert g.InStep(vs[0]);
      DegreesAreTotals(g, vs[1..]);
    }
  }

  /** In a well-formed graph, out-degrees and in-degrees both add up to the number of edges. */
  lemma DegreesBalance(g: Graph, vs: seq<Vertex>)
    requires g.Valid() && Enumerates(vs, g.vertices.Values)
    ensures OutDegrees(vs) == |g.log| == InDegrees(vs)
  {
    DegreesAreTotals(g, vs);
    forall i | 0 <= i < |g.log| ensures g.log[i].source in vs && g.log[i].target in vs {
      assert g.log[i] in g.log && g.Inside(g.log[i]);
    }
    TotalsAreEdges(vs, g.log);
  }

  /** An edge sits in its source's out-list and its target's in-list, and in no other list. */
  lemma {:induction false} ViewMembers(log: seq<Edge>, e: Edge)
    ensures forall v :: e in OutOf(log, v) <==> e in log && e.source == v
    ensures forall v :: e in Into(log, v) <==> e in log && e.target == v
    ensures forall k :: e in WithRef(log, k) <==> e in log && MakeComparable(e.self) == k
  {
    if log != [] {
      ViewMembers(log[..|log| - 1], e);
      assert log == log[..|log| - 1] + [log[|log| - 1]];
    }
  }

  /** The lists have no repeated edge when the history has none. */
  lemma {:induction false} OutOfDistinct(log: seq<Edge>, v: Vertex)
    requires Distinct(log)
    ensures Distinct(OutOf(log, v))
  {
    if log != [] {
      OutOfDistinct(log[..|log| - 1], v);
      ViewMembers(log[..|log| - 1], log[|log| - 1]);
      if log[|log| - 1].source == v {
        assert OutOf(log, v)[..|OutOf(log, v)| - 1] == OutOf(log[..|log| - 1], v);
      } else {
        assert OutOf(log, v) == OutOf(log[..|log| - 1], v);
      }
    }
  }
}
