# Knative Eventing, modelled and proved

Knative Eventing routes CloudEvents between producers and consumers on Kubernetes. This project
models the parts of it that have state, branching or arithmetic of their own, and proves what they
are for:

- **Lineage graph** (`Graph.dfy`, `Lineage.dfy`, `Transforms.dfy`, `Templates.dfy`): the mutable graph
  of brokers, channels, sources, triggers and subscriptions, the search that walks all its simple
  paths, and the transforms on its edges, two of which write into the EventType they are given.
- **Subscription filters** (`Filters.dfy`, `FilterMeaning.dfy`, `FilterOptimizer.dfy`): the compiler from filter specs to
  runnable filters (section 3.2.4 of the CNCF CloudEvents Subscriptions API), and the All and Any
  nodes that reorder themselves while events are evaluated.
- **Broker loop** (`BrokerTtl.dfy`): time-to-live stamping at ingress, stripping and reattaching it at
  the filter, and the bound on what a run of replies to replies can cause.
- **Delivery** (`Dispatch.dfy`, `Fanout.dfy`): destination, reply and dead letter sink of one send, and
  the concurrent fan-out of a channel.
- **RequestReply** (`RequestReply.dfy`, `CorrelationId.dfy`, `KeyStore.dfy`, with `Text.dfy` and
  `Base64.dfy`): the table of waiting requests, signed correlation ids, key rotation, pod routing.
- **Retries** (`Retries.dfy`), **event policies** (`EventPolicies.dfy`), the **auth proxy's cache**
  (`AuthCache.dfy`, `AuthProxy.dfy`) and the **JobSink location header** (`JobLocation.dfy`).

Go maps are walked in an arbitrary order, lock-protected regions are atomic steps, and a value that
Go wraps at 32 or 64 bits is wrapped here too. Objects that the program updates in place are classes
(graph, vertices, EventTypes, filter nodes, events, key stores, the table of waiting requests, the
auth cache); handlers and goroutines that run together are transition systems over the same
specification functions, and the theorems about them are for every run.

`dafny verify dfyconfig.toml` checks the whole project.

## Where the code and what is said of it differ

Each has a lemma with the exact condition or a concrete input.

- `TTLDefaulter` promises to keep a TTL at or below 0 at 0; the smallest int32 wraps to the largest
  (`BrokerTtl.StampAsDocumentedIff`).
- An empty filter object is documented to accept every event, and admission lets it in; the compiler
  drops it. Inside `all` that changes nothing, but `any: [{}, x]` then refuses what x refuses
  (`FilterMeaning.EmptyInAny`), and `not: {}`, which should accept nothing, lets everything through
  (`FilterMeaning.EmptyInNot`), or makes an enclosing `any` depend on the current order
  (`FilterMeaning.EmptyNotIsOrderDependent`, and a run of the optimiser that changes the answer in
  `FilterOptimizer.ReorderedAnswers`). For every spec and every trigger
  `FilterMeaning.MaterializedMeaning` and `FilterMeaning.TriggerFilterMeaning` say exactly when the
  filter refuses what the documented meaning refuses, from what the parts may answer
  (`FilterMeaning.AnswersAreOutcomes`); where the parts are clean or dropped these conditions are
  guards on the parts' meanings. An attribute with an empty value is
  admitted and dropped in the same way.
- A spec with several dialects would be compiled to the first alone (`FilterMeaning.FirstDialectIff`
  says when that matters); admission refuses such a spec (`FilterMeaning.HasMultipleDialects`).
- The literal text of an attribute template is not escaped, so '.' matches any character
  (`Templates.ExactIffNoDot`).
- An attributes filter that refuses an EventType may have written some of its values already, by the
  order of its map: `Transforms.RefusalWrites` shows it, `Transforms.RefusalLeavesIff` says what can be
  left and `Transforms.RefusalUnchangedIff` when nothing is. Sibling edges of the lineage search share
  the EventType (`Transforms.SiblingSeesNarrowing`, `Lineage.BranchIffPassable`).
- The two directions of event policy matching, documented as inverses, give different results for a
  policy and a resource of its namespace exactly if the lookup by resource ends without an error and
  the policy has a malformed target (`EventPolicies.MalformedIsMissed`), or its `to` is empty but not
  nil, or a reference matches the resource in another case only and no target names it exactly or
  selects it (`EventPolicies.OtherCaseIsOverlooked`); `EventPolicies.InverseIff` is the iff. A policy
  update misses a resource for the same reasons (`EventPolicies.AffectedIsEnqueued`).
- The auth proxy looks its parent up without labels. It finds what a lookup of the labelled parent
  would find exactly if both end in an error, or neither does and no selector decides for a policy
  (`AuthProxy.ProxyPoliciesIff`; `AuthProxy.SelectedParentIsMissed` and `AuthProxy.ErrorIsNotSeen` are
  inputs for the two ways to differ).
- `deleteEvent` removes by event id, so of two waiting requests with one id the first to leave
  unregisters the other (`RequestReply.DuplicateIdLosesEntry`, a run from the start). A reply finds a
  request exactly if the request's own AddEvent was the last step on its id
  (`RequestReply.RegisteredIff`, `RequestReply.GetEventFindsIff`), which holds while the request is not
  gone if ids are distinct (`RequestReply.DistinctRegisteredIff`).
- A request that fails before it waits is never unregistered (`RequestReply.GiveUpLeavesEntry`); with
  distinct ids the table drains exactly if none did (`RequestReply.DrainedIff`).
- An event id with ':' gives a correlation id that never verifies (`CorrelationId.MintedVerifiesIff`).
- The newest key of a RequestReply stays in use for signing after it has been removed
  (`KeyStore.LatestStoredIffNotRemoved`, `KeyStore.RemovedKeyStillSigns`).
- A Retry-After above 9223372036 seconds wraps (`Retries.SecondsHonoured`,
  `Retries.WrappedRetryAfterIgnored`).
- A job location with an empty id is not parsed back (`JobLocation.LocationRoundTripIff`).

## Model

| member | source | states |
|---|---|---|
| `Templates.ParseSound` | pkg/graph/transforms.go:98-134 | a template that is accepted is read as tokens with balanced braces whose text is the template |
| `Templates.ParseComplete` | pkg/graph/transforms.go:98-134 | every balanced template is read back as exactly its tokens, escaped braces and variables included |
| `Templates.ErrorIffUnbalanced` | pkg/graph/transforms.go:98-134 | an error comes exactly for texts that no balanced template has |
| `Templates.ReadToken` | pkg/graph/transforms.go:102-129 | the cases of the loop at one position give the token the grammar has there, or the error |
| `Templates.ReadExamples` | pkg/graph/transforms.go:102-129 | a variable, an escaped brace, a backslash that escapes nothing, and both kinds of unbalanced brace |
| `Templates.JoinChunks` | pkg/graph/transforms.go:98-134 | the chunks collected by the loop spell the anchored pattern of the parsed tokens |
| `Templates.BuildRegexForAttribute` | pkg/graph/transforms.go:98-134 | the pattern handed to the regular-expression library is that of the parsed template, an error iff it does not parse |
| `Templates.FillIsAccepted` | pkg/graph/transforms.go:98-134 | every template filled with non-empty allowed values is accepted |
| `Templates.AcceptedIsFill` | pkg/graph/transforms.go:98-134 | an accepted string yields the values its variables stand for |
| `Templates.ClassText` | pkg/graph/transforms.go:111-111 | the text put in for a variable is the class of the characters outside five ranges of codes, repeated |
| `Templates.StandardAccepts` | pkg/graph/transforms.go:131-133 | a library that reads such texts in the standard way accepts with the pattern what the tokens of the template accept |
| `Templates.PlainAcceptsExactlyInstances` | pkg/graph/transforms.go:98-134 | without metacharacters the pattern accepts exactly the instances of the template |
| `Templates.ExactIffNoDot` | pkg/graph/transforms.go:98-134 | with '.' admitted, the pattern is exact if and only if the literal text has no '.' |
| `Transforms.IndexAttributes` | pkg/graph/transforms.go:52-56 | the map of pointers leads from each name to its last attribute, and misses none |
| `Transforms.ListAttributes` | pkg/graph/transforms.go:80-85 | the new list holds each attribute of the map once, whatever the map order |
| `Transforms.WriteIfCompatible` | pkg/graph/transforms.go:58-70 | one present attribute: written iff it equals the wanted value or its template matches it |
| `Transforms.WriteInPlace` | pkg/graph/transforms.go:66-66 | writing through one pointer changes that name's attribute and no other |
| `Transforms.ApplyInOrder` | pkg/graph/transforms.go:51-88 | for every order of the filter map: non-nil iff every wanted value is compatible with the present one, the resulting attributes the same in every order; on refusal exactly the values before the refusing name are written |
| `Transforms.ApplyAttributesFilter` | pkg/graph/transforms.go:51-88 | the same for the map in whatever order it is walked; a refusal leaves compatible values written for some of the names |
| `Transforms.VisitName` | pkg/graph/transforms.go:57-78 | one turn of the loop: write, add or refuse, with the rest of the names untouched |
| `Transforms.RefusalLeavesIff` | pkg/graph/transforms.go:57-78 | what a refusal can leave is exactly what some order of the map leaves, and every partly written outcome is reached |
| `Transforms.RefusalUnchangedIff` | pkg/graph/transforms.go:57-78 | a refusal changes nothing in every order if and only if no present name is to get a compatible but different value |
| `Transforms.RefusalWrites` | pkg/graph/transforms.go:57-78 | attributes a: {v} and b: 1 against the filter a: z, b: 2: a is written in one order and nothing in the other |
| `Transforms.ApplyOverrides` | pkg/graph/transforms.go:157-184 | never refuses; every override value is written or added, all else kept |
| `Transforms.ApplyTwice` | pkg/graph/transforms.go:51-88 | a filter that passed passes again and changes nothing |
| `Transforms.SiblingSeesNarrowing` | pkg/graph/lineage.go:46-48 | after one filter set an attribute, a sibling's filter passes iff the first value admits its own, though alone it would pass |
| `Transforms.TemplatePassesInstances` | pkg/graph/transforms.go:58-70 | a plain template attribute lets through itself and exactly its instances |
| `Transforms.Apply` | pkg/graph/types.go:212-218 | nil exactly when an attributes filter refuses; what is handed on, and what is left in the argument, for each transform |
| `LineageGraph.Vertex.AddEdge` | pkg/graph/types.go:164-178 | one fresh edge at the end of the out-list, the in-list and, inside a graph, the index under its reference |
| `LineageGraph.SameKeyIff` | pkg/graph/types.go:249-258 | two destinations share a key if and only if references and URIs are equal, up to nil for the zero value |
| `LineageGraph.Graph.GetOrCreateVertex` | pkg/graph/constructor.go:629-641 | a vertex for this destination, found or fresh, and never the vertex of a destination with another reference or URI; the graph stays well formed |
| `LineageGraph.Graph.Link` | pkg/graph/types.go:164-178 | an edge between vertices of the graph keeps both edge lists and the index equal to views of one history |
| `LineageGraph.Graph.AddBroker` | pkg/graph/constructor.go:299-320 | a vertex for the Broker reference and, with a dead letter sink, one edge from it to the sink, marked as such; no more, and the graph stays well formed |
| `LineageGraph.Graph.AddChannel` | pkg/graph/constructor.go:322-346 | likewise for the channel, of kind Channel if it names none |
| `LineageGraph.Graph.AddEventType` | pkg/graph/constructor.go:348-374 | for a trigger or subscription an edge back along its primary edge, an error iff there is none; otherwise an edge to the reference |
| `LineageGraph.Graph.AddSource` | pkg/graph/constructor.go:376-390 | one edge to the sink with the overrides, marked isDLS as in the code |
| `LineageGraph.Graph.AddTrigger` | pkg/graph/constructor.go:392-428 | an error and no change iff no vertex stands for the broker; otherwise broker to subscriber, with the attributes filter only where `filters` is empty, then broker to dead letter sink |
| `LineageGraph.Graph.AddSubscription` | pkg/graph/constructor.go:430-470 | an error and no change iff no vertex stands for the channel; otherwise channel to subscriber, subscriber to reply, and channel to dead letter sink, in that order |
| `LineageGraph.Graph.GetPrimaryOutEdgeWithRef` | pkg/graph/types.go:200-210 | the first edge ever added with that reference that is not dead-letter, nil iff there is none |
| `LineageGraph.Graph.AddTriggerAndLookUp` | pkg/graph/constructor.go:392-428 | after adding a trigger with no primary edge yet, the lookup returns its broker-to-subscriber edge |
| `LineageGraph.Graph.AddSubscriptionAndLookUp` | pkg/graph/constructor.go:430-470 | likewise the channel-to-subscriber edge, not the reply edge |
| `LineageGraph.Graph.Run` | pkg/graph/constructor.go:299-470 | any sequence of additions, failing ones included, keeps the graph well formed, every vertex under its key and every edge in its place in the history |
| `LineageGraph.FirstLinkIsPrimary` | pkg/graph/types.go:200-210 | the first link added under a reference that had no primary edge becomes that edge |
| `LineageGraph.Graph.Vertices` | pkg/graph/types.go:81-89 | every vertex, each once |
| `LineageGraph.Graph.Sources` | pkg/graph/types.go:100-108 | exactly the vertices with out-edges and no in-edges, each once |
| `LineageGraph.PrimaryOfView` | pkg/graph/types.go:200-210 | the index entry alone determines the primary edge of the whole history |
| `LineageGraph.PrimaryAdded` | pkg/graph/types.go:200-210 | the first non-dead-letter edge of a reference stays primary whatever is added later |
| `LineageGraph.DegreesBalance` | pkg/graph/types.go:119-125 | in a well-formed graph total out-degree and total in-degree both equal the number of edges |
| `LineageGraph.ViewMembers` | pkg/graph/types.go:164-178 | an edge is in its source's out-list, its target's in-list and its reference's index entry, and in no other |
| `LineageGraph.OutOfDistinct` | pkg/graph/types.go:164-178 | no out-list repeats an edge |
| `Lineage.VertexLineage` | pkg/graph/lineage.go:34-53 | terminates on every graph; the result is a fresh tree that is a search from v, each copy reached by one edge; on return no vertex but those marked on entry is marked, and v is not |
| `Lineage.ExploreAll` | pkg/graph/lineage.go:38-49 | the loop explores the out-edges in order over one shared EventType and restores every mark |
| `Lineage.ExploreEdge` | pkg/graph/lineage.go:39-48 | a marked target becomes a leaf; another is searched iff the transform of the shared EventType is not nil |
| `Lineage.Narrow` | pkg/graph/lineage.go:46-47 | what the next level is handed is a fresh copy of what the transform gives |
| `Lineage.AddBranch` | pkg/graph/lineage.go:41-47 | the new edge carries the same reference and dead-letter flag, and joins two trees that share no copy |
| `Lineage.CopiedEdges` | pkg/graph/lineage.go:41-47 | each out-edge of a copy has the reference and dead-letter flag of the edge it was made for, and leads to a copy |
| `Lineage.GraphLineage` | pkg/graph/lineage.go:23-31 | one lineage tree, from an empty EventType, for each source vertex; the graph stays well formed and unmarked |
| `Lineage.SimpleWalkUnfold` | pkg/graph/lineage.go:34-53 | a path with distinct vertices before its last is a first edge and such a path that avoids what is then marked |
| `Lineage.PathsOfExplored` | pkg/graph/lineage.go:38-49 | the branches of a partly explored vertex: each at most once, only simple ones, and all of them that meet no filter |
| `Lineage.BranchesAreSimpleWalks` | pkg/graph/lineage.go:34-53 | for arbitrary transforms every branch is a path with distinct vertices before the last, occurs once, and none without filters is missing |
| `Lineage.ExactBranches` | pkg/graph/lineage.go:34-53 | without attributes filters the tree has exactly one branch for each such path and no other |
| `Lineage.BranchIffPassable` | pkg/graph/lineage.go:38-49 | an edge gives a branch iff its target is marked or its filter passes what the earlier siblings left in the shared EventType |
| `Lineage.ChildIff` | pkg/graph/lineage.go:38-49 | the search below an edge is handed, transform by transform, what it makes of the attributes left till then; an edge to a marked vertex leaves them as they are |
| `Lineage.PathOccursIff` | pkg/graph/lineage.go:34-53 | under arbitrary transforms a path is a branch, once, if and only if its vertices before the last are distinct and each of its edges passes what was left and handed on till then |
| `Lineage.GraphLists` | pkg/graph/types.go:164-178 | edges of a well-formed graph do not leave it, so the search applies to it |
| `SubscriptionFilters.MaterializeFiltersList` | pkg/eventfilter/subscriptionsapi/create.go:76-87 | the filters of the specs that compile, in order; the others are skipped |
| `SubscriptionFilters.RunAttributes` | pkg/eventfilter/subscriptionsapi/exact_filter.go:49-71 | passes iff every listed attribute is present and equal; for prefix iff present and the wanted value followed by some rest; for suffix iff some front followed by the wanted value; fails otherwise |
| `SubscriptionFilters.StartsAndEnds` | pkg/eventfilter/subscriptionsapi/prefix_filter.go:49-71 | what a prefix and a suffix are, as concatenations |
| `SubscriptionFilters.AttributesRefusedIff` | pkg/eventfilter/subscriptionsapi/exact_filter.go:38-47 | no filter is made iff some name or value is empty |
| `SubscriptionFilters.StopIsOrderIndependent` | pkg/eventfilter/subscriptionsapi/all_filter.go:67-85 | for arbitrary children "All gives Fail" and "Any gives Pass" hold in every order or in none |
| `SubscriptionFilters.AnswerOrderIndependentIff` | pkg/eventfilter/subscriptionsapi/any_filter.go:61-79 | the whole answer is order-independent if and only if some child stops the node or all children agree |
| `FilterMeaning.NodeAnswerSet` | pkg/eventfilter/subscriptionsapi/all_filter.go:67-85 | what a node can answer over all orders is determined by what its filters can: the stop value iff some filter can give it, another iff all can go on and some filter can give it |
| `FilterMeaning.AnswersAreOutcomes` | pkg/eventfilter/subscriptionsapi/create.go:26-65 | for every spec, empty, malformed or with several dialects: the exact set of answers of its filter over all orders of all its All and Any nodes |
| `FilterMeaning.MaterializedMeaning` | pkg/eventfilter/subscriptionsapi/create.go:26-65 | for every spec that gives a filter: it refuses exactly what its boolean meaning refuses, in every order of every node, if and only if the refusal condition holds of what its parts may answer, and gives the verdict on the meaning if and only if that is its one outcome; with clean or dropped parts both are guards on the meanings of the parts |
| `FilterMeaning.AllRefusesIff` | pkg/eventfilter/subscriptionsapi/all_filter.go:44-85 | All over arbitrary members: when it refuses exactly if m is false |
| `FilterMeaning.AnyRefusesIff` | pkg/eventfilter/subscriptionsapi/any_filter.go:39-79 | likewise Any |
| `FilterMeaning.NotRefusesIff` | pkg/eventfilter/subscriptionsapi/not_filter.go:38-49 | likewise Not |
| `FilterMeaning.CleanIsSettled` | pkg/eventfilter/subscriptionsapi/create.go:26-65 | guards that hold throughout a spec make its filter give Pass iff the meaning is true and Fail otherwise, in every order |
| `FilterMeaning.AllMeaningIff` | pkg/eventfilter/subscriptionsapi/all_filter.go:44-85 | All is the conjunction of its specs if and only if the dropped ones hold or a kept one fails |
| `FilterMeaning.AnyMeaningIff` | pkg/eventfilter/subscriptionsapi/any_filter.go:39-79 | Any is the disjunction of its specs if and only if no dropped one holds or a kept one does |
| `FilterMeaning.NotMeaningIff` | pkg/eventfilter/subscriptionsapi/not_filter.go:38-49 | Not is the negation of its spec if and only if that spec gives a filter |
| `FilterMeaning.AdmittedMeaning` | pkg/apis/eventing/v1/trigger_validation.go:218-240 | an admitted spec without empty values, and with empty objects at most beside full specs in `all`, is decided at every event |
| `FilterMeaning.ListAnswers` | pkg/eventfilter/subscriptionsapi/create.go:76-87 | the filters of a list answer exactly the outcomes of its specs, those without outcomes dropped |
| `FilterMeaning.TriggerRefusesIff` | pkg/eventfilter/subscriptionsapi/create.go:67-74 | for every list of specs and every m, a trigger refuses exactly if m is false if and only if no spec may answer Fail when m, or some spec must when not |
| `FilterMeaning.TriggerFilterMeaning` | pkg/eventfilter/subscriptionsapi/create.go:67-74 | the same for m the conjunction of the specs' meanings; with clean or dropped specs it comes to the dropped ones holding or a kept one failing |
| `FilterMeaning.EmptyObjectsInAll` | pkg/apis/eventing/v1/trigger_types.go:123-126 | dropping empty objects from a conjunction never matters |
| `FilterMeaning.HasMultipleDialects` | pkg/apis/eventing/v1/trigger_validation.go:249-293 | admission finds several dialects exactly when more than one is set |
| `FilterMeaning.FirstDialectIff` | pkg/eventfilter/subscriptionsapi/create.go:26-65 | every spec is compiled to its first dialect, so the filter decides the documented conjunction if and only if the first dialect's one outcome is the verdict on all; where it is settled, iff it refuses or all the others accept |
| `FilterMeaning.EmptyInAny` | pkg/eventfilter/subscriptionsapi/create.go:76-87 | any: [{}, {exact: {type: a}}] is admitted and means true, but its filter refuses every event without a type |
| `FilterMeaning.EmptyInNot` | pkg/eventfilter/subscriptionsapi/not_filter.go:38-49 | not: {} is admitted and means false, but its filter gives NoFilter on every event |
| `FilterMeaning.EmptyInNotNot` | pkg/eventfilter/subscriptionsapi/not_filter.go:38-49 | not: {not: {}} means true, and its filter gives NoFilter |
| `FilterMeaning.EmptyNotIsOrderDependent` | pkg/eventfilter/subscriptionsapi/not_filter.go:38-49 | any: [{not: {}}, {exact: {type: a}}] is admitted and can answer exactly Fail and NoFilter, by order, on an event without a type |
| `FilterOptimizer.SwapKeepsPerm` | pkg/eventfilter/subscriptionsapi/all_filter.go:101-105 | a swap of neighbours leaves every original filter in the node exactly once |
| `FilterOptimizer.FilterNode.constructor` | pkg/eventfilter/subscriptionsapi/all_filter.go:44-65 | the node starts with its filters in their order, counts of 0 and nothing pending |
| `FilterOptimizer.FilterNode.Filter` | pkg/eventfilter/subscriptionsapi/all_filter.go:67-85 | the answer is that of the children in their current order; the index of the first stopping child is queued if and only if there is one and the channel is empty |
| `FilterOptimizer.FilterNode.CountStep` | pkg/eventfilter/subscriptionsapi/any_filter.go:91-96 | one index is taken from the channel and counted, modulo 2^64; the order does not change |
| `FilterOptimizer.FilterNode.CompareStep` | pkg/eventfilter/subscriptionsapi/any_filter.go:97-99 | later, after whatever swaps, a swap is spawned iff the index is not the first and its count is more than twice the one now before it |
| `FilterOptimizer.ReorderedAnswers` | pkg/eventfilter/subscriptionsapi/any_filter.go:61-107 | a run from a new node in which one event is refused first and let through after the optimiser has swapped the filters |
| `FilterOptimizer.FilterNode.RunSwap` | pkg/eventfilter/subscriptionsapi/any_filter.go:103-107 | a swap, however stale, exchanges two neighbours in range |
| `FilterOptimizer.FilterNode.Run` | pkg/eventfilter/subscriptionsapi/all_filter.go:67-105 | in every interleaving of evaluations, optimiser turns and swaps the node holds a permutation of its filters, pending swaps are in range, and an evaluation stops iff some child gives the stop value |
| `BrokerTtl.CloudEvent.GetTTL` | pkg/broker/ttl.go:38-45 | the TTL if the attribute is there and an integer, else an error |
| `BrokerTtl.CloudEvent.SetTTL` | pkg/broker/ttl.go:47-50 | replaces the TTL and no other extension |
| `BrokerTtl.CloudEvent.DeleteTTL` | pkg/broker/ttl.go:52-54 | removes the TTL and no other extension |
| `BrokerTtl.StampAsDocumentedIff` | pkg/broker/ttl.go:57-97 | the TTL goes down by one and stays 0 at or below 0 for every int32 but the smallest |
| `BrokerTtl.TTLDefaulter` | pkg/broker/ttl.go:62-97 | an absent TTL or one that is no integer becomes the default; a positive one goes down by one; one at or below 0 becomes 0, but the smallest int32 the largest |
| `BrokerTtl.Receive` | pkg/broker/ingress/ingress_handler.go:341-352 | an event without a TTL goes on iff the default is positive, one with a TTL iff it is above 1 or wraps; a forwarded event carries a positive TTL |
| `BrokerTtl.DispatchToSubscriber` | pkg/broker/filter/filter_handler.go:421-474 | the subscriber never sees the TTL; the reply carries the event's own TTL whatever the subscriber wrote; an event without TTL is refused unchanged |
| `BrokerTtl.NextKeepsGood` | pkg/broker/filter/filter_handler.go:552-607 | along each reply chain the TTL has dropped by one per acceptance and is positive, after every step of ingress or a trigger |
| `BrokerTtl.IngressStep` | pkg/broker/ingress/ingress_handler.go:341-352 | accepting or dropping a message lowers the measure and conserves deliveries made plus possible |
| `BrokerTtl.DeliverStep` | pkg/broker/filter/filter_handler.go:421-474 | a delivery lowers the measure and, if answered, conserves deliveries made plus possible |
| `BrokerTtl.DeliveriesIsPowerSum` | pkg/broker/ttl.go:62-97 | what an event stamped n can cause with k triggers is k + k^2 + ... + k^n deliveries |
| `BrokerTtl.RunInvariant` | pkg/broker/ingress/ingress_handler.go:341-352 | after n steps of any run the invariant holds and the measure is down by n at least |
| `BrokerTtl.NoReplyStorm` | pkg/broker/filter/filter_handler.go:341-371 | every run ends, makes at most the sum of k + ... + k^n deliveries over its external events, accepts an event at most n times per chain, and never forwards the skip marker -1 |
| `Dispatch.Send` | pkg/kncloudevents/event_dispatcher.go:233-376 | for every outcome of the requests: destination, then reply if the destination answered 200 to 299 with an event, then dead letter sink iff the last of these did not answer so; nil error iff the last request did; the reported code, 500 for an unread body; every response event is finished |
| `Dispatch.OkMeansHandedOver` | pkg/kncloudevents/event_dispatcher.go:233-376 | a nil error means a 2xx from the destination or the dead letter sink; an error with a sink configured means the sink was tried last |
| `Fanout.Collect` | pkg/channel/fanout/fanout_event_handler.go:336-366 | error iff some result has one or the timeout fired; duration is the sum of the started ones received, or NoDuration; the code is that of the last result received with one |
| `Fanout.TotalDurationLaws` | pkg/channel/fanout/fanout_event_handler.go:336-351 | the total is -1 for nothing started and otherwise adds up what was, part by part |
| `Fanout.LastCodeAt` | pkg/channel/fanout/fanout_event_handler.go:351-351 | the code is that of the last result with one |
| `Fanout.LastCodeNone` | pkg/channel/fanout/fanout_event_handler.go:333-339 | without any the code is -1 |
| `Fanout.StartedSumPermuted` | pkg/channel/fanout/fanout_event_handler.go:336-366 | the sum of durations is the same for every permutation of the results |
| `Fanout.ArrivalOrderIrrelevant` | pkg/channel/fanout/fanout_event_handler.go:336-366 | neither error nor duration depends on the order of arrival |
| `Fanout.RunKeepsResults` | pkg/channel/fanout/fanout_event_handler.go:308-366 | in every run each result is pending, buffered or received, exactly once |
| `Fanout.NoSenderBlocks` | pkg/channel/fanout/fanout_event_handler.go:309-320 | no sender ever finds the channel full, even after the receiver timed out |
| `Fanout.CollectedAll` | pkg/channel/fanout/fanout_event_handler.go:336-366 | with as many results received as subscriptions, error and duration are those of all results |
| `Fanout.AcceptedOnlyIfHandedOver` | pkg/channel/event_receiver.go:335-345 | a synchronous channel answers 202 only if for every subscription the subscriber or its dead letter sink answered 2xx; without timeout, iff every send succeeded |
| `Text.SplitAt` | pkg/requestreply/correlation_id.go:46-46 | strings.Split cuts at the first separator and goes on with the rest |
| `Text.SplitCount` | pkg/requestreply/correlation_id.go:46-49 | there is one part more than there are separators |
| `Text.JoinSplit` | pkg/requestreply/correlation_id.go:46-46 | the parts joined again are the text, and none holds a separator |
| `Text.ParseDigitsIff` | pkg/requestreply/cesql.go:58-62 | a number is digits and nothing else |
| `Text.ParseIntIs` | pkg/requestreply/cesql.go:58-62 | with or without a sign, and in range, or an error |
| `Text.ParseDigitsValue` | pkg/requestreply/cesql.go:58-62 | the value of digits, one by one |
| `Text.ParseIntErrors` | pkg/requestreply/cesql.go:58-62 | nothing, a bare sign, or anything else in the text is an error |
| `Text.ParsePrintInt` | pkg/requestreply/cesql.go:58-62 | every integer that fits is parsed back from its decimal print |
| `Base64.UrlEncodingProper` | pkg/requestreply/correlation_id.go:106-106 | the URL-safe alphabet of section 5 of RFC 4648 determines its sextets and excludes padding and line breaks |
| `Base64.DecodeEncode` | pkg/requestreply/correlation_id.go:54-57 | decoding undoes encoding for every byte string |
| `Base64.UrlAlphabet` | pkg/requestreply/correlation_id.go:106-106 | table 2 of RFC 4648 |
| `Base64.Vectors` | pkg/requestreply/correlation_id.go:106-106 | vectors of section 10 of RFC 4648 |
| `Base64.LineBreaksAreSkipped` | pkg/requestreply/correlation_id.go:54-57 | the decoder skips line breaks anywhere |
| `Base64.OddLengthIsError` | pkg/requestreply/correlation_id.go:54-57 | a length that is no multiple of four is an error |
| `Base64.EarlyPaddingIsError` | pkg/requestreply/correlation_id.go:54-57 | padding before the last group is an error |
| `CorrelationId.PartsOfPrint` | pkg/requestreply/correlation_id.go:83-111 | for an event id without ':' the printed id splits into exactly its three parts |
| `CorrelationId.ColonBreaksPrint` | pkg/requestreply/correlation_id.go:46-49 | for an event id with ':' it does not have three parts |
| `CorrelationId.MintedVerifiesIff` | pkg/requestreply/correlation_id.go:45-111 | a minted id verifies under its key if and only if the event id has no ':'; otherwise verifying is an error |
| `CorrelationId.VerifiesIff` | pkg/requestreply/correlation_id.go:45-81 | an id verifies, minted or forged, if and only if it is three parts, the second decoding to a 12-byte nonce and a text that opens, under a key of 16, 24 or 32 bytes, to the first |
| `CorrelationId.ForgedIsRefused` | pkg/requestreply/correlation_id.go:45-81 | another event's id before a part sealed for this one is refused |
| `CorrelationId.KeyPrefixIff` | pkg/requestreply/cesql.go:75-77 | the secret's keys that are tried are those named namespace.name. |
| `CorrelationId.ExactlyOnePod` | pkg/requestreply/cesql.go:63-65 | some pod passes the routing test iff the index is not negative or a multiple of the replica count, and then one only, the remainder of the index; an index below the count routes to itself |
| `CorrelationId.VerifyCorrelationId` | pkg/requestreply/cesql.go:49-90 | true iff this pod takes the id and some key of the secret with the resource's prefix verifies it, whatever the map order |
| `CorrelationId.AnyKeyVerifies` | pkg/requestreply/ingress_handler.go:327-338 | true iff some stored key verifies the id |
| `CorrelationId.MintedRoutesBack` | pkg/requestreply/cesql.go:53-65 | parsing a minted id recovers event id and index for every int32 index, and exactly the pod it routes to takes it |
| `KeyStore.StoredIffLastWord` | pkg/requestreply/key_store.go:37-56 | after every run of adds and removes the stored keys are exactly the latest values of names added and not since removed |
| `KeyStore.LatestStoredIffNotRemoved` | pkg/requestreply/key_store.go:58-63 | the latest key is still stored if and only if its name was not removed after it was added |
| `KeyStore.RemovedKeyStillSigns` | pkg/requestreply/key_store.go:51-63 | a key added and removed again is the latest key though no key is stored |
| `KeyStore.MintedVerifiesWhileStored` | pkg/requestreply/ingress_handler.go:256-263 | an id minted under a key verifies under a stored key until that key's name is removed or overwritten |
| `KeyStore.RequestReplyKeyStore.AddAesKey` | pkg/requestreply/key_store.go:37-49 | the key is stored under its name and becomes the newest |
| `KeyStore.RequestReplyKeyStore.RemoveAesKey` | pkg/requestreply/key_store.go:51-56 | the name is gone, the newest key stays |
| `KeyStore.RequestReplyKeyStore.GetAllKeys` | pkg/requestreply/key_store.go:65-76 | one key for each stored name, in any order |
| `KeyStore.AESKeyStore.AddAesKey` | pkg/requestreply/key_store.go:87-97 | every store stays equal to what the history of operations says of it |
| `KeyStore.AESKeyStore.RemoveAesKey` | pkg/requestreply/key_store.go:99-105 | likewise, also for an unknown resource; no store is dropped |
| `KeyStore.AESKeyStore.GetLatestKey` | pkg/requestreply/key_store.go:107-116 | the key added last for the resource, missing iff none ever was |
| `KeyStore.AESKeyStore.GetAllKeys` | pkg/requestreply/key_store.go:118-127 | exactly the stored keys of the resource, missing iff none was ever added |
| `KeyStore.AESKeyStore.ProcessKeyFile` | pkg/requestreply/key_store.go:214-228 | a key file with a three-part name adds its contents, any other name changes nothing |
| `KeyStore.AESKeyStore.RemoveKeyFile` | pkg/requestreply/key_store.go:230-237 | a three-part name removes that key, any other changes nothing |
| `KeyStore.FileNameIff` | pkg/requestreply/key_store.go:239-252 | a file name is read as a resource and a key if and only if it is namespace.name.key and none of the three has a '.' |
| `KeyStore.FileNameErrorIff` | pkg/requestreply/key_store.go:239-252 | any other number of '.' is an error |
| `RequestReply.TableLaws` | pkg/requestreply/ingress_handler.go:210-243 | adding or deleting an event changes what its own id leads to and nothing else |
| `RequestReply.IngressHandler.AddEvent` | pkg/requestreply/ingress_handler.go:210-229 | a fresh request with an empty channel is registered, over one with the same id |
| `RequestReply.IngressHandler.DeleteEvent` | pkg/requestreply/ingress_handler.go:231-235 | the id is unregistered, whichever request it led to |
| `RequestReply.IngressHandler.GetEvent` | pkg/requestreply/ingress_handler.go:237-243 | the registered request, if any |
| `RequestReply.IngressHandler.HandleReplyEvent` | pkg/requestreply/ingress_handler.go:301-359 | 202 iff some stored key verifies the reply id, 500 without keys, 400 otherwise; only the channel of the request that the id names, which is the id sealed in it, is filled, and only if it was empty |
| `RequestReply.StepKeepsGood` | pkg/requestreply/ingress_handler.go:245-359 | every step of a request, a reply, a timeout or a key change keeps the invariant |
| `RequestReply.RunKeepsGood` | pkg/requestreply/ingress_handler.go:245-359 | the invariant holds after every run |
| `RequestReply.AtMostOneAuthenticReply` | pkg/requestreply/ingress_handler.go:282-298 | in every run, duplicate ids included, a request writes at most one reply, and only one sent to its RequestReply, in which its own event id is sealed under a key that the store held when the reply verified |
| `RequestReply.VerifiedWhileStored` | pkg/requestreply/ingress_handler.go:301-343 | every reply past the check verified under a key that the adds and removes so far left stored for its RequestReply |
| `RequestReply.HandlerNeverBlocks` | pkg/requestreply/ingress_handler.go:345-356 | in every reachable state a reply handler can step on, and ends within two steps |
| `RequestReply.RegisteredIff` | pkg/requestreply/ingress_handler.go:210-243 | in every run an event id leads to a request if and only if the last step that added or deleted an event with that id is the request's own AddEvent |
| `RequestReply.DistinctRegisteredIff` | pkg/requestreply/ingress_handler.go:210-235 | in every run whose requests have distinct ids a request is registered if and only if it is not gone or gave up before it waited |
| `RequestReply.GetEventFindsIff` | pkg/requestreply/ingress_handler.go:345-347 | at whatever point of a run a verified reply looks up its request, it finds it if and only if the last step on the key was that request's AddEvent |
| `RequestReply.TrySendFillsIff` | pkg/requestreply/ingress_handler.go:349-354 | at whatever point of a run the reply is offered, it fills the channel if and only if that is empty, and changes no other request |
| `RequestReply.HeldReplyIsWritten` | pkg/requestreply/ingress_handler.go:282-298 | whatever steps follow, a reply in the channel of a request still in its select is what the request writes if it takes one, and it writes nothing if it times out |
| `RequestReply.ReplyReachesWaiterIff` | pkg/requestreply/ingress_handler.go:345-356 | after every run, if the handler is not disturbed from there, a reply to a waiting, unanswered request reaches it if and only if its AddEvent was the last step on its key, and is then what it writes |
| `RequestReply.MintedReplyComesBack` | pkg/requestreply/ingress_handler.go:245-359 | after every run, undisturbed from there, a waiting request that is still registered writes the reply that carries the id minted for it under a key still stored |
| `RequestReply.TableEmptyIff` | pkg/requestreply/ingress_handler.go:210-235 | in every run the table is empty if and only if every AddEvent is followed by a DeleteEvent on its key |
| `RequestReply.DrainedIff` | pkg/requestreply/ingress_handler.go:245-299 | with distinct ids and all requests gone the table is empty if and only if none gave up before it waited |
| `RequestReply.GiveUpLeavesEntry` | pkg/requestreply/ingress_handler.go:249-280 | a run after which the only request is gone and still registered |
| `RequestReply.DuplicateIdLosesEntry` | pkg/requestreply/ingress_handler.go:231-235 | a run from the start after which a request waits although its id leads to none |
| `Retries.LinearBackoff` | pkg/kncloudevents/retries.go:164-176 | equals min(limit, delay * (attempt + 1)) over unbounded integers, with no int64 overflow on the way |
| `Retries.ExponentialBackoff` | pkg/kncloudevents/retries.go:178-197 | equals min(limit, delay * 2^attempt) over unbounded integers, with no int64 overflow on the way |
| `Retries.BackoffMonotone` | pkg/kncloudevents/retries.go:164-197 | both never shrink with the attempt and never exceed the limit |
| `Retries.ExponentialDoubles` | pkg/kncloudevents/retries.go:178-197 | from one attempt to the next the exponential backoff doubles, up to the limit |
| `Retries.GeneratedBackoff` | pkg/kncloudevents/retries.go:252-301 | the larger of the backoff and the Retry-After of a 429 or 503, cut to the maximum and only if one is set |
| `Retries.WaitBounds` | pkg/kncloudevents/retries.go:252-301 | the wait lies between the backoff and the larger of it and RetryAfterMax, and is the backoff when that is unset or the status is neither 429 nor 503 |
| `Retries.OtherRetryAfter` | pkg/kncloudevents/retries.go:309-335 | a missing or unreadable header asks for nothing, a date for the time until then |
| `Retries.SecondsHonoured` | pkg/kncloudevents/retries.go:309-335 | printed seconds are read back exactly if and only if they are at most 9223372036, and then waited for up to the maximum |
| `Retries.WrappedRetryAfterIgnored` | pkg/kncloudevents/retries.go:309-335 | the next range of seconds wraps to a negative duration and has no effect |
| `EventPolicies.AppliesTo` | pkg/auth/event_policy.go:58-101 | whether a policy applies to a resource: by name, by selector, or with no target at all; an error exactly if a malformed target comes before the first match |
| `EventPolicies.GroupOf` | pkg/auth/event_policy.go:61-65 | the group is what stands before the one '/' of an apiVersion, if any; two are an error |
| `EventPolicies.OneReferenceApplies` | pkg/auth/event_policy.go:60-73 | one reference applies iff name, group and kind are equal up to case |
| `EventPolicies.OneSelectorApplies` | pkg/auth/event_policy.go:75-95 | one selector applies iff group and kind are equal up to case and it compiles and holds of the labels |
| `EventPolicies.AppliesToSome` | pkg/auth/event_policy.go:58-101 | several targets apply iff one does, none always |
| `EventPolicies.LessIff` | pkg/auth/event_policy.go:103-107 | names come in the order of their first difference |
| `EventPolicies.GetEventPoliciesForResource` | pkg/auth/event_policy.go:50-109 | exactly the policies of the namespace that apply, each as often as listed, sorted by name; an error exactly if one of the namespace ends in one |
| `EventPolicies.RelevantMembers` | pkg/auth/event_policy.go:50-109 | a policy is listed iff it is in the namespace and applies |
| `EventPolicies.RelevantAtMostOnce` | pkg/auth/event_policy.go:50-109 | no policy is listed more often than the lister holds it |
| `EventPolicies.GetNamesOfTarget` | pkg/auth/event_policy.go:129-166 | the names one target contributes, an error iff the target is malformed |
| `EventPolicies.GetApplyingResources` | pkg/auth/event_policy.go:115-174 | the names all targets contribute, every indexed one for a nil `to`, an error iff some target is malformed |
| `EventPolicies.NamesOfTargetsMember` | pkg/auth/event_policy.go:129-166 | an indexed resource's name is contributed iff some target refers to it in the same case or selects it |
| `EventPolicies.InverseIff` | pkg/auth/event_policy.go:50-174 | for every policy and indexed resource of its namespace the two functions give the same result if and only if both end in an error, or the targets are well formed, `to` is not empty and non-nil, and no reference matches by case folding alone |
| `EventPolicies.MalformedIsMissed` | pkg/auth/event_policy.go:64-78 | a policy that applies before its malformed target is reached, though its resources are an error |
| `EventPolicies.OtherCaseIsOverlooked` | pkg/auth/event_policy.go:129-141 | a reference to Br applies to the resource br, but the policy's resources are Br alone |
| `EventPolicies.OnUpdate` | pkg/auth/event_policy.go:275-299 | an update enqueues exactly the keys of the old and of the new policy, each once |
| `EventPolicies.AffectedIsEnqueued` | pkg/auth/event_policy.go:275-299 | for every update an indexed resource is enqueued iff the old or the new policy applies to it, is well formed and does not overlook it |
| `AuthCache.ProxyHandler.InvalidateSubjectsCache` | cmd/auth_proxy/main.go:330-335 | the cache is empty afterwards |
| `AuthCache.ProxyHandler.GetAuthSubjects` | cmd/auth_proxy/main.go:396-446 | undisturbed, the answer is the cached value or else the computed one, and is cached unless it is an error |
| `AuthCache.StepKeepsGood` | cmd/auth_proxy/main.go:396-446 | every step of requests, policy changes and invalidations keeps the invariant |
| `AuthCache.RunKeepsGood` | cmd/auth_proxy/main.go:316-335 | the invariant holds after every run |
| `AuthCache.QuietCacheIsCurrent` | cmd/auth_proxy/main.go:396-446 | in every reachable state with no pending invalidation the cache is empty or equals the subjects of the current policies, and so do the answers of the first look, the second look and the computation |
| `AuthCache.StaleWhilePending` | cmd/auth_proxy/main.go:316-335 | a run in which, with an invalidation pending, a request is answered with the subjects of the old policies |
| `AuthCache.QuietRequestIsCurrent` | cmd/auth_proxy/main.go:396-446 | from such a state a request that is not disturbed answers with the subjects of the current policies and leaves them cached |
| `AuthProxy.ComputeSubjects` | cmd/auth_proxy/main.go:418-439 | the policies found for the parent without its labels, sorted by name, or the error |
| `AuthProxy.ProxyPoliciesIff` | cmd/auth_proxy/main.go:418-425 | its result is that of a lookup of the labelled parent if and only if both are errors, or neither is and no selector decides for a policy |
| `AuthProxy.SelectedParentIsMissed` | cmd/auth_proxy/main.go:418-425 | a policy for a selector that holds of the parent's labels and not of none is not found |
| `AuthProxy.ErrorIsNotSeen` | cmd/auth_proxy/main.go:418-425 | a policy that the proxy finds although a lookup of the labelled parent is an error |
| `AuthProxy.QuietCacheIsParentsIff` | cmd/auth_proxy/main.go:396-446 | in every run a cache filled with no invalidation pending is the result for the labelled parent in the current store if and only if that is no error and no selector decides |
| `AuthCache.OneFiller` | cmd/auth_proxy/main.go:407-409 | no two requests fill the cache at once |
| `JobLocation.UnescapeEscape` | cmd/jobsink/main.go:493-501 | percent-decoding (section 2.1 of RFC 3986) undoes percent-encoding, which leaves no '/' |
| `JobLocation.EscapedText` | cmd/jobsink/main.go:493-501 | letters, digits and -_.~$&+:=@ stay, any other byte becomes '%' and two upper-case hexadecimal digits |
| `JobLocation.UnescapedText` | cmd/jobsink/main.go:508-528 | '%' takes two hexadecimal digits of either case or is an error, other bytes stay |
| `JobLocation.HexDigits` | cmd/jobsink/main.go:508-528 | the hexadecimal digits, in either case |
| `JobLocation.HeaderText` | cmd/jobsink/main.go:493-501 | the text of the header, word by word |
| `JobLocation.OtherPathsAreErrors` | cmd/jobsink/main.go:507-511 | any number of '/' but eight, one at the end not counted, is an error |
| `JobLocation.LocationRoundTripIff` | cmd/jobsink/main.go:493-531 | parsing the header gives the same four values if and only if the id is not empty, for every byte string |

## Left out

- Graph fetch functions and the conversion of unstructured sources: they only list what the API server holds.
- The Address pointer of a KReference and nil edge references; EventType fields other than the attributes.
- Nil subscribers, overrides and references where the code dereferences them without a check.
- Characters in graph and filter strings are Unicode characters, so text that is not valid UTF-8 is not modelled.
- The regular-expression library is a parameter; what it does is assumed only for the texts of ordinary characters, '.' and runs of characters outside given ranges, between '^' and '$'.
- CESQL, AES-GCM (one law: opening undoes sealing), label selectors, case folding and HTTP dates are parameters.
- Lineage.VertexLineage: `TransformFunctionContext`, which carries nothing, is dropped; a refused filter leaves one of several attribute sets, by map order.
- FilterOptimizer.FilterNode.Run: one node at a time; nested nodes are covered by letting every node of `FilterMeaning.AnswersAreOutcomes` stand in any order.
- Cleanup of filters and closing of channels: goroutine teardown.
- BrokerTtl.NoReplyStorm: retried deliveries, and a dead letter sink that leads back to the same broker, are not counted.
- BrokerTtl.Receive: fetching the channel address and the dispatch itself come after the part modelled.
- Dispatch.Send: the event-type auto handler, headers, transformers, OIDC and the contents of error extensions are not modelled; the retry loop is inside one exchange of the oracle.
- Fanout.Collect: the sum of durations is unbounded, not an int64; a goroutine that dereferences nil info after an invalid option is not modelled.
- SetSubscriptions and GetSubscriptions: they copy a list under a lock; the snapshot is a parameter here.
- RequestReply.AtMostOneAuthenticReply: requests, replies and timeouts that run together are a transition system on values; the table alone is a class.
- AuthCache.QuietCacheIsCurrent: likewise for the cache.
- AuthProxy.ComputeSubjects: an entry is the policy itself; its subjects and filters are not modelled.
- CorrelationId.VerifyCorrelationId: a replica count of 0, which panics, is excluded.
- EventPolicies.SortByName: stands for sort.Slice, of which only a sorted permutation is used.
- Policies of the empty namespace, for which the lister means all namespaces; the handlers for added and deleted policies, which enqueue one policy's keys.
- Retries.SecondsHonoured: the date form of Retry-After is a parameter.
- HTTP servers and clients, TLS, informers, reconcilers, trust bundles, defaults, feature flags, observability and logging.
