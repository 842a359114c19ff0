/**
  The self-reordering of one All or Any node (all_filter.go, any_filter.go).  Evaluations, the
  optimiser loop and the swaps it spawns run concurrently; each method here is one atomic step of
  one of them, and a swap may run long after the counts that asked for it have changed.
 */
module FilterOptimizer {
  import opened Wrappers
  import opened SubscriptionFilters

  const UINT64: nat := 0x1_0000_0000_0000_0000

  /** filterCount: which of the original filters, and how often it stopped an evaluation. */
  datatype Entry = Entry(filter: nat, count: nat)

  function Order(entries: seq<Entry>): seq<nat> {
    seq(|entries|, i requires 0 <= i < |entries| => entries[i].filter)
  }

  function SwapWithEarlier(entries: seq<Entry>, i: nat): seq<Entry>
    requires 1 <= i < |entries|
  {
    entries[i - 1 := entries[i]][i := entries[i - 1]]
  }

  /** Swapping two neighbours leaves every original filter in the node exactly once. */
  lemma SwapKeepsPerm(entries: seq<Entry>, i: nat)
    requires 1 <= i < |entries| && IsPerm(Order(entries), |entries|)
    ensures IsPerm(Order(SwapWithEarlier(entries, i)), |entries|)
  {
    var p, q := Order(entries), Order(SwapWithEarlier(entries, i));
    forall k | 0 <= k < |entries| ensures q[k] < |entries| {
      assert q[k] == p[if k == i then i - 1 else if k == i - 1 then i else k];
    }
    forall j | 0 <= j < |entries| ensures j in q {
      assert j in p;
      var k :| 0 <= k < |p| && p[k] == j;
      assert q[if k == i then i - 1 else if k == i - 1 then i else k] == j;
    }
  }

  /** The position of the first filter that stops the node. */
  function FirstStop(stop: FilterResult, rs: seq<FilterResult>): (i: nat)
    requires stop in rs
    ensures i < |rs| && rs[i] == stop && forall j | 0 <= j < i :: rs[j] != stop
  {
    if rs[0] == stop then 0 else FirstStop(stop, rs[1..]) + 1
  }

  datatype Step =
    | Evaluate(results: seq<FilterResult>)   // an event arrives; what each original filter says of it
    | Count                                   // the optimiser loop receives and counts an index
    | Compare                                 // it compares the count with the one before
    | Swap(i: nat)                            // one spawned swap gets the lock

  class FilterNode {
    /** FailFilter for an All node, PassFilter for an Any node. */
    const stop: FilterResult
    var entries: seq<Entry>
    /** The channel of capacity one between evaluations and the optimiser loop. */
    var indexChan: Option<nat>
    /** The index the optimiser loop has counted, and the count it got, until it compares. */
    var counted: Option<(nat, nat)>
    /** The swaps spawned and not yet run. */
    var swaps: multiset<nat>

    /** NewAllFilter and NewAnyFilter for n filters. */
    constructor (stop: FilterResult, n: nat)
      ensures Valid(n) && this.stop == stop && entries == seq(n, (i: nat) => Entry(i, 0))
      ensures indexChan == None && counted == None && swaps == multiset{}
    {
      this.stop := stop;
      entries := seq(n, (i: nat) => Entry(i, 0));
      indexChan, counted, swaps := None, None, multiset{};
      new;
      var p := Order(entries);
      forall j | 0 <= j < n ensures j in p {
        assert p[j] == j;
      }
    }

    /** The node holds the n original filters, and every index on its way to a swap is in range. */
    ghost predicate Valid(n: nat)
      reads this
    {
      && |entries| == n && IsPerm(Order(entries), n)
      && (indexChan.Some? ==> indexChan.value < n) && (counted.Some? ==> counted.value.0 < n)
      && forall i <- swaps :: 1 <= i < n
    }

    /** Filter: run the filters in their current order until one stops it. */
    method Filter(results: seq<FilterResult>) returns (r: FilterResult)
      requires Valid(|results|)
      modifies this`indexChan
      ensures Valid(|results|) && r == RunUntil(stop, Permute(results, Order(entries)))
      ensures
        var rs := Permute(results, Order(entries));
        indexChan == if old(indexChan).None? && stop in rs then Some(FirstStop(stop, rs)) else old(indexChan)
    {
      r := NoFilter;
      ghost var rs := Permute(results, Order(entries));
      for i := 0 to |entries|
        invariant indexChan == old(indexChan)
        invariant stop !in rs[..i] && r == if i == 0 then NoFilter else rs[i - 1]
      {
        assert Order(entries)[i] < |results|;
        r := results[entries[i].filter];
        assert rs[..i + 1] == rs[..i] + [rs[i]];
        if r == stop {
          assert rs[i] in rs && forall j | 0 <= j < i :: rs[j] in rs[..i];
          assert FirstStop(stop, rs) == i;
          if indexChan.None? {
            indexChan := Some(i);
          }
          return;
        }
      }
      assert rs[..|rs|] == rs;
    }

    /** The optimiser loop takes an index from the channel and counts the filter that stands there. */
    method CountStep(ghost n: nat)
      requires Valid(n) && indexChan.Some? && counted.None?
      modifies this
      ensures Valid(n) && indexChan == None && swaps == old(swaps) && Order(entries) == old(Order(entries))
      ensures
        var i, was := old(indexChan).value, old(entries);
        var val := (was[i].count + 1) % UINT64;
        counted == Some((i, val)) && entries == was[i := Entry(was[i].filter, val)]
    {
      var i := indexChan.value;
      indexChan := None;
      var val := (entries[i].count + 1) % UINT64;
      entries := entries[i := entries[i].(count := val)];
      counted := Some((i, val));
      assert Order(entries) == old(Order(entries));
    }

    /** It compares with the filter now standing before, after whatever swaps have run, and may spawn a swap. */
    method CompareStep(ghost n: nat)
      requires Valid(n) && counted.Some?
      modifies this
      ensures Valid(n) && indexChan == old(indexChan) && entries == old(entries) && counted == None
      ensures
        var (i, val) := old(counted).value;
        swaps ==
          if i != 0 && val > entries[i - 1].count * 2 % UINT64 then old(swaps) + multiset{i} else old(swaps)
    {
      var (i, val) := counted.value;
      counted := None;
      if i != 0 && val > entries[i - 1].count * 2 % UINT64 {
        swaps := swaps + multiset{i};
      }
    }

    /** swapWithEarlierFilter, under the write lock. */
    method RunSwap(i: nat, ghost n: nat)
      requires Valid(n) && i in swaps
      modifies this
      ensures Valid(n) && indexChan == old(indexChan) && counted == old(counted) && swaps == old(swaps) - multiset{i}
      ensures entries == SwapWithEarlier(old(entries), i)
    {
      swaps := swaps - multiset{i};
      SwapKeepsPerm(entries, i);
      entries := entries[i - 1 := entries[i]][i := entries[i - 1]];
    }

    /**
      Any interleaving of evaluations, optimiser turns and swaps: the node never loses, repeats or
      misindexes a filter, and every evaluation stops with the stop value iff some filter gives it.
     */
    method Run(steps: seq<Step>, n: nat) returns (answers: seq<(seq<FilterResult>, FilterResult)>)
      requires Valid(n) && forall s <- steps | s.Evaluate? :: |s.results| == n
      requires stop != NoFilter
      modifies this
      ensures Valid(n)
      ensures forall a <- answers :: NodeAnswers(stop, a.0, a.1) && (a.1 == stop <==> stop in a.0)
    {
      answers := [];
      for k := 0 to |steps|
        invariant Valid(n)
        invariant forall a <- answers :: NodeAnswers(stop, a.0, a.1) && (a.1 == stop <==> stop in a.0)
      {
        var step := steps[k];
        assert step in steps;
        match step
        case Evaluate(results) =>
          var r := Filter(results);
          StopIsOrderIndependent(stop, results, Order(entries));
          answers := answers + [(results, r)];
        case Count =>
          if indexChan.Some? && counted.None? {
            CountStep(n);
          }
        case Compare =>
          if counted.Some? {
            CompareStep(n);
          }
        case Swap(i) =>
          if i in swaps {
            RunSwap(i, n);
          }
      }
    }
  }

  lemma PermuteTwo(rs: seq<FilterResult>)
    requires |rs| == 2
    ensures IsPerm([0, 1], 2) && Permute(rs, [0, 1]) == rs
    ensures IsPerm([1, 0], 2) && Permute(rs, [1, 0]) == [rs[1], rs[0]]
  {
    assert [0, 1][0] == 0 && [0, 1][1] == 1 && [1, 0][0] == 1 && [1, 0][1] == 0;
  }

  /** One event that only the second of two filters stops, one optimiser turn and one swap exchange the two. */
  method PromoteSecond(node: FilterNode, results: seq<FilterResult>)
    requires node.Valid(2) && node.entries == [Entry(0, 0), Entry(1, 0)]
    requires node.indexChan.None? && node.counted.None? && node.swaps == multiset{}
    requires |results| == 2 && results[0] != node.stop && results[1] == node.stop
    modifies node
    ensures node.Valid(2) && Order(node.entries) == [1, 0]
  {
    assert Order(node.entries) == [0, 1];
    PermuteTwo(results);
    var _ := node.Filter(results);
    assert FirstStop(node.stop, results) == 1;
    node.CountStep(2);
    node.CompareStep(2);
    node.RunSwap(1, 2);
  }

  /** The filters of any: [{not: {}}, {exact: {type: a}}]. */
  const EMPTY_NOT_AND_TYPE_A := [NotFilter(None), AttributesFilter(Exactly, map["type" := "a"])]

  lemma WhatTheySay(sql: Cesql, ev: Event)
    ensures EachAnswers(sql, EMPTY_NOT_AND_TYPE_A, ev, [NoFilter, Verdict("type" in ev && ev["type"] == "a")])
  {
    var exact := EMPTY_NOT_AND_TYPE_A[1];
    assert "type" in exact.attrs;
    assert AllMatch(Exactly, exact.attrs, ev) <==> "type" in ev && ev["type"] == "a";
  }

  /**
    A run in which one event gets two answers from that node: without a type it is refused; an event
    of type a makes the optimiser swap the two filters; then the first event is let through.
   */
  method ReorderedAnswers(sql: Cesql, ev: Event, typeA: Event) returns (before: FilterResult, after: FilterResult)
    requires "type" !in ev && "type" in typeA && typeA["type"] == "a"
    ensures EachAnswers(sql, EMPTY_NOT_AND_TYPE_A, ev, [NoFilter, FailFilter])
    ensures EachAnswers(sql, EMPTY_NOT_AND_TYPE_A, typeA, [NoFilter, PassFilter])
    ensures before == FailFilter && after == NoFilter
  {
    WhatTheySay(sql, ev);
    WhatTheySay(sql, typeA);
    before, after := BeforeAndAfter([NoFilter, FailFilter], [NoFilter, PassFilter]);
  }

  method BeforeAndAfter(refused: seq<FilterResult>, passed: seq<FilterResult>)
      returns (before: FilterResult, after: FilterResult)
    requires refused == [NoFilter, FailFilter] && passed == [NoFilter, PassFilter]
    ensures before == FailFilter && after == NoFilter
  {
    var node := new FilterNode(PassFilter, 2);
    assert node.entries == [Entry(0, 0), Entry(1, 0)] && Order(node.entries) == [0, 1];
    PermuteTwo(refused);
    before := node.Filter(refused);
    PromoteSecond(node, passed);
    after := node.Filter(refused);
  }
}
