/**
  The CloudEvents Subscriptions API filters (pkg/eventfilter/subscriptionsapi): the compiler from
  filter specs to runnable filters, and what a runnable filter answers when its All and Any nodes
  may have been reordered in any way.
 */
module SubscriptionFilters {
  import opened Wrappers

  datatype FilterResult = PassFilter | FailFilter | NoFilter

  function Verdict(holds: bool): FilterResult { if holds then PassFilter else FailFilter }

  /** An event, as its attributes printed as strings. */
  type Event = map<string, string>
  type Attributes = map<string, string>

  /** The CESQL library: whether an expression parses, and whether it evaluates to true. */
  datatype Cesql = Cesql(parses: string -> bool, holds: (string, Event) -> bool)

  /** SubscriptionsAPIFilter; empty collections and strings stand for dialects left out. */
  datatype Spec = Spec(all: seq<Spec>, any: seq<Spec>, not: Option<Spec>,
                       exact: Attributes, prefix: Attributes, suffix: Attributes, cesql: string)

  // ---------- documented meaning ----------

  datatype Match = Exactly | Starts | Ends

  predicate Matches(how: Match, value: string, wanted: string) {
    match how
    case Exactly => value == wanted
    case Starts => wanted <= value
    case Ends => |wanted| <= |value| && value[|value| - |wanted|..] == wanted
  }

  predicate AllMatch(how: Match, attrs: Attributes, ev: Event) {
    forall k <- attrs :: k in ev && Matches(how, ev[k], attrs[k])
  }

  /** Every dialect that is set must hold; an empty spec accepts. */
  predicate Meaning(sql: Cesql, s: Spec, ev: Event) {
    && AllMatch(Exactly, s.exact, ev) && AllMatch(Starts, s.prefix, ev) && AllMatch(Ends, s.suffix, ev)
    && (forall i | 0 <= i < |s.all| :: Meaning(sql, s.all[i], ev))
    && (s.any != [] ==> exists i | 0 <= i < |s.any| :: Meaning(sql, s.any[i], ev))
    && (s.not.Some? ==> !Meaning(sql, s.not.value, ev))
    && (s.cesql != "" ==> sql.holds(s.cesql, ev))
  }

  /** How many dialects a spec sets. */
  function Dialects(s: Spec): nat {
    (if s.exact != map[] then 1 else 0) + (if s.prefix != map[] then 1 else 0) + (if s.suffix != map[] then 1 else 0)
    + (if s.all != [] then 1 else 0) + (if s.any != [] then 1 else 0)
    + (if s.not.Some? then 1 else 0) + (if s.cesql != "" then 1 else 0)
  }

  predicate NoEmpty(attrs: Attributes) { forall k <- attrs :: k != "" && attrs[k] != "" }

  // ---------- runnable filters ----------

  datatype Filter =
    | AttributesFilter(how: Match, attrs: Attributes)
    | CesqlFilter(expr: string)
    | NotFilter(inner: Option<Filter>)
    | AllFilter(filters: seq<Filter>)
    | AnyFilter(filters: seq<Filter>)
    | PassThrough

  function NewAttributesFilter(how: Match, attrs: Attributes): Option<Filter> {
    if NoEmpty(attrs) then Some(AttributesFilter(how, attrs)) else None
  }

  /** An attributes filter is refused exactly if some name or value is empty. */
  lemma AttributesRefusedIff(how: Match, attrs: Attributes)
    ensures NewAttributesFilter(how, attrs) == None <==> exists k :: k in attrs && (k == "" || attrs[k] == "")
    ensures NewAttributesFilter(how, attrs) in {None, Some(AttributesFilter(how, attrs))}
  {
  }

  function NewAllFilter(fs: seq<Filter>): Filter { if |fs| == 1 then fs[0] else AllFilter(fs) }
  function NewAnyFilter(fs: seq<Filter>): Filter { if |fs| == 1 then fs[0] else AnyFilter(fs) }

  /** MaterializeSubscriptionsAPIFilter: the first dialect that is set wins; None is its nil result. */
  function Materialize(sql: Cesql, s: Spec): Option<Filter>
    decreases s, 1
  {
    if s.exact != map[] then NewAttributesFilter(Exactly, s.exact)
    else if s.prefix != map[] then NewAttributesFilter(Starts, s.prefix)
    else if s.suffix != map[] then NewAttributesFilter(Ends, s.suffix)
    else if s.all != [] then Some(NewAllFilter(MaterializeList(sql, s.all)))
    else if s.any != [] then Some(NewAnyFilter(MaterializeList(sql, s.any)))
    else if s.not.Some? then Some(NotFilter(Materialize(sql, s.not.value)))
    else if s.cesql != "" && sql.parses(s.cesql) then Some(CesqlFilter(s.cesql))
    else None
  }

  /** MaterializeFiltersList: a spec that gives no filter is skipped. */
  function MaterializeList(sql: Cesql, specs: seq<Spec>): seq<Filter>
    decreases specs, 0
  {
    if specs == [] then []
    else
      var f := Materialize(sql, specs[|specs| - 1]);
      MaterializeList(sql, specs[..|specs| - 1]) + if f.Some? then [f.value] else []
  }

  /** The loop of MaterializeFiltersList. */
  method MaterializeFiltersList(sql: Cesql, specs: seq<Spec>) returns (fs: seq<Filter>)
    ensures fs == MaterializeList(sql, specs)
  {
    fs := [];
    for i := 0 to |specs|
      invariant fs == MaterializeList(sql, specs[..i])
    {
      assert specs[..i + 1][..i] == specs[..i];
      var f := Materialize(sql, specs[i]);
      if f.Some? {
        fs := fs + [f.value];
      }
    }
    assert specs[..|specs|] == specs;
  }

  /** CreateSubscriptionsAPIFilters: what a trigger's filters become. */
  function Create(sql: Cesql, specs: seq<Spec>): Filter {
    if specs == [] then PassThrough else NewAllFilter(MaterializeList(sql, specs))
  }

  /** The value is a, and then b. */
  predicate WithRest(value: string, a: string, b: string) { value == a + b }

  lemma StartsAndEnds(value: string, wanted: string)
    ensures Matches(Starts, value, wanted) <==> exists rest: string :: WithRest(value, wanted, rest)
    ensures Matches(Ends, value, wanted) <==> exists front: string :: WithRest(value, front, wanted)
  {
    if Matches(Starts, value, wanted) {
      assert WithRest(value, wanted, value[|wanted|..]);
    }
    if Matches(Ends, value, wanted) {
      assert WithRest(value, value[..|value| - |wanted|], wanted);
    }
  }

  /** The loop of the exact, prefix and suffix filters, over a map in any order. */
  method RunAttributes(how: Match, attrs: Attributes, ev: Event) returns (r: FilterResult)
    ensures r == Verdict(AllMatch(how, attrs, ev))
    ensures r == PassFilter || r == FailFilter
    ensures how == Exactly ==> (r == PassFilter <==> forall k <- attrs :: k in ev && ev[k] == attrs[k])
    ensures how == Starts ==>
      (r == PassFilter <==> forall k <- attrs :: k in ev && exists rest: string :: WithRest(ev[k], attrs[k], rest))
    ensures how == Ends ==>
      (r == PassFilter <==> forall k <- attrs :: k in ev && exists front: string :: WithRest(ev[k], front, attrs[k]))
  {
    forall value, wanted {
      StartsAndEnds(value, wanted);
    }
    var todo := attrs.Keys;
    while todo != {}
      invariant todo <= attrs.Keys
      invariant forall k <- attrs.Keys - todo :: k in ev && Matches(how, ev[k], attrs[k])
    {
      var k :| k in todo;
      if k !in ev || !Matches(how, ev[k], attrs[k]) {
        return FailFilter;
      }
      todo := todo - {k};
    }
    r := PassFilter;
  }

  /** What a node answers when its filters give rs from first to last: the stop value, or the last. */
  function RunUntil(stop: FilterResult, rs: seq<FilterResult>): FilterResult {
    if stop in rs then stop else if rs == [] then NoFilter else rs[|rs| - 1]
  }

  function Negate(r: FilterResult): FilterResult {
    match r case FailFilter => PassFilter case PassFilter => FailFilter case NoFilter => NoFilter
  }

  /** p lists 0..n-1, each once. */
  predicate IsPerm(p: seq<nat>, n: nat) {
    |p| == n && (forall i | 0 <= i < n :: p[i] < n) && (forall j | 0 <= j < n :: j in p)
  }

  function Permute(rs: seq<FilterResult>, p: seq<nat>): seq<FilterResult>
    requires IsPerm(p, |rs|)
  {
    seq(|rs|, i requires 0 <= i < |rs| => rs[p[i]])
  }

  ghost predicate NodeAnswers(stop: FilterResult, rs: seq<FilterResult>, r: FilterResult) {
    exists p :: IsPerm(p, |rs|) && r == RunUntil(stop, Permute(rs, p))
  }

  /** f can answer r: at each All and Any node the filters stand in some order when it is read. */
  ghost predicate Answers(sql: Cesql, f: Filter, ev: Event, r: FilterResult)
    decreases f, 1
  {
    match f
    case AttributesFilter(how, attrs) => r == Verdict(AllMatch(how, attrs, ev))
    case CesqlFilter(expr) => r == Verdict(sql.holds(expr, ev))
    case NotFilter(None) => r == NoFilter
    case NotFilter(Some(inner)) => exists s :: Answers(sql, inner, ev, s) && r == Negate(s)
    case AllFilter(fs) => exists rs :: EachAnswers(sql, fs, ev, rs) && NodeAnswers(FailFilter, rs, r)
    case AnyFilter(fs) => exists rs :: EachAnswers(sql, fs, ev, rs) && NodeAnswers(PassFilter, rs, r)
    case PassThrough => r == NoFilter
  }

  ghost predicate EachAnswers(sql: Cesql, fs: seq<Filter>, ev: Event, rs: seq<FilterResult>)
    decreases fs, 0
  {
    |rs| == |fs| && forall i | 0 <= i < |fs| :: Answers(sql, fs[i], ev, rs[i])
  }

  // ---------- order of the filters at one node ----------

  lemma PermuteKeepsMembers(rs: seq<FilterResult>, p: seq<nat>)
    requires IsPerm(p, |rs|)
    ensures forall r :: r in Permute(rs, p) <==> r in rs
  {
    var q := Permute(rs, p);
    forall r | r in rs ensures r in q {
      var j :| 0 <= j < |rs| && rs[j] == r;
      assert j in p;
      var i :| 0 <= i < |p| && p[i] == j;
      assert q[i] == r;
    }
  }

  /** Whatever the filters, "All gives Fail" and "Any gives Pass" do not depend on the order. */
  lemma StopIsOrderIndependent(stop: FilterResult, rs: seq<FilterResult>, p: seq<nat>)
    requires IsPerm(p, |rs|) && stop != NoFilter
    ensures RunUntil(stop, Permute(rs, p)) == stop <==> stop in rs
  {
    PermuteKeepsMembers(rs, p);
  }

  /** An order that ends with filter j. */
  function EndingWith(j: nat, n: nat): seq<nat>
    requires j < n
  {
    seq(n, i requires 0 <= i < n => if i == n - 1 then j else if i < j then i else i + 1)
  }

  lemma EndingWithIsPerm(j: nat, n: nat)
    requires j < n
    ensures IsPerm(EndingWith(j, n), n) && EndingWith(j, n)[n - 1] == j
  {
    var p := EndingWith(j, n);
    forall k | 0 <= k < n ensures k in p {
      var i := if k == j then n - 1 else if k < j then k else k - 1;
      assert p[i] == k;
    }
  }

  /** The whole answer is order-independent exactly when some filter stops the node or all agree. */
  lemma AnswerOrderIndependentIff(stop: FilterResult, rs: seq<FilterResult>)
    ensures (forall r, s :: NodeAnswers(stop, rs, r) && NodeAnswers(stop, rs, s) ==> r == s)
            <==> stop in rs || forall i, j | 0 <= i < j < |rs| :: rs[i] == rs[j]
  {
    forall p | IsPerm(p, |rs|)
      ensures RunUntil(stop, Permute(rs, p))
           == if stop in rs then stop else if rs == [] then NoFilter else rs[p[|rs| - 1]]
    {
      PermuteKeepsMembers(rs, p);
    }
    if stop !in rs {
      forall i, j | 0 <= i < j < |rs|
        ensures NodeAnswers(stop, rs, rs[i]) && NodeAnswers(stop, rs, rs[j])
      {
        EndingWithIsPerm(i, |rs|);
        EndingWithIsPerm(j, |rs|);
      }
      forall r, s | (forall i, j | 0 <= i < j < |rs| :: rs[i] == rs[j])
                    && NodeAnswers(stop, rs, r) && NodeAnswers(stop, rs, s)
        ensures r == s
      {
        if rs != [] {
          assert forall i | 0 <= i < |rs| :: rs[i] == rs[0];
        }
      }
    }
  }
}
