/**
  EventTypes and the transforms that lineage edges carry (pkg/graph/transforms.go).  An
  EventType is an object: two of the transforms write into the one they are given.
 */
module Transforms {
  import opened Wrappers
  import opened Templates

  datatype AttributeDefinition = AttributeDefinition(name: string, value: string, required: bool)

  class EventType {
    var attributes: seq<AttributeDefinition>

    constructor (attributes: seq<AttributeDefinition>)
      ensures this.attributes == attributes
    {
      this.attributes := attributes;
    }

    method DeepCopy() returns (c: EventType)
      ensures fresh(c) && c.attributes == attributes
    {
      c := new EventType(attributes);
    }
  }

  type Attributes = map<string, AttributeDefinition>

  /** The attribute each name stands for: the last definition with that name wins. */
  function ByName(attrs: seq<AttributeDefinition>): Attributes {
    if attrs == [] then map[]
    else var a := attrs[|attrs| - 1]; ByName(attrs[..|attrs| - 1])[a.name := a]
  }

  predicate UniqueNames(attrs: seq<AttributeDefinition>) {
    forall i, j | 0 <= i < j < |attrs| :: attrs[i].name != attrs[j].name
  }

  /** buildRegexForAttribute(template) compiles and its expression matches value. */
  predicate PatternMatches(lib: RegexLib, template: string, value: string) {
    var p := PatternFor(template);
    p.Some? && lib(p.value, value) == Some(true)
  }

  predicate Compatible(lib: RegexLib, existing: string, wanted: string) {
    existing == wanted || PatternMatches(lib, existing, wanted)
  }

  /** No attribute already present rules out a value the filter asks for. */
  predicate Passes(lib: RegexLib, m: Attributes, filter: map<string, string>) {
    PassesExcept(lib, m, filter, {})
  }

  predicate PassesExcept(lib: RegexLib, m: Attributes, filter: map<string, string>, todo: set<string>) {
    forall k <- filter | k in m && k !in todo :: Compatible(lib, m[k].value, filter[k])
  }

  /** The attributes of m with the values in `values` written over them or added as required. */
  function Overwrite(m: Attributes, values: map<string, string>): Attributes {
    map k | k in m.Keys + values.Keys ::
      if k !in values then m[k]
      else if k in m then m[k].(value := values[k])
      else AttributeDefinition(k, values[k], true)
  }

  /** Present names keep all but their value, absent ones are added as required, and other names are untouched. */
  ghost predicate Written(was: Attributes, values: map<string, string>, now: Attributes) {
    && (forall k :: k in now <==> k in was || k in values)
    && (forall k | k in was && k !in values :: now[k] == was[k])
    && (forall k | k in was && k in values ::
          now[k] == AttributeDefinition(was[k].name, values[k], was[k].required))
    && (forall k | k !in was && k in values :: now[k] == AttributeDefinition(k, values[k], true))
  }

  // ---------- the loops shared by the two writing transforms ----------

  /** Where each name's last attribute sits in the list: what the map of pointers records. */
  ghost predicate Locates(at: map<string, nat>, attrs: seq<AttributeDefinition>, m: Attributes) {
    && at.Keys == m.Keys
    && (forall k <- at :: at[k] < |attrs| && attrs[at[k]] == m[k] && m[k].name == k)
    && forall j | 0 <= j < |attrs| :: NotAfter(at, attrs[j].name, j)
  }

  ghost predicate NotAfter(at: map<string, nat>, name: string, j: nat) { name in at && j <= at[name] }

  lemma {:induction false} ByNameLast(attrs: seq<AttributeDefinition>, j: nat)
    requires j < |attrs| && forall i | j < i < |attrs| :: attrs[i].name != attrs[j].name
    ensures attrs[j].name in ByName(attrs) && ByName(attrs)[attrs[j].name] == attrs[j]
  {
    if j < |attrs| - 1 {
      ByNameLast(attrs[..|attrs| - 1], j);
    }
  }

  lemma {:induction false} ByNameKeys(attrs: seq<AttributeDefinition>, k: string)
    requires k in ByName(attrs)
    ensures exists j :: 0 <= j < |attrs| && attrs[j].name == k
  {
    if attrs[|attrs| - 1].name != k {
      ByNameKeys(attrs[..|attrs| - 1], k);
    }
  }

  /** Located attributes are the ones the list stands for. */
  lemma LocatedByName(at: map<string, nat>, attrs: seq<AttributeDefinition>, m: Attributes)
    requires Locates(at, attrs, m)
    ensures ByName(attrs) == m
  {
    forall k | k in m ensures k in ByName(attrs) && ByName(attrs)[k] == m[k] {
      ByNameLast(attrs, at[k]);
    }
    forall k | k in ByName(attrs) ensures k in m {
      ByNameKeys(attrs, k);
    }
  }

  lemma LocatesSnoc(at: map<string, nat>, attrs: seq<AttributeDefinition>, m: Attributes, a: AttributeDefinition)
    requires Locates(at, attrs, m)
    ensures Locates(at[a.name := |attrs|], attrs + [a], m[a.name := a])
  {
    var at', more := at[a.name := |attrs|], attrs + [a];
    forall j | 0 <= j < |more| ensures NotAfter(at', more[j].name, j) {
      assert j < |attrs| ==> NotAfter(at, attrs[j].name, j);
    }
  }

  method IndexAttributes(attrs: seq<AttributeDefinition>) returns (at: map<string, nat>)
    ensures Locates(at, attrs, ByName(attrs))
  {
    at := map[];
    for i := 0 to |attrs|
      invariant Locates(at, attrs[..i], ByName(attrs[..i]))
    {
      LocatesSnoc(at, attrs[..i], ByName(attrs[..i]), attrs[i]);
      assert attrs[..i] + [attrs[i]] == attrs[..i + 1] && attrs[..i + 1][..i] == attrs[..i];
      at := at[attrs[i].name := i];
    }
    assert attrs[..|attrs|] == attrs;
  }

  /** Lists the attributes of m, each once, in whatever order the map is walked. */
  method ListAttributes(m: Attributes) returns (attrs: seq<AttributeDefinition>)
    requires forall k <- m :: m[k].name == k
    ensures UniqueNames(attrs) && ByName(attrs) == m && |attrs| == |m|
  {
    attrs := [];
    var todo := m.Keys;
    while todo != {}
      invariant todo <= m.Keys && UniqueNames(attrs) && |attrs| + |todo| == |m|
      invariant ByName(attrs) == map k | k in m.Keys - todo :: m[k]
      invariant forall i | 0 <= i < |attrs| :: attrs[i].name in m.Keys - todo
    {
      var k :| k in todo;
      todo := todo - {k};
      assert (attrs + [m[k]])[..|attrs|] == attrs;
      attrs := attrs + [m[k]];
    }
  }

  /** m with the values of every filter name that is not in todo already written. */
  ghost function WrittenSoFar(m: Attributes, values: map<string, string>, todo: set<string>): Attributes {
    map k | k in m :: if k in values && k !in todo then m[k].(value := values[k]) else m[k]
  }

  function Added(m: Attributes, values: map<string, string>, todo: set<string>): Attributes {
    map k | k in values && k !in todo && k !in m :: AttributeDefinition(k, values[k], true)
  }

  /** The state of the writing loop: names outside todo are dealt with, in place or in added. */
  ghost predicate Progress(m: Attributes, values: map<string, string>, todo: set<string>,
                           at: map<string, nat>, attrs: seq<AttributeDefinition>, added: Attributes) {
    Locates(at, attrs, WrittenSoFar(m, values, todo)) && added == Added(m, values, todo)
  }

  lemma WriteInPlace(m: Attributes, values: map<string, string>, todo: set<string>,
                     at: map<string, nat>, attrs: seq<AttributeDefinition>, added: Attributes, k: string)
    requires Progress(m, values, todo, at, attrs, added) && k in todo && k in values && k in at
    ensures Progress(m, values, todo - {k}, at, attrs[at[k] := attrs[at[k]].(value := values[k])], added)
    ensures attrs[at[k]] == m[k]
  {
    var w := WrittenSoFar(m, values, todo);
    assert forall n <- at | n != k :: at[n] != at[k] by {
      assert forall n <- at :: attrs[at[n]].name == w[n].name == n;
    }
  }

  lemma AddNew(m: Attributes, values: map<string, string>, todo: set<string>,
               at: map<string, nat>, attrs: seq<AttributeDefinition>, added: Attributes, k: string)
    requires Progress(m, values, todo, at, attrs, added) && k in todo && k in values && k !in at
    ensures Progress(m, values, todo - {k}, at, attrs, added[k := AttributeDefinition(k, values[k], true)])
  {
    assert WrittenSoFar(m, values, todo - {k}) == WrittenSoFar(m, values, todo);
    assert Added(m, values, todo - {k}) == Added(m, values, todo)[k := AttributeDefinition(k, values[k], true)];
  }

  lemma AllWritten(m: Attributes, values: map<string, string>,
                   at: map<string, nat>, attrs: seq<AttributeDefinition>, added: Attributes)
    requires Progress(m, values, {}, at, attrs, added)
    ensures (map k | k in at :: attrs[at[k]]) + added == Overwrite(m, values)
  {
  }

  /** The last loop of both: the attributes that were there and those added become the new list. */
  method StoreAll(et: EventType, at: map<string, nat>, added: Attributes, ghost m: Attributes,
                  ghost values: map<string, string>)
    requires Progress(m, values, {}, at, et.attributes, added)
    modifies et
    ensures ByName(et.attributes) == Overwrite(m, values) && UniqueNames(et.attributes)
  {
    AllWritten(m, values, at, et.attributes, added);
    et.attributes := ListAttributes((map k | k in at :: et.attributes[at[k]]) + added);
  }

  /** The values of some compatible names, all but those in a set, have been written over m. */
  ghost predicate PartlyWritten(lib: RegexLib, m: Attributes, values: map<string, string>,
                                now: Attributes) {
    exists todo :: PassesExcept(lib, m, values, todo) && now == WrittenSoFar(m, values, todo)
  }

  // ---------- the order in which a filter's map is walked ----------

  /** Each name of the set, once. */
  predicate IsOrder(order: seq<string>, names: set<string>) {
    && (forall i, j | 0 <= i < j < |order| :: order[i] != order[j])
    && Names(order) == names
  }

  function Names(order: seq<string>): set<string> { set k | k in order }

  method WalkNames(names: set<string>) returns (order: seq<string>)
    ensures IsOrder(order, names)
  {
    order := [];
    var todo := names;
    while todo != {}
      invariant todo <= names && IsOrder(order, names - todo)
    {
      var k :| k in todo;
      OrdersJoined(order, names - todo, [k], {k});
      assert names - todo + {k} == names - (todo - {k});
      todo := todo - {k};
      order := order + [k];
    }
  }

  /** The filter does not refuse for the sake of this name. */
  predicate Fits(lib: RegexLib, m: Attributes, filter: map<string, string>, k: string) {
    k in m && k in filter ==> Compatible(lib, m[k].value, filter[k])
  }

  /** How many names the walk gets through before one refuses. */
  function Fitting(lib: RegexLib, m: Attributes, filter: map<string, string>, order: seq<string>): (n: nat)
    ensures n <= |order| && (forall i | 0 <= i < n :: Fits(lib, m, filter, order[i]))
    ensures n < |order| ==> !Fits(lib, m, filter, order[n])
  {
    if order == [] || !Fits(lib, m, filter, order[0]) then 0 else 1 + Fitting(lib, m, filter, order[1..])
  }

  /** What a walk in this order leaves in the EventType if it is refused. */
  ghost function LeftByWalk(lib: RegexLib, m: Attributes, filter: map<string, string>, order: seq<string>): Attributes {
    WrittenSoFar(m, filter, Names(order[Fitting(lib, m, filter, order)..]))
  }

  lemma WalkPassesIff(lib: RegexLib, m: Attributes, filter: map<string, string>, order: seq<string>)
    requires IsOrder(order, filter.Keys)
    ensures Passes(lib, m, filter) <==> Fitting(lib, m, filter, order) == |order|
  {
    var n := Fitting(lib, m, filter, order);
    assert forall i | 0 <= i < |order| :: order[i] in Names(order);
    if n == |order| {
      forall k | k in filter && k in m ensures Compatible(lib, m[k].value, filter[k]) {
        assert k in Names(order);
      }
    }
  }

  /** A walk refused at its name n, with todo still to come, has written all but todo. */
  lemma RefusedAt(lib: RegexLib, m: Attributes, filter: map<string, string>, order: seq<string>, n: nat,
                  todo: set<string>)
    requires n < |order| && (forall i | 0 <= i < n :: Fits(lib, m, filter, order[i])) && !Fits(lib, m, filter, order[n])
    requires forall k <- filter :: k in order[n..] <==> k in todo
    ensures LeftByWalk(lib, m, filter, order) == WrittenSoFar(m, filter, todo)
  {
    assert Fitting(lib, m, filter, order) == n;
    assert forall k <- filter :: k in Names(order[n..]) <==> k in todo;
  }

  lemma {:induction false} OrderExists(names: set<string>) returns (order: seq<string>)
    ensures IsOrder(order, names)
  {
    if names == {} {
      order := [];
    } else {
      var k :| k in names;
      var rest := OrderExists(names - {k});
      OrdersJoined([k], {k}, rest, names - {k});
      assert {k} + (names - {k}) == names;
      order := [k] + rest;
    }
  }

  lemma OrdersJoined(a: seq<string>, names: set<string>, b: seq<string>, others: set<string>)
    requires IsOrder(a, names) && IsOrder(b, others) && names !! others
    ensures IsOrder(a + b, names + others)
  {
    assert forall i | 0 <= i < |a| :: a[i] in Names(a);
    assert forall i | 0 <= i < |b| :: b[i] in Names(b);
    assert Names(a + b) == names + others;
  }

  lemma RefusedByWalk(lib: RegexLib, m: Attributes, filter: map<string, string>, order: seq<string>)
    requires IsOrder(order, filter.Keys)
    ensures PartlyWritten(lib, m, filter, LeftByWalk(lib, m, filter, order))
  {
    var n := Fitting(lib, m, filter, order);
    var todo := Names(order[n..]);
    forall k | k in filter && k in m && k !in todo ensures Compatible(lib, m[k].value, filter[k]) {
      assert k in Names(order);
      var i :| 0 <= i < |order| && order[i] == k;
      assert Fits(lib, m, filter, order[i]);
    }
    assert PassesExcept(lib, m, filter, todo);
  }

  /** The order that walks first through the names outside todo, and then is refused. */
  lemma RefusingOrder(lib: RegexLib, m: Attributes, filter: map<string, string>, todo: set<string>)
      returns (order: seq<string>)
    requires !Passes(lib, m, filter) && PassesExcept(lib, m, filter, todo)
    ensures IsOrder(order, filter.Keys) && LeftByWalk(lib, m, filter, order) == WrittenSoFar(m, filter, todo)
  {
    var bad :| bad in filter && bad in m && !Compatible(lib, m[bad].value, filter[bad]);
    var first := OrderExists(filter.Keys - todo);
    var rest := OrderExists(filter.Keys * todo - {bad});
    OrdersJoined([bad], {bad}, rest, filter.Keys * todo - {bad});
    OrdersJoined(first, filter.Keys - todo, [bad] + rest, {bad} + (filter.Keys * todo - {bad}));
    order := first + ([bad] + rest);
    assert filter.Keys - todo + ({bad} + (filter.Keys * todo - {bad})) == filter.Keys;
    forall i | 0 <= i < |first| ensures Fits(lib, m, filter, order[i]) {
      assert first[i] in Names(first);
    }
    assert order[|first|] == bad && order[|first|..] == [bad] + rest;
    forall k | k in filter ensures k in [bad] + rest <==> k in todo {
      assert k in rest <==> k in Names(rest);
    }
    RefusedAt(lib, m, filter, order, |first|, todo);
  }

  /**
    A refused filter can leave exactly the partly written attributes: each of them is what some walk
    of its map leaves, and no walk leaves anything else.
   */
  lemma RefusalLeavesIff(lib: RegexLib, m: Attributes, filter: map<string, string>, now: Attributes)
    requires !Passes(lib, m, filter)
    ensures PartlyWritten(lib, m, filter, now)
       <==> exists order :: IsOrder(order, filter.Keys) && now == LeftByWalk(lib, m, filter, order)
  {
    if todo :| PassesExcept(lib, m, filter, todo) && now == WrittenSoFar(m, filter, todo) {
      var order := RefusingOrder(lib, m, filter, todo);
    }
    if order :| IsOrder(order, filter.Keys) && now == LeftByWalk(lib, m, filter, order) {
      RefusedByWalk(lib, m, filter, order);
    }
  }

  /** A refusal changes nothing, in whatever order, iff no present name is to get a compatible but different value. */
  lemma RefusalUnchangedIff(lib: RegexLib, m: Attributes, filter: map<string, string>)
    ensures (forall now :: PartlyWritten(lib, m, filter, now) ==> now == m)
       <==> forall k <- filter | k in m && Compatible(lib, m[k].value, filter[k]) :: m[k].value == filter[k]
  {
    if k :| k in filter && k in m && Compatible(lib, m[k].value, filter[k]) && m[k].value != filter[k] {
      var todo := filter.Keys - {k};
      var now := WrittenSoFar(m, filter, todo);
      assert PassesExcept(lib, m, filter, todo) && PartlyWritten(lib, m, filter, now);
      assert now[k].value != m[k].value;
    }
  }

  /** The loop body for a name that is present: compare, match the template, write the value. */
  method WriteIfCompatible(lib: RegexLib, i: nat, wanted: string, et: EventType) returns (ok: bool)
    requires i < |et.attributes|
    modifies et
    ensures ok == Compatible(lib, old(et.attributes[i].value), wanted)
    ensures et.attributes
         == if ok then old(et.attributes)[i := old(et.attributes[i]).(value := wanted)] else old(et.attributes)
  {
    var attribute := et.attributes[i];
    if attribute.value != wanted {
      var pattern := BuildRegexForAttribute(attribute.value);
      if pattern.None? || lib(pattern.value, wanted) != Some(true) {
        return false;
      }
      et.attributes := et.attributes[i := attribute.(value := wanted)];
    }
    ok := true;
  }

  /** One turn of AttributesFilterTransform.Apply's loop; todo holds the names not yet walked. */
  method VisitName(lib: RegexLib, filter: map<string, string>, k: string, at: map<string, nat>, added: Attributes,
                   et: EventType, ghost m: Attributes, ghost todo: set<string>) returns (ok: bool, more: Attributes)
    requires Progress(m, filter, todo, at, et.attributes, added) && k in todo && k in filter
    modifies et
    ensures ok <==> Fits(lib, m, filter, k)
    ensures ok ==> Progress(m, filter, todo - {k}, at, et.attributes, more)
    ensures !ok ==> ByName(et.attributes) == WrittenSoFar(m, filter, todo)
  {
    more := added;
    if k in at {
      WriteInPlace(m, filter, todo, at, et.attributes, added, k);
      LocatedByName(at, et.attributes, WrittenSoFar(m, filter, todo));
      ok := WriteIfCompatible(lib, at[k], filter[k], et);
    } else {
      AddNew(m, filter, todo, at, et.attributes, added, k);
      more := added[k := AttributeDefinition(k, filter[k], true)];
      ok := true;
    }
  }

  /** AttributesFilterTransform.Apply's loop, for one order of its map. */
  method WalkAll(lib: RegexLib, filter: map<string, string>, order: seq<string>, at: map<string, nat>,
                 et: EventType, ghost m: Attributes) returns (ok: bool, added: Attributes)
    requires IsOrder(order, filter.Keys) && Progress(m, filter, filter.Keys, at, et.attributes, map[])
    modifies et
    ensures ok <==> Fitting(lib, m, filter, order) == |order|
    ensures ok ==> Progress(m, filter, {}, at, et.attributes, added)
    ensures !ok ==> ByName(et.attributes) == LeftByWalk(lib, m, filter, order)
  {
    ok, added := true, map[];
    ghost var todo := filter.Keys;
    assert order[0..] == order;
    for i := 0 to |order|
      invariant ok && todo == Names(order[i..]) && i <= Fitting(lib, m, filter, order)
      invariant Progress(m, filter, todo, at, et.attributes, added)
    {
      NextName(order, filter.Keys, i);
      FittingStep(lib, m, filter, order, i);
      ok, added := VisitName(lib, filter, order[i], at, added, et, m, todo);
      if !ok {
        return;
      }
      todo := todo - {order[i]};
    }
    assert todo == {};
  }

  /** AttributesFilterTransform.Apply with its filter walked in the given order; false is its nil result. */
  method ApplyInOrder(lib: RegexLib, filter: map<string, string>, order: seq<string>, et: EventType) returns (ok: bool)
    requires IsOrder(order, filter.Keys)
    modifies et
    ensures ok <==> Passes(lib, ByName(old(et.attributes)), filter)
    ensures ok ==> ByName(et.attributes) == Overwrite(ByName(old(et.attributes)), filter) && UniqueNames(et.attributes)
    ensures !ok ==> ByName(et.attributes) == LeftByWalk(lib, ByName(old(et.attributes)), filter, order)
  {
    ghost var m := ByName(et.attributes);
    WalkPassesIff(lib, m, filter, order);
    var at := IndexAttributes(et.attributes);
    assert WrittenSoFar(m, filter, filter.Keys) == m;
    var added: Attributes;
    ok, added := WalkAll(lib, filter, order, at, et, m);
    if ok {
      StoreAll(et, at, added, m, filter);
    }
  }

  lemma FittingStep(lib: RegexLib, m: Attributes, filter: map<string, string>, order: seq<string>, i: nat)
    requires i < |order| && i <= Fitting(lib, m, filter, order)
    ensures
      if Fits(lib, m, filter, order[i]) then i < Fitting(lib, m, filter, order)
      else i == Fitting(lib, m, filter, order)
  {
  }

  lemma NextName(order: seq<string>, names: set<string>, i: nat)
    requires IsOrder(order, names) && i < |order|
    ensures order[i] in Names(order[i..]) && order[i] in names
    ensures Names(order[i + 1..]) == Names(order[i..]) - {order[i]}
  {
    assert order[i] in order && order[i..] == [order[i]] + order[i + 1..];
  }

  /** AttributesFilterTransform.Apply: its filter is a map, walked in some order. */
  method ApplyAttributesFilter(lib: RegexLib, filter: map<string, string>, et: EventType) returns (ok: bool)
    modifies et
    ensures ok <==> Passes(lib, ByName(old(et.attributes)), filter)
    ensures ok ==> ByName(et.attributes) == Overwrite(ByName(old(et.attributes)), filter) && UniqueNames(et.attributes)
    ensures !ok ==> PartlyWritten(lib, ByName(old(et.attributes)), filter, ByName(et.attributes))
    ensures
      var was, now := ByName(old(et.attributes)), ByName(et.attributes);
      && (ok <==> forall k <- filter | k in was ::
            was[k].value == filter[k]
            || (var p := PatternFor(was[k].value); p.Some? && lib(p.value, filter[k]) == Some(true)))
      && (ok ==> Written(was, filter, now))
  {
    ghost var m := ByName(et.attributes);
    var order := WalkNames(filter.Keys);
    ok := ApplyInOrder(lib, filter, order, et);
    RefusedByWalk(lib, m, filter, order);
  }

  /** A filter that passed passes again and changes nothing. */
  method ApplyTwice(lib: RegexLib, filter: map<string, string>, et: EventType) returns (ok: bool, again: bool)
    modifies et
    ensures ok <==> Passes(lib, ByName(old(et.attributes)), filter)
    ensures ok ==> again && ByName(et.attributes) == Overwrite(ByName(old(et.attributes)), filter)
  {
    ghost var m := ByName(et.attributes);
    ok := ApplyAttributesFilter(lib, filter, et);
    again := ApplyAttributesFilter(lib, filter, et);
    FilterIdempotent(lib, m, filter);
  }

  /** CloudEventOverridesTransform.Apply, which never refuses. */
  method ApplyOverrides(extensions: map<string, string>, et: EventType)
    modifies et
    ensures ByName(et.attributes) == Overwrite(ByName(old(et.attributes)), extensions) && UniqueNames(et.attributes)
    ensures Written(ByName(old(et.attributes)), extensions, ByName(et.attributes))
  {
    ghost var m := ByName(et.attributes);
    var at := IndexAttributes(et.attributes);
    var added: Attributes := map[];
    var todo := extensions.Keys;
    assert WrittenSoFar(m, extensions, todo) == m;
    while todo != {}
      invariant todo <= extensions.Keys
      invariant Progress(m, extensions, todo, at, et.attributes, added)
    {
      var k :| k in todo;
      if k in at {
        WriteInPlace(m, extensions, todo, at, et.attributes, added, k);
        et.attributes := et.attributes[at[k] := et.attributes[at[k]].(value := extensions[k])];
      } else {
        AddNew(m, extensions, todo, at, et.attributes, added, k);
        added := added[k := AttributeDefinition(k, extensions[k], true)];
      }
      todo := todo - {k};
    }
    StoreAll(et, at, added, m, extensions);
  }

  /** A filter applied to its own result passes and changes nothing. */
  lemma FilterIdempotent(lib: RegexLib, m: Attributes, filter: map<string, string>)
    ensures Passes(lib, Overwrite(m, filter), filter)
    ensures Overwrite(Overwrite(m, filter), filter) == Overwrite(m, filter)
  {
  }

  /** Two names, of which b refuses: a is written if the walk comes to it first. */
  lemma TwoNames(lib: RegexLib, m: Attributes, filter: map<string, string>, a: string, b: string)
    requires a != b && filter.Keys == {a, b} && Fits(lib, m, filter, a) && !Fits(lib, m, filter, b)
    ensures IsOrder([a, b], filter.Keys) && LeftByWalk(lib, m, filter, [a, b]) == WrittenSoFar(m, filter, {b})
    ensures IsOrder([b, a], filter.Keys) && LeftByWalk(lib, m, filter, [b, a]) == m
  {
    assert [a, b][1..] == [b] && [b, a][0..] == [b, a];
    RefusedAt(lib, m, filter, [a, b], 1, {b});
    RefusedAt(lib, m, filter, [b, a], 0, {a, b});
  }

  lemma OneWritten(m: Attributes, filter: map<string, string>, a: string, b: string)
    requires a != b && filter.Keys == {a, b} && a in m
    ensures WrittenSoFar(m, filter, {b}) == m[a := m[a].(value := filter[a])]
  {
  }

  /**
    Attributes a: {v} and b: 1 against the filter a: z, b: 2, for any two names: the refusal writes a
    if the walk comes to a first, and nothing if it comes to b first.
   */
  lemma RefusalWrites(lib: RegexLib, a: string, b: string)
    requires Standard(lib) && a != b
    ensures
      var m := map[a := AttributeDefinition(a, "{v}", true), b := AttributeDefinition(b, "1", true)];
      var filter := map[a := "z", b := "2"];
      && !Passes(lib, m, filter)
      && IsOrder([a, b], filter.Keys) && LeftByWalk(lib, m, filter, [a, b]) == m[a := AttributeDefinition(a, "z", true)]
      && IsOrder([b, a], filter.Keys) && LeftByWalk(lib, m, filter, [b, a]) == m
  {
    var m := map[a := AttributeDefinition(a, "{v}", true), b := AttributeDefinition(b, "1", true)];
    var filter := map[a := "z", b := "2"];
    ZFitsVariable(lib);
    TwoDoesNotFitOne(lib);
    assert b in filter && b in m;
    TwoNames(lib, m, filter, a, b);
    OneWritten(m, filter, a, b);
  }

  lemma ZFitsVariable(lib: RegexLib)
    requires Standard(lib)
    ensures Compatible(lib, "{v}", "z")
  {
    var toks := [Var("v")];
    assert toks[1..] == [] && Render(toks) == "{v}";
    assert Vars(toks) == 1 && ["z"][1..] == [] && Fill(toks, ["z"]) == "z" && GoodValues(["z"]);
    TemplatePassesInstances(lib, toks, "z");
  }

  lemma TwoDoesNotFitOne(lib: RegexLib)
    requires Standard(lib)
    ensures !Compatible(lib, "1", "2")
  {
    var toks := [Lit('1')];
    assert toks[1..] == [] && Render(toks) == "1";
    TemplatePassesInstances(lib, toks, "2");
  }

  /**
    Sibling edges share the EventType: once one filter has set an attribute, a sibling that asks for
    another value is refused unless the first value admits it, although alone it would pass.
   */
  lemma SiblingSeesNarrowing(lib: RegexLib, name: string, first: string, second: string)
    ensures Passes(lib, map[], map[name := second])
    ensures Passes(lib, Overwrite(map[], map[name := first]), map[name := second]) <==> Compatible(lib, first, second)
  {
    var m := Overwrite(map[], map[name := first]);
    assert name in m && m[name].value == first;
    assert forall k <- map[name := second] :: k == name;
  }

  /** A template lets a filter value through iff it is one of the template's instances. */
  lemma TemplatePassesInstances(lib: RegexLib, toks: seq<Token>, wanted: string)
    requires Standard(lib) && Canonical(toks) && Plain(toks)
    ensures Compatible(lib, Render(toks), wanted) <==> wanted == Render(toks) || Instance(toks, wanted)
  {
    ParseComplete(toks);
    PlainAcceptsExactlyInstances(toks, wanted);
    StandardAccepts(lib, toks, wanted);
  }

  // ---------- the transform of an edge ----------

  datatype Transform =
    | NoTransform
    | AttributesFilterTransform(filter: map<string, string>)
    | EventTypeTransform(eventType: seq<AttributeDefinition>)
    | CloudEventOverridesTransform(extensions: map<string, string>)

  /** An edge passes attributes m on as `given`, and leaves `left` in the EventType it was handed. */
  ghost predicate Traversed(lib: RegexLib, t: Transform, m: Attributes, left: Attributes, given: Attributes) {
    match t
    case NoTransform => left == m && given == m
    case AttributesFilterTransform(filter) => Passes(lib, m, filter) && left == Overwrite(m, filter) && given == left
    case EventTypeTransform(eventType) => left == m && given == ByName(eventType)
    case CloudEventOverridesTransform(extensions) => left == Overwrite(m, extensions) && given == left
  }

  /** An edge cannot be traversed with attributes m; `left` is what its filter made of them all the same. */
  ghost predicate Refused(lib: RegexLib, t: Transform, m: Attributes, left: Attributes) {
    t.AttributesFilterTransform? && !Passes(lib, m, t.filter) && PartlyWritten(lib, m, t.filter, left)
  }

  /** Edge.Transform on a non-nil EventType; null is the "cannot be traversed" answer. */
  method Apply(lib: RegexLib, t: Transform, et: EventType) returns (r: EventType?)
    modifies et
    ensures r == null ==> Refused(lib, t, ByName(old(et.attributes)), ByName(et.attributes))
    ensures r != null ==> Traversed(lib, t, ByName(old(et.attributes)), ByName(et.attributes), ByName(r.attributes))
    ensures r != null ==> if t.EventTypeTransform? then fresh(r) else r == et
    ensures r != null ==>
      match t
      case NoTransform => et.attributes == old(et.attributes)
      case AttributesFilterTransform(filter) => Written(ByName(old(et.attributes)), filter, ByName(et.attributes))
      case EventTypeTransform(eventType) => et.attributes == old(et.attributes) && r.attributes == eventType
      case CloudEventOverridesTransform(values) => Written(ByName(old(et.attributes)), values, ByName(et.attributes))
  {
    match t
    case NoTransform => r := et;
    case AttributesFilterTransform(filter) =>
      var ok := ApplyAttributesFilter(lib, filter, et);
      r := if ok then et else null;
    case EventTypeTransform(eventType) => r := new EventType(eventType);
    case CloudEventOverridesTransform(extensions) =>
      ApplyOverrides(extensions, et);
      r := et;
  }
}
