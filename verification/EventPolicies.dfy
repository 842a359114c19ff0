/**
  EventPolicy matching (pkg/auth/event_policy.go): the policies of a resource, the resources of a
  policy, and the handler that enqueues what a policy change affects.
 */
module EventPolicies {
  import opened Wrappers
  import opened Text

  type Labels = map<string, string>

  datatype Reference = Reference(apiVersion: string, kind: string, name: string)
  datatype Selector = Selector(apiVersion: string, kind: string, labelSelector: string)
  datatype Target = Target(ref: Option<Reference>, selector: Option<Selector>)

  /** `to` is None for a nil slice, which Go tells apart from an empty one. */
  datatype Policy = Policy(namespace: string, name: string, to: Option<seq<Target>>)

  datatype Resource = Resource(namespace: string, name: string, labels: Labels)
  datatype GroupKind = GroupKind(group: string, kind: string)

  /** Library parts: case folding, and LabelSelectorAsSelector, which may reject a selector. */
  datatype Lib = Lib(fold: string -> string, compile: string -> Option<Labels -> bool>)

  predicate EqualFold(lib: Lib, a: string, b: string) { lib.fold(a) == lib.fold(b) }

  /** The group of schema.ParseGroupVersion, None for its error. */
  function ParseGroup(gv: string): Option<string> {
    var parts := Split(gv, '/');
    if |parts| == 1 then Some("") else if |parts| == 2 then Some(parts[0]) else None
  }

  predicate IsGroupKind(lib: Lib, apiVersion: string, kind: string, gk: GroupKind) {
    var g := ParseGroup(apiVersion);
    g.Some? && EqualFold(lib, g.value, gk.group) && EqualFold(lib, kind, gk.kind)
  }

  function Targets(p: Policy): seq<Target> { if p.to.Some? then p.to.value else [] }

  /** "version" has no group, "group/version" has one, and anything with more than one '/' does not parse. */
  lemma GroupOf(g: string, v: string, w: string)
    requires '/' !in g && '/' !in v
    ensures ParseGroup(v) == Some("") && ParseGroup(g + "/" + v) == Some(g)
    ensures ParseGroup(g + "/" + v + "/" + w) == None
  {
    SplitWhole(v, '/');
    SplitAt(g, '/', v);
    assert g + "/" + v + "/" + w == g + ['/'] + (v + ['/'] + w) && g + "/" + v == g + ['/'] + v;
    SplitAt(g, '/', v + ['/'] + w);
    SplitAt(v, '/', w);
  }

  // ---------- does a policy apply to a resource ----------

  predicate RefMatches(lib: Lib, t: Target, gk: GroupKind, name: string) {
    && t.ref.Some? && EqualFold(lib, t.ref.value.name, name)
    && IsGroupKind(lib, t.ref.value.apiVersion, t.ref.value.kind, gk)
  }

  predicate SelectorMatches(lib: Lib, t: Target, gk: GroupKind, labels: Labels) {
    t.selector.Some? && IsGroupKind(lib, t.selector.value.apiVersion, t.selector.value.kind, gk)
    && lib.compile(t.selector.value.labelSelector).Some? && lib.compile(t.selector.value.labelSelector).value(labels)
  }

  predicate Matches(lib: Lib, t: Target, gk: GroupKind, r: Resource) {
    RefMatches(lib, t, gk, r.name) || SelectorMatches(lib, t, gk, r.labels)
  }

  /** An empty list of targets, nil or not, means every resource in the namespace. */
  predicate Applies(lib: Lib, p: Policy, gk: GroupKind, r: Resource) {
    Targets(p) == [] || exists i | 0 <= i < |Targets(p)| :: Matches(lib, Targets(p)[i], gk, r)
  }

  /** A policy for one reference applies to a resource iff name, group and kind are equal up to case. */
  lemma OneReferenceApplies(lib: Lib, p: Policy, g: string, v: string, kind: string, name: string, gk: GroupKind,
                            r: Resource)
    requires '/' !in g && '/' !in v && p.to == Some([Target(Some(Reference(g + "/" + v, kind, name)), None)])
    ensures Applies(lib, p, gk, r)
       <==> && lib.fold(name) == lib.fold(r.name) && lib.fold(g) == lib.fold(gk.group)
            && lib.fold(kind) == lib.fold(gk.kind)
  {
    GroupOf(g, v, "");
    assert Targets(p)[0] == Target(Some(Reference(g + "/" + v, kind, name)), None);
    assert Applies(lib, p, gk, r) <==> Matches(lib, Targets(p)[0], gk, r);
  }

  /**
    A policy for one selector applies iff group and kind are equal up to case and it compiles and
    holds of the labels.
   */
  lemma OneSelectorApplies(lib: Lib, p: Policy, g: string, v: string, kind: string, labels: string, gk: GroupKind,
                           r: Resource)
    requires '/' !in g && '/' !in v && p.to == Some([Target(None, Some(Selector(g + "/" + v, kind, labels)))])
    ensures Applies(lib, p, gk, r)
       <==> && lib.fold(g) == lib.fold(gk.group) && lib.fold(kind) == lib.fold(gk.kind)
            && lib.compile(labels).Some? && lib.compile(labels).value(r.labels)
  {
    GroupOf(g, v, "");
    assert Targets(p)[0] == Target(None, Some(Selector(g + "/" + v, kind, labels)));
    assert Applies(lib, p, gk, r) <==> Matches(lib, Targets(p)[0], gk, r);
  }

  /** Several targets: the policy applies iff it would for one of them; no target means every resource. */
  lemma AppliesToSome(lib: Lib, p: Policy, gk: GroupKind, r: Resource)
    ensures p.to == None || p.to == Some([]) ==> Applies(lib, p, gk, r)
    ensures p.to.Some? && p.to.value != [] ==>
      (Applies(lib, p, gk, r)
       <==> exists i | 0 <= i < |p.to.value| :: Applies(lib, p.(to := Some([p.to.value[i]])), gk, r))
  {
    forall i | p.to.Some? && 0 <= i < |p.to.value|
      ensures Applies(lib, p.(to := Some([p.to.value[i]])), gk, r) <==> Matches(lib, p.to.value[i], gk, r)
    {
      assert Targets(p.(to := Some([p.to.value[i]])))[0] == p.to.value[i];
    }
  }

  /** Versions parse, and the selectors for this kind compile. */
  predicate WellFormed(lib: Lib, t: Target, gk: GroupKind) {
    && (t.ref.None? || ParseGroup(t.ref.value.apiVersion).Some?)
    && (t.selector.None? || GoodSelector(lib, t.selector.value, gk))
  }

  predicate GoodSelector(lib: Lib, s: Selector, gk: GroupKind) {
    && ParseGroup(s.apiVersion).Some?
    && (IsGroupKind(lib, s.apiVersion, s.kind, gk) ==> lib.compile(s.labelSelector).Some?)
  }

  predicate AllWellFormed(lib: Lib, p: Policy, gk: GroupKind) {
    forall i | 0 <= i < |Targets(p)| :: WellFormed(lib, Targets(p)[i], gk)
  }

  /** Looking at the target ends in an error: its reference is malformed, or does not match and its selector is. */
  predicate TargetError(lib: Lib, t: Target, gk: GroupKind, r: Resource) {
    || (t.ref.Some? && ParseGroup(t.ref.value.apiVersion).None?)
    || (!RefMatches(lib, t, gk, r.name) && t.selector.Some? && !GoodSelector(lib, t.selector.value, gk))
  }

  /** Target i is in error, and no target before it is or matches. */
  predicate ErrorAt(lib: Lib, p: Policy, gk: GroupKind, r: Resource, i: nat) {
    && i < |Targets(p)| && TargetError(lib, Targets(p)[i], gk, r)
    && forall j | 0 <= j < i :: !TargetError(lib, Targets(p)[j], gk, r) && !Matches(lib, Targets(p)[j], gk, r)
  }

  predicate HasError(lib: Lib, p: Policy, gk: GroupKind, r: Resource) {
    exists i | 0 <= i < |Targets(p)| :: ErrorAt(lib, p, gk, r, i)
  }

  lemma WellFormedHasNoError(lib: Lib, p: Policy, gk: GroupKind, r: Resource)
    requires AllWellFormed(lib, p, gk)
    ensures !HasError(lib, p, gk, r)
  {
    assert forall i | 0 <= i < |Targets(p)| :: WellFormed(lib, Targets(p)[i], gk);
  }

  /** The inner loop of GetEventPoliciesForResource: None is an error return. */
  method AppliesTo(lib: Lib, p: Policy, gk: GroupKind, r: Resource) returns (applies: Option<bool>)
    ensures applies.None? <==> HasError(lib, p, gk, r)
    ensures applies.Some? ==> applies.value == Applies(lib, p, gk, r)
  {
    var ts := Targets(p);
    if ts == [] {
      return Some(true);
    }
    for i := 0 to |ts|
      invariant forall j | 0 <= j < i :: !TargetError(lib, ts[j], gk, r) && !Matches(lib, ts[j], gk, r)
    {
      var t := ts[i];
      assert TargetError(lib, t, gk, r) ==> ErrorAt(lib, p, gk, r, i);
      if t.ref.Some? {
        if ParseGroup(t.ref.value.apiVersion).None? {
          return None;
        }
        if RefMatches(lib, t, gk, r.name) {
          return Some(true);
        }
      }
      if t.selector.Some? {
        if ParseGroup(t.selector.value.apiVersion).None? {
          return None;
        }
        if IsGroupKind(lib, t.selector.value.apiVersion, t.selector.value.kind, gk) {
          var compiled := lib.compile(t.selector.value.labelSelector);
          if compiled.None? {
            return None;
          }
          if compiled.value(r.labels) {
            return Some(true);
          }
        }
      }
    }
    applies := Some(false);
  }

  function Relevant(lib: Lib, policies: seq<Policy>, gk: GroupKind, r: Resource): seq<Policy> {
    if policies == [] then []
    else
      var p := policies[|policies| - 1];
      Relevant(lib, policies[..|policies| - 1], gk, r)
      + if p.namespace == r.namespace && Applies(lib, p, gk, r) then [p] else []
  }

  // ---------- sort by name ----------

  /** Go's < on strings. */
  predicate Less(a: string, b: string) {
    b != "" && (a == "" || a[0] < b[0] || (a[0] == b[0] && Less(a[1..], b[1..])))
  }

  /** a comes before b: it is a proper prefix, or has the smaller character where they first differ. */
  lemma {:induction false} LessIff(a: string, b: string)
    ensures Less(a, b) <==> exists n :: DiffersAt(a, b, n) && n < |b| && (n < |a| ==> a[n] < b[n])
  {
    if a != "" && b != "" && a[0] == b[0] {
      LessIff(a[1..], b[1..]);
      forall n: nat ensures DiffersAt(a, b, n + 1) <==> DiffersAt(a[1..], b[1..], n) {
        if DiffersAt(a[1..], b[1..], n) {
          assert a[..n + 1] == [a[0]] + a[1..][..n] && b[..n + 1] == [b[0]] + b[1..][..n];
        }
        if DiffersAt(a, b, n + 1) {
          assert a[1..][..n] == a[..n + 1][1..] && b[1..][..n] == b[..n + 1][1..];
        }
      }
      forall n | DiffersAt(a, b, n) && n < |b| && (n < |a| ==> a[n] < b[n]) ensures Less(a[1..], b[1..]) {
        assert DiffersAt(a[1..], b[1..], n - 1);
      }
      forall n | DiffersAt(a[1..], b[1..], n) && n < |b| - 1 && (n < |a| - 1 ==> a[1..][n] < b[1..][n])
        ensures DiffersAt(a, b, n + 1) && n + 1 < |b| && (n + 1 < |a| ==> a[n + 1] < b[n + 1])
      {
      }
    } else {
      assert DiffersAt(a, b, 0) || (a == "" && b == "");
    }
  }

  /** The strings agree up to n, and there one of them ends or they differ. */
  predicate DiffersAt(a: string, b: string, n: int) {
    && 0 <= n <= |a| && n <= |b| && a[..n] == b[..n]
    && (n < |a| && n < |b| ==> a[n] != b[n])
  }

  lemma {:induction false} LessTotal(a: string, b: string)
    ensures Less(a, b) || Less(b, a) || a == b
    ensures !(Less(a, b) && Less(b, a))
  {
    if a != "" && b != "" && a[0] == b[0] {
      LessTotal(a[1..], b[1..]);
      assert a == [a[0]] + a[1..] && b == [b[0]] + b[1..];
    }
  }

  lemma {:induction false} LessTransitive(a: string, b: string, c: string)
    requires !Less(b, a) && !Less(c, b)
    ensures !Less(c, a)
  {
    if a != "" && b != "" && c != "" && a[0] == b[0] == c[0] {
      LessTransitive(a[1..], b[1..], c[1..]);
    }
  }

  predicate SortedByName(ps: seq<Policy>) {
    forall i, j | 0 <= i < j < |ps| :: !Less(ps[j].name, ps[i].name)
  }

  /** Stands for sort.Slice: some sorted permutation. */
  method SortByName(ps: seq<Policy>) returns (sorted: seq<Policy>)
    ensures multiset(sorted) == multiset(ps) && SortedByName(sorted)
  {
    sorted := [];
    for i := 0 to |ps|
      invariant multiset(sorted) == multiset(ps[..i]) && SortedByName(sorted)
    {
      assert ps[..i + 1] == ps[..i] + [ps[i]];
      sorted := Insert(sorted, ps[i]);
    }
    assert ps[..|ps|] == ps;
  }

  method Insert(sorted: seq<Policy>, p: Policy) returns (r: seq<Policy>)
    requires SortedByName(sorted)
    ensures multiset(r) == multiset(sorted) + multiset{p} && SortedByName(r)
  {
    var k := |sorted|;
    while k > 0 && Less(p.name, sorted[k - 1].name)
      invariant 0 <= k <= |sorted|
      invariant forall j | k <= j < |sorted| :: Less(p.name, sorted[j].name)
    {
      k := k - 1;
    }
    r := sorted[..k] + [p] + sorted[k..];
    assert sorted == sorted[..k] + sorted[k..];
    InsertKeepsOrder(sorted, k, p);
  }

  lemma InsertKeepsOrder(sorted: seq<Policy>, k: nat, p: Policy)
    requires SortedByName(sorted) && k <= |sorted|
    requires k > 0 ==> !Less(p.name, sorted[k - 1].name)
    requires forall j | k <= j < |sorted| :: Less(p.name, sorted[j].name)
    ensures SortedByName(sorted[..k] + [p] + sorted[k..])
  {
    var r := sorted[..k] + [p] + sorted[k..];
    forall i, j | 0 <= i < j < |r| ensures !Less(r[j].name, r[i].name) {
      if j == k {
        assert r[i] == sorted[i] && r[j] == p;
        if i < k - 1 {
          LessTransitive(sorted[i].name, sorted[k - 1].name, p.name);
        }
      } else if i == k {
        assert r[i] == p && r[j] == sorted[j - 1];
        LessTotal(p.name, sorted[j - 1].name);
      } else {
        assert r[i] == sorted[if i < k then i else i - 1] && r[j] == sorted[if j < k then j else j - 1];
      }
    }
  }

  /** Some policy of the resource's namespace ends in an error. */
  predicate SomeError(lib: Lib, policies: seq<Policy>, gk: GroupKind, r: Resource) {
    exists i | 0 <= i < |policies| :: policies[i].namespace == r.namespace && HasError(lib, policies[i], gk, r)
  }

  /** GetEventPoliciesForResource, for the policies the lister holds in some order. */
  method GetEventPoliciesForResource(lib: Lib, policies: seq<Policy>, gk: GroupKind, r: Resource)
      returns (result: Option<seq<Policy>>)
    ensures result.Some? ==> multiset(result.value) == multiset(Relevant(lib, policies, gk, r))
    ensures result.Some? ==> SortedByName(result.value)
    ensures result.None? <==> SomeError(lib, policies, gk, r)
  {
    var relevant: seq<Policy> := [];
    for i := 0 to |policies|
      invariant forall j | 0 <= j < i :: policies[j].namespace == r.namespace ==> !HasError(lib, policies[j], gk, r)
      invariant relevant == Relevant(lib, policies[..i], gk, r)
    {
      assert policies[..i + 1][..i] == policies[..i];
      if policies[i].namespace == r.namespace {
        var applies := AppliesTo(lib, policies[i], gk, r);
        if applies.None? {
          return None;
        }
        if applies.value {
          relevant := relevant + [policies[i]];
        }
      }
    }
    assert policies[..|policies|] == policies;
    var sorted := SortByName(relevant);
    result := Some(sorted);
  }

  lemma InFrontOrLast(policies: seq<Policy>, p: Policy)
    requires policies != []
    ensures
      var front, last := policies[..|policies| - 1], policies[|policies| - 1];
      (p in policies <==> p in front || p == last) && multiset(policies) == multiset(front) + multiset{last}
  {
    assert policies == policies[..|policies| - 1] + [policies[|policies| - 1]];
  }

  lemma {:induction false} RelevantMembers(lib: Lib, policies: seq<Policy>, gk: GroupKind, r: Resource, p: Policy)
    ensures p in Relevant(lib, policies, gk, r)
       <==> p in policies && p.namespace == r.namespace && Applies(lib, p, gk, r)
  {
    if policies != [] {
      RelevantMembers(lib, policies[..|policies| - 1], gk, r, p);
      InFrontOrLast(policies, p);
    }
  }

  /** No policy is listed more often than the lister holds it. */
  lemma {:induction false} RelevantAtMostOnce(lib: Lib, policies: seq<Policy>, gk: GroupKind, r: Resource)
    ensures multiset(Relevant(lib, policies, gk, r)) <= multiset(policies)
  {
    if policies != [] {
      RelevantAtMostOnce(lib, policies[..|policies| - 1], gk, r);
      InFrontOrLast(policies, policies[|policies| - 1]);
    }
  }

  // ---------- the resources of a policy ----------

  function NamesSelected(index: seq<Resource>, namespace: string, test: Labels -> bool): set<string> {
    set i | 0 <= i < |index| && index[i].namespace == namespace && test(index[i].labels) :: index[i].name
  }

  function NamesOfTarget(lib: Lib, t: Target, gk: GroupKind, namespace: string, index: seq<Resource>): set<string> {
    (if t.ref.Some? && IsGroupKind(lib, t.ref.value.apiVersion, t.ref.value.kind, gk) then {t.ref.value.name} else {})
    + (if t.selector.Some? && IsGroupKind(lib, t.selector.value.apiVersion, t.selector.value.kind, gk)
          && lib.compile(t.selector.value.labelSelector).Some?
       then NamesSelected(index, namespace, lib.compile(t.selector.value.labelSelector).value) else {})
  }

  function NamesOfTargets(lib: Lib, ts: seq<Target>, gk: GroupKind, namespace: string,
                          index: seq<Resource>): set<string> {
    if ts == [] then {}
    else NamesOfTargets(lib, ts[..|ts| - 1], gk, namespace, index)
         + NamesOfTarget(lib, ts[|ts| - 1], gk, namespace, index)
  }

  /** GetApplyingResourcesOfEventPolicyForGK: the names, None for an error. */
  function ApplyingNames(lib: Lib, p: Policy, gk: GroupKind, index: seq<Resource>): Option<set<string>> {
    if !AllWellFormed(lib, p, gk) then None
    else if p.to.None? then Some(NamesSelected(index, p.namespace, _ => true))
    else Some(NamesOfTargets(lib, p.to.value, gk, p.namespace, index))
  }

  /** The body of that function's loop, for one target. */
  method GetNamesOfTarget(lib: Lib, t: Target, gk: GroupKind, namespace: string, index: seq<Resource>)
      returns (names: Option<set<string>>)
    ensures names == if WellFormed(lib, t, gk) then Some(NamesOfTarget(lib, t, gk, namespace, index)) else None
  {
    var found: set<string> := {};
    if t.ref.Some? {
      if ParseGroup(t.ref.value.apiVersion).None? {
        return None;
      }
      if IsGroupKind(lib, t.ref.value.apiVersion, t.ref.value.kind, gk) {
        found := found + {t.ref.value.name};
      }
    }
    if t.selector.Some? {
      if ParseGroup(t.selector.value.apiVersion).None? {
        return None;
      }
      if IsGroupKind(lib, t.selector.value.apiVersion, t.selector.value.kind, gk) {
        var compiled := lib.compile(t.selector.value.labelSelector);
        if compiled.None? {
          return None;
        }
        found := found + NamesSelected(index, namespace, compiled.value);
      }
    }
    assert found == NamesOfTarget(lib, t, gk, namespace, index);
    names := Some(found);
  }

  /** The names are a Go map used as a set. */
  method GetApplyingResources(lib: Lib, p: Policy, gk: GroupKind, index: seq<Resource>)
      returns (names: Option<set<string>>)
    ensures names == ApplyingNames(lib, p, gk, index)
  {
    if p.to.None? {
      return Some(NamesSelected(index, p.namespace, _ => true));
    }
    var ts, found := p.to.value, {};
    for i := 0 to |ts|
      invariant forall j | 0 <= j < i :: WellFormed(lib, ts[j], gk)
      invariant found == NamesOfTargets(lib, ts[..i], gk, p.namespace, index)
    {
      assert ts[..i + 1][..i] == ts[..i];
      var more := GetNamesOfTarget(lib, ts[i], gk, p.namespace, index);
      if more.None? {
        assert !WellFormed(lib, Targets(p)[i], gk);
        return None;
      }
      found := found + more.value;
    }
    assert ts[..|ts|] == ts;
    names := Some(found);
  }

  /** Indexed resources have distinct names within a namespace. */
  predicate UniqueNames(index: seq<Resource>) {
    forall i, j | 0 <= i < j < |index| ::
      index[i].namespace != index[j].namespace || index[i].name != index[j].name
  }

  lemma SelectedName(index: seq<Resource>, i: nat, test: Labels -> bool)
    requires i < |index| && UniqueNames(index)
    ensures index[i].name in NamesSelected(index, index[i].namespace, test) <==> test(index[i].labels)
  {
  }

  /** The target names the resource: by its reference, in the same case, or by its selector. */
  predicate NamesIt(lib: Lib, t: Target, gk: GroupKind, r: Resource) {
    || (t.ref.Some? && t.ref.value.name == r.name && IsGroupKind(lib, t.ref.value.apiVersion, t.ref.value.kind, gk))
    || SelectorMatches(lib, t, gk, r.labels)
  }

  lemma {:induction false} NamesOfTargetsMember(lib: Lib, ts: seq<Target>, gk: GroupKind, index: seq<Resource>, i: nat)
    requires i < |index| && UniqueNames(index)
    ensures index[i].name in NamesOfTargets(lib, ts, gk, index[i].namespace, index)
       <==> exists k | 0 <= k < |ts| :: NamesIt(lib, ts[k], gk, index[i])
  {
    if ts != [] {
      var n := |ts| - 1;
      NamesOfTargetsMember(lib, ts[..n], gk, index, i);
      assert forall k | 0 <= k < n :: ts[..n][k] == ts[k];
      NamesOfTargetMember(lib, ts[n], gk, index, i);
    }
  }

  lemma NamesOfTargetMember(lib: Lib, t: Target, gk: GroupKind, index: seq<Resource>, i: nat)
    requires i < |index| && UniqueNames(index)
    ensures index[i].name in NamesOfTarget(lib, t, gk, index[i].namespace, index) <==> NamesIt(lib, t, gk, index[i])
  {
    if t.selector.Some? && lib.compile(t.selector.value.labelSelector).Some? {
      SelectedName(index, i, lib.compile(t.selector.value.labelSelector).value);
    }
  }

  /** Some reference matches the resource in another case only, and no target names it. */
  predicate ByFoldingAlone(lib: Lib, p: Policy, gk: GroupKind, r: Resource) {
    && (exists k | 0 <= k < |Targets(p)| ::
          RefMatches(lib, Targets(p)[k], gk, r.name) && Targets(p)[k].ref.value.name != r.name)
    && forall k | 0 <= k < |Targets(p)| :: !NamesIt(lib, Targets(p)[k], gk, r)
  }

  /** The policy's resources are computed, but this one is left out although the policy applies to it. */
  predicate Overlooked(lib: Lib, p: Policy, gk: GroupKind, r: Resource) {
    p.to == Some([]) || ByFoldingAlone(lib, p, gk, r)
  }

  predicate Listed(lib: Lib, p: Policy, gk: GroupKind, index: seq<Resource>, name: string) {
    var names := ApplyingNames(lib, p, gk, index);
    names.Some? && name in names.value
  }

  lemma NamedMatches(lib: Lib, p: Policy, gk: GroupKind, r: Resource)
    ensures (exists k | 0 <= k < |Targets(p)| :: NamesIt(lib, Targets(p)[k], gk, r))
       <==> (exists k | 0 <= k < |Targets(p)| :: Matches(lib, Targets(p)[k], gk, r)) && !ByFoldingAlone(lib, p, gk, r)
  {
    forall k | 0 <= k < |Targets(p)| && NamesIt(lib, Targets(p)[k], gk, r) ensures Matches(lib, Targets(p)[k], gk, r) {
    }
  }

  /** What GetEventPoliciesForResource finds of one policy: whether it applies, None for an error. */
  function ByResource(lib: Lib, p: Policy, gk: GroupKind, r: Resource): Option<bool> {
    if HasError(lib, p, gk, r) then None else Some(Applies(lib, p, gk, r))
  }

  /** What GetApplyingResourcesOfEventPolicyForGK finds of one name: whether it is listed, None for an error. */
  function ByPolicy(lib: Lib, p: Policy, gk: GroupKind, index: seq<Resource>, name: string): Option<bool> {
    var names := ApplyingNames(lib, p, gk, index);
    if names.None? then None else Some(name in names.value)
  }

  /**
    For every policy and every indexed resource of its namespace the two functions agree if and only
    if both end in an error, or every target is well formed, `to` is not an empty non-nil list, and
    no reference matches the resource by folding the case of its name unless some target names it
    exactly or selects it.
   */
  lemma InverseIff(lib: Lib, p: Policy, gk: GroupKind, index: seq<Resource>, i: nat)
    requires i < |index| && UniqueNames(index) && p.namespace == index[i].namespace
    ensures ByResource(lib, p, gk, index[i]) == ByPolicy(lib, p, gk, index, index[i].name)
       <==> HasError(lib, p, gk, index[i]) || (AllWellFormed(lib, p, gk) && !Overlooked(lib, p, gk, index[i]))
    ensures Listed(lib, p, gk, index, index[i].name)
       <==> AllWellFormed(lib, p, gk) && Applies(lib, p, gk, index[i]) && !Overlooked(lib, p, gk, index[i])
  {
    if AllWellFormed(lib, p, gk) {
      WellFormedHasNoError(lib, p, gk, index[i]);
      ListedIff(lib, p, gk, index, i);
    }
  }

  lemma ListedIff(lib: Lib, p: Policy, gk: GroupKind, index: seq<Resource>, i: nat)
    requires i < |index| && UniqueNames(index) && p.namespace == index[i].namespace && AllWellFormed(lib, p, gk)
    ensures Listed(lib, p, gk, index, index[i].name)
       <==> Applies(lib, p, gk, index[i]) && !Overlooked(lib, p, gk, index[i])
    ensures Overlooked(lib, p, gk, index[i]) ==> Applies(lib, p, gk, index[i])
  {
    if p.to.None? {
      SelectedName(index, i, _ => true);
    } else {
      NamesOfTargetsMember(lib, Targets(p), gk, index, i);
      NamedMatches(lib, p, gk, index[i]);
    }
  }

  /**
    References to "br" and, malformed, to something else: the policy applies to the resource "br",
    which is found before the error, but a change of the policy ends in the error.
   */
  lemma MalformedIsMissed(lib: Lib, apiVersion: string, gk: GroupKind, namespace: string, policy: string, r: Resource)
    requires IsGroupKind(lib, apiVersion, gk.kind, gk)
    ensures
      var good, bad := Reference(apiVersion, gk.kind, r.name), Reference("a/b/c", gk.kind, r.name);
      var p := Policy(namespace, policy, Some([Target(Some(good), None), Target(Some(bad), None)]));
      && ByResource(lib, p, gk, r) == Some(true) && ByPolicy(lib, p, gk, [r], r.name) == None
      && !Overlooked(lib, p, gk, r)
  {
    var good, bad := Reference(apiVersion, gk.kind, r.name), Reference("a/b/c", gk.kind, r.name);
    var p := Policy(namespace, policy, Some([Target(Some(good), None), Target(Some(bad), None)]));
    ThreePartsDoNotParse();
    assert Targets(p)[0] == Target(Some(good), None) && Targets(p)[1] == Target(Some(bad), None);
    assert Matches(lib, Targets(p)[0], gk, r) && NamesIt(lib, Targets(p)[0], gk, r);
    assert !TargetError(lib, Targets(p)[0], gk, r) && !WellFormed(lib, Targets(p)[1], gk);
  }

  lemma ThreePartsDoNotParse()
    ensures ParseGroup("a/b/c").None?
  {
    assert "a/b/c" == "a" + ['/'] + "b/c" && "b/c" == "b" + ['/'] + "c";
    SplitAt("a", '/', "b/c");
    SplitAt("b", '/', "c");
    SplitWhole("c", '/');
  }

  /** A reference to "Br" applies to the resource "br", but a change of the policy lists "Br" only. */
  lemma OtherCaseIsOverlooked(lib: Lib, apiVersion: string, gk: GroupKind, namespace: string, policy: string,
                              labels: Labels)
    requires EqualFold(lib, "Br", "br") && IsGroupKind(lib, apiVersion, gk.kind, gk)
    ensures
      var p := Policy(namespace, policy, Some([Target(Some(Reference(apiVersion, gk.kind, "Br")), None)]));
      var r := Resource(namespace, "br", labels);
      Applies(lib, p, gk, r) && ApplyingNames(lib, p, gk, [r]) == Some({"Br"}) && Overlooked(lib, p, gk, r)
  {
    var t := Target(Some(Reference(apiVersion, gk.kind, "Br")), None);
    var p, r := Policy(namespace, policy, Some([t])), Resource(namespace, "br", labels);
    assert Targets(p)[0] == t && RefMatches(lib, t, gk, "br");
    assert [t][..0] == [] && NamesOfTarget(lib, t, gk, namespace, [r]) == {"Br"};
    assert NamesOfTargets(lib, [t], gk, namespace, [r]) == {"Br"};
    assert !NamesIt(lib, t, gk, r);
  }

  // ---------- what a policy update enqueues ----------

  function KeysOf(lib: Lib, p: Policy, gk: GroupKind, index: seq<Resource>): set<(string, string)> {
    var names := ApplyingNames(lib, p, gk, index);
    if names.None? then {} else set n | n in names.value :: (p.namespace, n)
  }

  /** The UpdateFunc of EventPolicyEventHandler: the keys it enqueues, each once. */
  method OnUpdate(lib: Lib, oldPolicy: Policy, newPolicy: Policy, gk: GroupKind, index: seq<Resource>)
      returns (enqueued: seq<(string, string)>)
    ensures forall k :: k in enqueued <==> k in KeysOf(lib, oldPolicy, gk, index) + KeysOf(lib, newPolicy, gk, index)
    ensures forall i, j | 0 <= i < j < |enqueued| :: enqueued[i] != enqueued[j]
  {
    var toHandle: set<(string, string)> := {};
    var before := GetApplyingResources(lib, oldPolicy, gk, index);
    if before.Some? {
      toHandle := toHandle + set n | n in before.value :: (oldPolicy.namespace, n);
    }
    var after := GetApplyingResources(lib, newPolicy, gk, index);
    if after.Some? {
      toHandle := toHandle + set n | n in after.value :: (newPolicy.namespace, n);
    }
    enqueued := EnqueueAll(toHandle);
  }

  /** Walks a set in any order. */
  method EnqueueAll(keys: set<(string, string)>) returns (enqueued: seq<(string, string)>)
    ensures forall k :: k in enqueued <==> k in keys
    ensures forall i, j | 0 <= i < j < |enqueued| :: enqueued[i] != enqueued[j]
  {
    enqueued := [];
    var todo := keys;
    while todo != {}
      invariant todo <= keys && forall k :: k in enqueued <==> k in keys && k !in todo
      invariant forall i, j | 0 <= i < j < |enqueued| :: enqueued[i] != enqueued[j]
    {
      var k :| k in todo;
      assert k !in enqueued;
      todo := todo - {k};
      enqueued := enqueued + [k];
    }
  }

  predicate Enqueues(lib: Lib, p: Policy, gk: GroupKind, r: Resource) {
    && p.namespace == r.namespace && AllWellFormed(lib, p, gk)
    && Applies(lib, p, gk, r) && !Overlooked(lib, p, gk, r)
  }

  lemma KeysOfMember(lib: Lib, p: Policy, gk: GroupKind, index: seq<Resource>, i: nat)
    requires i < |index| && UniqueNames(index)
    ensures (index[i].namespace, index[i].name) in KeysOf(lib, p, gk, index) <==> Enqueues(lib, p, gk, index[i])
  {
    if p.namespace == index[i].namespace {
      InverseIff(lib, p, gk, index, i);
    }
  }

  /**
    A policy update enqueues an indexed resource if and only if one of its two versions applies to
    it, is well formed and does not overlook it; so nothing else is enqueued, and an affected
    resource is missed exactly if every version that applies to it overlooks it or is malformed.
   */
  lemma AffectedIsEnqueued(lib: Lib, oldPolicy: Policy, newPolicy: Policy, gk: GroupKind, index: seq<Resource>, i: nat)
    requires i < |index| && UniqueNames(index)
    ensures (index[i].namespace, index[i].name) in KeysOf(lib, oldPolicy, gk, index) + KeysOf(lib, newPolicy, gk, index)
       <==> Enqueues(lib, oldPolicy, gk, index[i]) || Enqueues(lib, newPolicy, gk, index[i])
  {
    KeysOfMember(lib, oldPolicy, gk, index, i);
    KeysOfMember(lib, newPolicy, gk, index, i);
  }
}
