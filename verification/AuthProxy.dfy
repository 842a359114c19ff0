/**
  The auth proxy's cache over the event policies themselves.  getAuthSubjects names its parent
  resource without the parent's labels, so policies that select by label are judged on none.
 */
module AuthProxy {
  import opened Wrappers
  import opened EventPolicies
  import opened AuthCache

  type Policies = seq<Policy>

  /** The policies, as often as listed, whose subjects and filters getAuthSubjects returns; None is its error. */
  function PoliciesOf(lib: Lib, gk: GroupKind, r: Resource): Policies -> Option<multiset<Policy>> {
    (policies: Policies) =>
      if SomeError(lib, policies, gk, r) then None else Some(multiset(Relevant(lib, policies, gk, r)))
  }

  /** The parent as getAuthSubjects names it. */
  function Unlabelled(parent: Resource): Resource { parent.(labels := map[]) }

  /** What getAuthSubjects computes on a miss: an entry for each policy it finds, in the order of their names. */
  method ComputeSubjects(lib: Lib, policies: Policies, gk: GroupKind, parent: Resource)
      returns (subjects: Option<seq<Policy>>)
    ensures PoliciesOf(lib, gk, Unlabelled(parent))(policies)
         == if subjects.Some? then Some(multiset(subjects.value)) else None
    ensures subjects.Some? ==> SortedByName(subjects.value)
  {
    subjects := GetEventPoliciesForResource(lib, policies, gk, Unlabelled(parent));
  }

  predicate SelectedBy(lib: Lib, p: Policy, gk: GroupKind, labels: Labels) {
    exists i | 0 <= i < |Targets(p)| :: SelectorMatches(lib, Targets(p)[i], gk, labels)
  }

  /**
    No reference settles whether the policy applies, and its selectors say different things of the
    labels and of none.
   */
  predicate SelectorDecides(lib: Lib, p: Policy, gk: GroupKind, parent: Resource) {
    && Targets(p) != []
    && (forall i | 0 <= i < |Targets(p)| :: !RefMatches(lib, Targets(p)[i], gk, parent.name))
    && SelectedBy(lib, p, gk, parent.labels) != SelectedBy(lib, p, gk, map[])
  }

  lemma AppliesBy(lib: Lib, p: Policy, gk: GroupKind, r: Resource)
    ensures Applies(lib, p, gk, r)
       <==> || Targets(p) == []
            || (exists i | 0 <= i < |Targets(p)| :: RefMatches(lib, Targets(p)[i], gk, r.name))
            || SelectedBy(lib, p, gk, r.labels)
  {
    assert forall i | 0 <= i < |Targets(p)| && RefMatches(lib, Targets(p)[i], gk, r.name) ::
      Matches(lib, Targets(p)[i], gk, r);
    assert forall i | 0 <= i < |Targets(p)| && SelectorMatches(lib, Targets(p)[i], gk, r.labels) ::
      Matches(lib, Targets(p)[i], gk, r);
  }

  lemma LabelsMatterIff(lib: Lib, p: Policy, gk: GroupKind, parent: Resource)
    ensures (Applies(lib, p, gk, Unlabelled(parent)) <==> Applies(lib, p, gk, parent))
       <==> !SelectorDecides(lib, p, gk, parent)
  {
    AppliesBy(lib, p, gk, parent);
    AppliesBy(lib, p, gk, Unlabelled(parent));
  }

  predicate SomeSelectorDecides(lib: Lib, policies: Policies, gk: GroupKind, parent: Resource) {
    exists i | 0 <= i < |policies| ::
      policies[i].namespace == parent.namespace && SelectorDecides(lib, policies[i], gk, parent)
  }

  lemma {:induction false} SameRelevant(lib: Lib, policies: Policies, gk: GroupKind, parent: Resource)
    requires !SomeSelectorDecides(lib, policies, gk, parent)
    ensures Relevant(lib, policies, gk, Unlabelled(parent)) == Relevant(lib, policies, gk, parent)
  {
    if policies != [] {
      var front := policies[..|policies| - 1];
      assert forall i | 0 <= i < |front| :: front[i] == policies[i];
      SameRelevant(lib, front, gk, parent);
      LabelsMatterIff(lib, policies[|policies| - 1], gk, parent);
    }
  }

  lemma RelevantDiffers(lib: Lib, policies: Policies, gk: GroupKind, parent: Resource)
    ensures multiset(Relevant(lib, policies, gk, Unlabelled(parent))) == multiset(Relevant(lib, policies, gk, parent))
       <==> !SomeSelectorDecides(lib, policies, gk, parent)
  {
    if i :| 0 <= i < |policies| && policies[i].namespace == parent.namespace
            && SelectorDecides(lib, policies[i], gk, parent) {
      var p := policies[i];
      LabelsMatterIff(lib, p, gk, parent);
      RelevantMembers(lib, policies, gk, parent, p);
      RelevantMembers(lib, policies, gk, Unlabelled(parent), p);
      assert p in multiset(Relevant(lib, policies, gk, parent)) <==> p in Relevant(lib, policies, gk, parent);
      assert p in multiset(Relevant(lib, policies, gk, Unlabelled(parent)))
        <==> p in Relevant(lib, policies, gk, Unlabelled(parent));
    } else {
      SameRelevant(lib, policies, gk, parent);
    }
  }

  /**
    The proxy finds what a lookup of its labelled parent would find if and only if both end in an
    error, or neither does and no selector decides for a policy.
   */
  lemma ProxyPoliciesIff(lib: Lib, policies: Policies, gk: GroupKind, parent: Resource)
    ensures PoliciesOf(lib, gk, Unlabelled(parent))(policies) == PoliciesOf(lib, gk, parent)(policies)
       <==> if SomeError(lib, policies, gk, Unlabelled(parent)) then SomeError(lib, policies, gk, parent)
            else !SomeError(lib, policies, gk, parent) && !SomeSelectorDecides(lib, policies, gk, parent)
  {
    RelevantDiffers(lib, policies, gk, parent);
  }

  /**
    In every run, a cache that is filled while no invalidation is outstanding holds what a lookup of
    the labelled parent in the current store would find if and only if that does not end in an error
    and no selector decides for a policy.
   */
  lemma QuietCacheIsParentsIff(lib: Lib, gk: GroupKind, parent: Resource, initial: Policies, steps: seq<Step<Policies>>)
    requires After(PoliciesOf(lib, gk, Unlabelled(parent)), initial, steps).Some?
    requires After(PoliciesOf(lib, gk, Unlabelled(parent)), initial, steps).value.pending == 0
    requires After(PoliciesOf(lib, gk, Unlabelled(parent)), initial, steps).value.cache.Some?
    ensures
      var s := After(PoliciesOf(lib, gk, Unlabelled(parent)), initial, steps).value;
      s.cache == PoliciesOf(lib, gk, parent)(s.store)
      <==> !SomeError(lib, s.store, gk, parent) && !SomeSelectorDecides(lib, s.store, gk, parent)
  {
    QuietCacheIsCurrent(PoliciesOf(lib, gk, Unlabelled(parent)), initial, steps, 0);
    ProxyPoliciesIff(lib, After(PoliciesOf(lib, gk, Unlabelled(parent)), initial, steps).value.store, gk, parent);
  }

  // ---------- inputs on which they differ ----------

  /** The selector compiles, is about gk, and holds of the labels or not. */
  predicate Holds(lib: Lib, s: Selector, gk: GroupKind, labels: Labels) {
    && IsGroupKind(lib, s.apiVersion, s.kind, gk) && lib.compile(s.labelSelector).Some?
    && lib.compile(s.labelSelector).value(labels)
  }

  lemma OnePolicy(lib: Lib, p: Policy, gk: GroupKind, r: Resource)
    requires p.namespace == r.namespace
    ensures PoliciesOf(lib, gk, r)([p])
         == if HasError(lib, p, gk, r) then None else Some(if Applies(lib, p, gk, r) then multiset{p} else multiset{})
  {
    assert [p][0] == p && [p][..0] == [];
    assert SomeError(lib, [p], gk, r) <==> HasError(lib, p, gk, r);
    assert Relevant(lib, [p], gk, r) == if Applies(lib, p, gk, r) then [p] else [];
  }

  /** A policy for a selector that holds of the parent's labels, and not of none, is one the proxy does not find. */
  lemma SelectedParentIsMissed(lib: Lib, s: Selector, gk: GroupKind, parent: Resource, policy: string)
    requires Holds(lib, s, gk, parent.labels) && !Holds(lib, s, gk, map[])
    ensures
      var p := Policy(parent.namespace, policy, Some([Target(None, Some(s))]));
      && SelectorDecides(lib, p, gk, parent)
      && PoliciesOf(lib, gk, parent)([p]) == Some(multiset{p})
      && PoliciesOf(lib, gk, Unlabelled(parent))([p]) == Some(multiset{})
  {
    var p := Policy(parent.namespace, policy, Some([Target(None, Some(s))]));
    var t := Target(None, Some(s));
    assert Targets(p)[0] == t && AllWellFormed(lib, p, gk);
    assert Matches(lib, t, gk, parent) && !Matches(lib, t, gk, Unlabelled(parent));
    assert SelectorMatches(lib, t, gk, parent.labels) && !SelectorMatches(lib, t, gk, map[]);
    WellFormedHasNoError(lib, p, gk, parent);
    WellFormedHasNoError(lib, p, gk, Unlabelled(parent));
    OnePolicy(lib, p, gk, parent);
    OnePolicy(lib, p, gk, Unlabelled(parent));
  }

  /**
    A selector that holds of no labels only, a malformed reference, and a selector that holds of the
    parent's labels: the proxy finds the policy, but a lookup of the labelled parent is an error.
   */
  lemma ErrorIsNotSeen(lib: Lib, none: Selector, s: Selector, gk: GroupKind, parent: Resource, policy: string)
    requires Holds(lib, none, gk, map[]) && !Holds(lib, none, gk, parent.labels)
    requires Holds(lib, s, gk, parent.labels)
    ensures
      var bad := Target(Some(Reference("a/b/c", gk.kind, parent.name)), None);
      var p := Policy(parent.namespace, policy, Some([Target(None, Some(none)), bad, Target(None, Some(s))]));
      && !SomeSelectorDecides(lib, [p], gk, parent)
      && PoliciesOf(lib, gk, parent)([p]) == None && PoliciesOf(lib, gk, Unlabelled(parent))([p]) == Some(multiset{p})
  {
    var bad := Target(Some(Reference("a/b/c", gk.kind, parent.name)), None);
    var p := Policy(parent.namespace, policy, Some([Target(None, Some(none)), bad, Target(None, Some(s))]));
    ThreePartsDoNotParse();
    assert Targets(p)[0] == Target(None, Some(none)) && Targets(p)[1] == bad && Targets(p)[2] == Target(None, Some(s));
    assert SelectorMatches(lib, Targets(p)[0], gk, map[]) && SelectorMatches(lib, Targets(p)[2], gk, parent.labels);
    assert Matches(lib, Targets(p)[0], gk, Unlabelled(parent));
    assert ErrorAt(lib, p, gk, parent, 1) && !HasError(lib, p, gk, Unlabelled(parent));
    OnePolicy(lib, p, gk, parent);
    OnePolicy(lib, p, gk, Unlabelled(parent));
  }
}
