/**
  What compiled subscription filters mean.  For every spec, the exact set of answers its filter can
  give, in whatever order its nodes stand; and when that is the documented meaning of the spec.
 */
module FilterMeaning {
  import opened Wrappers
  import opened SubscriptionFilters

  type Results = set<FilterResult>

  // ---------- the answers of a spec ----------

  /** Some answer in c does not stop the node. */
  predicate CanGoOn(stop: FilterResult, c: Results) { exists v <- c :: v != stop }

  /** A node can answer r when its filters can answer cs. */
  predicate NodeCan(stop: FilterResult, cs: seq<Results>, r: FilterResult) {
    if cs == [] then r == NoFilter
    else if r == stop then exists i | 0 <= i < |cs| :: stop in cs[i]
    else (forall i | 0 <= i < |cs| :: CanGoOn(stop, cs[i])) && exists i | 0 <= i < |cs| :: r in cs[i]
  }

  function NodeOutcomes(stop: FilterResult, cs: seq<Results>): Results {
    set r | r in {PassFilter, FailFilter, NoFilter} && NodeCan(stop, cs, r)
  }

  function NotOutcomes(c: Results): Results { if c == {} then {NoFilter} else set v | v in c :: Negate(v) }

  function AttributesOutcomes(how: Match, attrs: Attributes, ev: Event): Results {
    if NoEmpty(attrs) then {Verdict(AllMatch(how, attrs, ev))} else {}
  }

  /** What the filter of s can answer; nothing if s gives no filter. */
  function Outcomes(sql: Cesql, s: Spec, ev: Event): Results
    decreases s, 1
  {
    if s.exact != map[] then AttributesOutcomes(Exactly, s.exact, ev)
    else if s.prefix != map[] then AttributesOutcomes(Starts, s.prefix, ev)
    else if s.suffix != map[] then AttributesOutcomes(Ends, s.suffix, ev)
    else if s.all != [] then NodeOutcomes(FailFilter, OutcomesList(sql, s.all, ev))
    else if s.any != [] then NodeOutcomes(PassFilter, OutcomesList(sql, s.any, ev))
    else if s.not.Some? then NotOutcomes(Outcomes(sql, s.not.value, ev))
    else if s.cesql != "" && sql.parses(s.cesql) then {Verdict(sql.holds(s.cesql, ev))}
    else {}
  }

  function OutcomesList(sql: Cesql, specs: seq<Spec>, ev: Event): seq<Results>
    decreases specs, 0
  {
    if specs == [] then []
    else
      var c := Outcomes(sql, specs[|specs| - 1], ev);
      OutcomesList(sql, specs[..|specs| - 1], ev) + if c != {} then [c] else []
  }

  /** f can answer exactly c. */
  ghost predicate CanAnswer(sql: Cesql, f: Filter, ev: Event, c: Results) {
    forall r :: Answers(sql, f, ev, r) <==> r in c
  }

  ghost predicate EachCanAnswer(sql: Cesql, fs: seq<Filter>, ev: Event, cs: seq<Results>) {
    |fs| == |cs| && forall i | 0 <= i < |fs| :: cs[i] != {} && CanAnswer(sql, fs[i], ev, cs[i])
  }

  /** One answer out of each set. */
  ghost predicate Picks(cs: seq<Results>, rs: seq<FilterResult>) {
    |rs| == |cs| && forall i | 0 <= i < |cs| :: rs[i] in cs[i]
  }

  lemma NodeAnswersOnly(stop: FilterResult, cs: seq<Results>, rs: seq<FilterResult>, r: FilterResult)
    requires Picks(cs, rs) && NodeAnswers(stop, rs, r)
    ensures NodeCan(stop, cs, r)
  {
    var p :| IsPerm(p, |rs|) && r == RunUntil(stop, Permute(rs, p));
    PermuteKeepsMembers(rs, p);
    if stop in rs {
      var i :| 0 <= i < |rs| && rs[i] == stop;
      assert stop in cs[i];
    } else if rs != [] {
      assert r == rs[p[|rs| - 1]] && r in cs[p[|rs| - 1]];
      forall i | 0 <= i < |cs| ensures CanGoOn(stop, cs[i]) {
        assert rs[i] in cs[i] && rs[i] in rs;
      }
    }
  }

  /** A choice of answers among which filter i gives r, and the others go on if r does. */
  function Choice(stop: FilterResult, cs: seq<Results>, i: nat, r: FilterResult): (rs: seq<FilterResult>)
    requires i < |cs| && r in cs[i] && forall j | 0 <= j < |cs| :: cs[j] != {}
    requires r != stop ==> forall j | 0 <= j < |cs| :: CanGoOn(stop, cs[j])
    ensures Picks(cs, rs) && rs[i] == r && (r != stop ==> stop !in rs)
  {
    seq(|cs|, j requires 0 <= j < |cs| =>
      if j == i then r
      else if r == stop then OneOf(cs[j])
      else OneBut(stop, cs[j]))
  }

  function OneOf(c: Results): (r: FilterResult)
    requires c != {}
    ensures r in c
  {
    if PassFilter in c then PassFilter
    else if FailFilter in c then FailFilter
    else
      assert NoFilter in c by {
        var v :| v in c;
        assert v.NoFilter?;
      }
      NoFilter
  }

  function OneBut(stop: FilterResult, c: Results): (r: FilterResult)
    requires CanGoOn(stop, c)
    ensures r in c && r != stop
  {
    assert c - {stop} != {} by {
      var v :| v in c && v != stop;
      assert v in c - {stop};
    }
    OneOf(c - {stop})
  }

  lemma NodeAnswersAll(stop: FilterResult, cs: seq<Results>, r: FilterResult)
    requires NodeCan(stop, cs, r) && forall j | 0 <= j < |cs| :: cs[j] != {}
    ensures exists rs :: Picks(cs, rs) && NodeAnswers(stop, rs, r)
  {
    if cs == [] {
      assert Picks(cs, []) && IsPerm([], 0) && NoFilter == RunUntil(stop, Permute([], []));
      assert NodeAnswers(stop, [], r);
    } else {
      var i :| 0 <= i < |cs| && r in cs[i];
      var rs := Choice(stop, cs, i, r);
      var p := EndingWith(i, |cs|);
      EndingWithIsPerm(i, |cs|);
      PermuteKeepsMembers(rs, p);
      assert rs[i] in rs;
      assert r == RunUntil(stop, Permute(rs, p));
    }
  }

  lemma PicksAreAnswers(sql: Cesql, fs: seq<Filter>, ev: Event, cs: seq<Results>, rs: seq<FilterResult>)
    requires EachCanAnswer(sql, fs, ev, cs)
    ensures EachAnswers(sql, fs, ev, rs) <==> Picks(cs, rs)
  {
    if |rs| == |fs| {
      forall i | 0 <= i < |fs| ensures Answers(sql, fs[i], ev, rs[i]) <==> rs[i] in cs[i] {
        assert CanAnswer(sql, fs[i], ev, cs[i]);
      }
    }
  }

  /** What a node can answer is determined by what its filters can. */
  lemma NodeAnswerSet(sql: Cesql, fs: seq<Filter>, ev: Event, cs: seq<Results>, stop: FilterResult, r: FilterResult)
    requires EachCanAnswer(sql, fs, ev, cs)
    ensures (exists rs :: EachAnswers(sql, fs, ev, rs) && NodeAnswers(stop, rs, r)) <==> r in NodeOutcomes(stop, cs)
  {
    forall rs ensures EachAnswers(sql, fs, ev, rs) <==> Picks(cs, rs) {
      PicksAreAnswers(sql, fs, ev, cs, rs);
    }
    if rs :| Picks(cs, rs) && NodeAnswers(stop, rs, r) {
      NodeAnswersOnly(stop, cs, rs, r);
    }
    if NodeCan(stop, cs, r) {
      NodeAnswersAll(stop, cs, r);
    }
  }

  lemma OneFilterNode(stop: FilterResult, c: Results)
    requires c != {}
    ensures NodeOutcomes(stop, [c]) == c
  {
    forall r: FilterResult ensures NodeCan(stop, [c], r) <==> r in c {
      assert [c][0] == c;
      if r in c && r != stop {
        assert CanGoOn(stop, c) && forall i | 0 <= i < 1 :: CanGoOn(stop, [c][i]);
      }
    }
    assert forall r: FilterResult :: r.PassFilter? || r.FailFilter? || r.NoFilter?;
  }

  lemma NodesAnswer(sql: Cesql, fs: seq<Filter>, ev: Event, cs: seq<Results>)
    requires EachCanAnswer(sql, fs, ev, cs)
    ensures CanAnswer(sql, NewAllFilter(fs), ev, NodeOutcomes(FailFilter, cs))
    ensures CanAnswer(sql, NewAnyFilter(fs), ev, NodeOutcomes(PassFilter, cs))
  {
    if |fs| == 1 {
      assert cs == [cs[0]] && CanAnswer(sql, fs[0], ev, cs[0]);
      OneFilterNode(FailFilter, cs[0]);
      OneFilterNode(PassFilter, cs[0]);
    } else {
      forall r ensures Answers(sql, AllFilter(fs), ev, r) <==> r in NodeOutcomes(FailFilter, cs) {
        NodeAnswerSet(sql, fs, ev, cs, FailFilter, r);
      }
      forall r ensures Answers(sql, AnyFilter(fs), ev, r) <==> r in NodeOutcomes(PassFilter, cs) {
        NodeAnswerSet(sql, fs, ev, cs, PassFilter, r);
      }
    }
  }

  lemma SomeOutcome(stop: FilterResult, cs: seq<Results>)
    requires forall j | 0 <= j < |cs| :: cs[j] != {}
    ensures NodeOutcomes(stop, cs) != {}
  {
    if cs == [] {
      assert NoFilter in NodeOutcomes(stop, cs);
    } else if forall i | 0 <= i < |cs| :: CanGoOn(stop, cs[i]) {
      var r := OneBut(stop, cs[0]);
      assert NodeCan(stop, cs, r) && r in NodeOutcomes(stop, cs);
    } else {
      var i :| 0 <= i < |cs| && !CanGoOn(stop, cs[i]);
      assert OneOf(cs[i]) == stop;
      assert stop in NodeOutcomes(stop, cs);
    }
  }

  lemma NotAnswers(sql: Cesql, inner: Filter, ev: Event, c: Results)
    requires c != {} && CanAnswer(sql, inner, ev, c)
    ensures CanAnswer(sql, NotFilter(Some(inner)), ev, NotOutcomes(c)) && NotOutcomes(c) != {}
  {
    assert Negate(OneOf(c)) in NotOutcomes(c);
    forall r ensures Answers(sql, NotFilter(Some(inner)), ev, r) <==> r in NotOutcomes(c) {
      if r in NotOutcomes(c) {
        var v :| v in c && Negate(v) == r;
        assert Answers(sql, inner, ev, v);
      }
    }
  }

  /**
    For every spec, with any number of dialects, empty objects and malformed parts anywhere: the
    compiled filter can answer exactly the outcomes of the spec over all orders of all its nodes.
   */
  lemma {:induction false} AnswersAreOutcomes(sql: Cesql, s: Spec, ev: Event)
    ensures Materialize(sql, s).None? <==> Outcomes(sql, s, ev) == {}
    ensures Materialize(sql, s).Some? ==> CanAnswer(sql, Materialize(sql, s).value, ev, Outcomes(sql, s, ev))
    decreases s, 1
  {
    if s.exact != map[] || s.prefix != map[] || s.suffix != map[] {
    } else if s.all != [] {
      ListAnswers(sql, s.all, ev);
      NodesAnswer(sql, MaterializeList(sql, s.all), ev, OutcomesList(sql, s.all, ev));
      SomeOutcome(FailFilter, OutcomesList(sql, s.all, ev));
    } else if s.any != [] {
      ListAnswers(sql, s.any, ev);
      NodesAnswer(sql, MaterializeList(sql, s.any), ev, OutcomesList(sql, s.any, ev));
      SomeOutcome(PassFilter, OutcomesList(sql, s.any, ev));
    } else if s.not.Some? {
      AnswersAreOutcomes(sql, s.not.value, ev);
      if Materialize(sql, s.not.value).Some? {
        NotAnswers(sql, Materialize(sql, s.not.value).value, ev, Outcomes(sql, s.not.value, ev));
      }
    }
  }

  lemma {:induction false} ListAnswers(sql: Cesql, specs: seq<Spec>, ev: Event)
    ensures EachCanAnswer(sql, MaterializeList(sql, specs), ev, OutcomesList(sql, specs, ev))
    decreases specs, 0
  {
    if specs != [] {
      ListAnswers(sql, specs[..|specs| - 1], ev);
      AnswersAreOutcomes(sql, specs[|specs| - 1], ev);
    }
  }

  // ---------- when a filter has the documented meaning ----------

  /** The spec gives no filter: no dialect, an empty name or value, or an expression that does not parse. */
  predicate Skipped(sql: Cesql, s: Spec) {
    if s.exact != map[] then !NoEmpty(s.exact)
    else if s.prefix != map[] then !NoEmpty(s.prefix)
    else if s.suffix != map[] then !NoEmpty(s.suffix)
    else s.all == [] && s.any == [] && s.not.None? && !(s.cesql != "" && sql.parses(s.cesql))
  }

  predicate AllHold(sql: Cesql, specs: seq<Spec>, ev: Event, skipped: bool) {
    forall i | 0 <= i < |specs| && Skipped(sql, specs[i]) == skipped :: Meaning(sql, specs[i], ev)
  }

  predicate SomeHolds(sql: Cesql, specs: seq<Spec>, ev: Event, skipped: bool) {
    exists i | 0 <= i < |specs| && Skipped(sql, specs[i]) == skipped :: Meaning(sql, specs[i], ev)
  }

  predicate SomeKept(sql: Cesql, specs: seq<Spec>) { exists i | 0 <= i < |specs| :: !Skipped(sql, specs[i]) }

  /** Leaving out the skipped specs does not change the conjunction. */
  predicate AllGuard(sql: Cesql, specs: seq<Spec>, ev: Event) {
    AllHold(sql, specs, ev, true) || !AllHold(sql, specs, ev, false)
  }

  /** Leaving out the skipped specs does not change the disjunction. */
  predicate AnyGuard(sql: Cesql, specs: seq<Spec>, ev: Event) {
    !SomeHolds(sql, specs, ev, true) || SomeHolds(sql, specs, ev, false)
  }

  /** What a spec of one dialect must satisfy for its filter to decide its meaning. */
  predicate Guard(sql: Cesql, s: Spec, ev: Event) {
    && !Skipped(sql, s)
    && (s.all != [] ==> SomeKept(sql, s.all) && AllGuard(sql, s.all, ev))
    && (s.any != [] ==> SomeKept(sql, s.any) && AnyGuard(sql, s.any, ev))
    && (s.not.Some? ==> !Skipped(sql, s.not.value))
  }

  /** The guard holds of s and of every part of it that gives a filter. */
  predicate Clean(sql: Cesql, s: Spec, ev: Event)
    decreases s, 1
  {
    Dialects(s) == 1 && Guard(sql, s, ev) && CleanParts(sql, s, ev)
  }

  predicate CleanParts(sql: Cesql, s: Spec, ev: Event)
    decreases s, 0
  {
    && (forall i | 0 <= i < |s.all| :: Skipped(sql, s.all[i]) || Clean(sql, s.all[i], ev))
    && (forall i | 0 <= i < |s.any| :: Skipped(sql, s.any[i]) || Clean(sql, s.any[i], ev))
    && (s.not.Some? ==> Skipped(sql, s.not.value) || Clean(sql, s.not.value, ev))
  }

  /** The filter of s gives the verdict on its meaning, in every order, and nothing else. */
  predicate Settled(sql: Cesql, s: Spec, ev: Event) { Outcomes(sql, s, ev) == {Verdict(Meaning(sql, s, ev))} }

  predicate MembersSettled(sql: Cesql, specs: seq<Spec>, ev: Event) {
    forall i | 0 <= i < |specs| :: Skipped(sql, specs[i]) || Settled(sql, specs[i], ev)
  }

  /** The answers c refuse an event exactly if its meaning m is false; no answer is a permission. */
  predicate RefusesExactly(c: Results, m: bool) { forall r <- c :: r == FailFilter <==> !m }

  lemma SkippedIff(sql: Cesql, s: Spec, ev: Event)
    ensures Skipped(sql, s) <==> Materialize(sql, s).None?
    ensures Skipped(sql, s) <==> Outcomes(sql, s, ev) == {}
  {
    AnswersAreOutcomes(sql, s, ev);
  }

  lemma {:induction false} OutcomesListed(sql: Cesql, specs: seq<Spec>, ev: Event, i: nat)
    requires i < |specs| && Outcomes(sql, specs[i], ev) != {}
    ensures Outcomes(sql, specs[i], ev) in OutcomesList(sql, specs, ev)
  {
    if i < |specs| - 1 {
      OutcomesListed(sql, specs[..|specs| - 1], ev, i);
    }
  }

  lemma {:induction false} OutcomesOf(sql: Cesql, specs: seq<Spec>, ev: Event, c: Results) returns (i: nat)
    requires c in OutcomesList(sql, specs, ev)
    ensures i < |specs| && c == Outcomes(sql, specs[i], ev) && c != {}
  {
    i := |specs| - 1;
    if c != Outcomes(sql, specs[i], ev) || c == {} {
      i := OutcomesOf(sql, specs[..i], ev, c);
    }
  }

  lemma SettledMember(sql: Cesql, s: Spec, ev: Event, m: bool)
    requires Skipped(sql, s) || Settled(sql, s, ev)
    ensures Outcomes(sql, s, ev) == {Verdict(m)} <==> !Skipped(sql, s) && Meaning(sql, s, ev) == m
    ensures Outcomes(sql, s, ev) == {} <==> Skipped(sql, s)
  {
    SkippedIff(sql, s, ev);
    assert Verdict(m) in {Verdict(m)};
    assert Verdict(Meaning(sql, s, ev)) in {Verdict(Meaning(sql, s, ev))};
  }

  /** Among the outcomes of settled specs, a verdict occurs iff some spec that is kept has that meaning. */
  lemma SettledVerdict(sql: Cesql, specs: seq<Spec>, ev: Event, m: bool)
    requires MembersSettled(sql, specs, ev)
    ensures {Verdict(m)} in OutcomesList(sql, specs, ev)
       <==> exists i | 0 <= i < |specs| :: !Skipped(sql, specs[i]) && Meaning(sql, specs[i], ev) == m
  {
    if {Verdict(m)} in OutcomesList(sql, specs, ev) {
      var i := OutcomesOf(sql, specs, ev, {Verdict(m)});
      SettledMember(sql, specs[i], ev, m);
    }
    if i :| 0 <= i < |specs| && !Skipped(sql, specs[i]) && Meaning(sql, specs[i], ev) == m {
      SettledMember(sql, specs[i], ev, m);
      OutcomesListed(sql, specs, ev, i);
    }
  }

  /** Only verdicts occur there, and none only if every spec is skipped. */
  lemma OnlyVerdicts(sql: Cesql, specs: seq<Spec>, ev: Event)
    requires MembersSettled(sql, specs, ev)
    ensures forall c <- OutcomesList(sql, specs, ev) :: c == {PassFilter} || c == {FailFilter}
    ensures OutcomesList(sql, specs, ev) == [] <==> !SomeKept(sql, specs)
  {
    var cs := OutcomesList(sql, specs, ev);
    forall c | c in cs ensures c == {PassFilter} || c == {FailFilter} {
      var i := OutcomesOf(sql, specs, ev, c);
      SkippedIff(sql, specs[i], ev);
    }
    if cs != [] {
      var i := OutcomesOf(sql, specs, ev, cs[0]);
      SkippedIff(sql, specs[i], ev);
    }
    if i :| 0 <= i < |specs| && !Skipped(sql, specs[i]) {
      SkippedIff(sql, specs[i], ev);
      OutcomesListed(sql, specs, ev, i);
    }
  }

  lemma SettledNode(stop: FilterResult, cs: seq<Results>)
    requires stop in {PassFilter, FailFilter} && cs != []
    requires forall c <- cs :: c == {PassFilter} || c == {FailFilter}
    ensures NodeOutcomes(stop, cs) == {if {stop} in cs then stop else Negate(stop)}
  {
    forall i | 0 <= i < |cs| ensures CanGoOn(stop, cs[i]) <==> cs[i] != {stop} {
      assert cs[i] in cs;
      assert cs[i] == {Negate(stop)} ==> Negate(stop) in cs[i];
    }
    if {stop} in cs {
      var i :| 0 <= i < |cs| && cs[i] == {stop};
      assert stop in cs[i];
    } else {
      assert cs[0] in cs && Negate(stop) in cs[0];
      assert forall i | 0 <= i < |cs| :: cs[i] in cs;
    }
  }

  lemma SettledAllNode(sql: Cesql, specs: seq<Spec>, ev: Event)
    requires MembersSettled(sql, specs, ev)
    ensures NodeOutcomes(FailFilter, OutcomesList(sql, specs, ev))
         == {if SomeKept(sql, specs) then Verdict(AllHold(sql, specs, ev, false)) else NoFilter}
  {
    OnlyVerdicts(sql, specs, ev);
    SettledVerdict(sql, specs, ev, false);
    if SomeKept(sql, specs) {
      SettledNode(FailFilter, OutcomesList(sql, specs, ev));
    }
  }

  lemma SettledAnyNode(sql: Cesql, specs: seq<Spec>, ev: Event)
    requires MembersSettled(sql, specs, ev)
    ensures NodeOutcomes(PassFilter, OutcomesList(sql, specs, ev))
         == {if SomeKept(sql, specs) then Verdict(SomeHolds(sql, specs, ev, false)) else NoFilter}
  {
    OnlyVerdicts(sql, specs, ev);
    SettledVerdict(sql, specs, ev, true);
    if SomeKept(sql, specs) {
      SettledNode(PassFilter, OutcomesList(sql, specs, ev));
    }
  }

  /** An All node over settled members decides their conjunction iff the skipped ones do not matter. */
  lemma AllMeaningIff(sql: Cesql, specs: seq<Spec>, ev: Event)
    requires MembersSettled(sql, specs, ev)
    ensures
      var c := NodeOutcomes(FailFilter, OutcomesList(sql, specs, ev));
      var m := forall i | 0 <= i < |specs| :: Meaning(sql, specs[i], ev);
      && (c == {Verdict(m)} <==> SomeKept(sql, specs) && AllGuard(sql, specs, ev))
      && (RefusesExactly(c, m) <==> AllGuard(sql, specs, ev))
  {
    var m := forall i | 0 <= i < |specs| :: Meaning(sql, specs[i], ev);
    SettledAllNode(sql, specs, ev);
    SingleOutcome(NodeOutcomes(FailFilter, OutcomesList(sql, specs, ev)), m);
    assert m <==> AllHold(sql, specs, ev, true) && AllHold(sql, specs, ev, false);
  }

  /** Likewise an Any node and their disjunction. */
  lemma AnyMeaningIff(sql: Cesql, specs: seq<Spec>, ev: Event)
    requires MembersSettled(sql, specs, ev)
    ensures
      var c := NodeOutcomes(PassFilter, OutcomesList(sql, specs, ev));
      var m := exists i | 0 <= i < |specs| :: Meaning(sql, specs[i], ev);
      && (c == {Verdict(m)} <==> SomeKept(sql, specs) && AnyGuard(sql, specs, ev))
      && (RefusesExactly(c, m)
          <==> if SomeKept(sql, specs) then AnyGuard(sql, specs, ev) else SomeHolds(sql, specs, ev, true))
  {
    var m := exists i | 0 <= i < |specs| :: Meaning(sql, specs[i], ev);
    SettledAnyNode(sql, specs, ev);
    SingleOutcome(NodeOutcomes(PassFilter, OutcomesList(sql, specs, ev)), m);
    assert m <==> SomeHolds(sql, specs, ev, true) || SomeHolds(sql, specs, ev, false);
  }

  ghost predicate OneAnswer(c: Results, m: bool, r: FilterResult) {
    (c == {Verdict(m)} <==> r == Verdict(m)) && (RefusesExactly(c, m) <==> (r == FailFilter <==> !m))
  }

  lemma SingleOutcome(c: Results, m: bool)
    ensures forall r | c == {r} :: OneAnswer(c, m, r)
  {
    forall r | c == {r} ensures OneAnswer(c, m, r) {
      assert r in c;
    }
  }

  /** A Not node over a settled or skipped inner spec. */
  lemma NotMeaningIff(sql: Cesql, inner: Spec, ev: Event)
    requires Skipped(sql, inner) || Settled(sql, inner, ev)
    ensures
      var c, m := NotOutcomes(Outcomes(sql, inner, ev)), !Meaning(sql, inner, ev);
      && (c == {Verdict(m)} <==> !Skipped(sql, inner))
      && (RefusesExactly(c, m) <==> !Skipped(sql, inner) || m)
  {
    var c, m := NotOutcomes(Outcomes(sql, inner, ev)), !Meaning(sql, inner, ev);
    SkippedIff(sql, inner, ev);
    if !Skipped(sql, inner) {
      assert Outcomes(sql, inner, ev) == {Verdict(!m)} && Negate(Verdict(!m)) == Verdict(m);
      assert c == {Verdict(m)};
    }
    SingleOutcome(c, m);
  }

  // ---------- whole specs ----------

  /** Where a spec of one dialect with clean parts refuses exactly what its meaning refuses. */
  predicate RefusalGuard(sql: Cesql, s: Spec, ev: Event) {
    && (s.all != [] ==> AllGuard(sql, s.all, ev))
    && (s.any != [] ==> if SomeKept(sql, s.any) then AnyGuard(sql, s.any, ev) else SomeHolds(sql, s.any, ev, true))
    && (s.not.Some? ==> !Skipped(sql, s.not.value) || !Meaning(sql, s.not.value, ev))
  }

  ghost predicate Exact(sql: Cesql, s: Spec, ev: Event) {
    && (Settled(sql, s, ev) <==> Guard(sql, s, ev))
    && (RefusesExactly(Outcomes(sql, s, ev), Meaning(sql, s, ev)) <==> RefusalGuard(sql, s, ev))
  }

  lemma MeaningOfAll(sql: Cesql, s: Spec, ev: Event)
    requires Dialects(s) == 1 && s.all != []
    ensures Meaning(sql, s, ev) <==> forall i | 0 <= i < |s.all| :: Meaning(sql, s.all[i], ev)
  {
  }

  lemma MeaningOfAny(sql: Cesql, s: Spec, ev: Event)
    requires Dialects(s) == 1 && s.any != []
    ensures Meaning(sql, s, ev) <==> exists i | 0 <= i < |s.any| :: Meaning(sql, s.any[i], ev)
  {
  }

  lemma ExactAll(sql: Cesql, s: Spec, ev: Event)
    requires Dialects(s) == 1 && s.all != [] && MembersSettled(sql, s.all, ev)
    ensures Exact(sql, s, ev)
  {
    MeaningOfAll(sql, s, ev);
    AllMeaningIff(sql, s.all, ev);
  }

  lemma ExactAny(sql: Cesql, s: Spec, ev: Event)
    requires Dialects(s) == 1 && s.any != [] && MembersSettled(sql, s.any, ev)
    ensures Exact(sql, s, ev)
  {
    MeaningOfAny(sql, s, ev);
    AnyMeaningIff(sql, s.any, ev);
  }

  lemma ExactNot(sql: Cesql, s: Spec, ev: Event)
    requires Dialects(s) == 1 && s.not.Some?
    requires Skipped(sql, s.not.value) || Settled(sql, s.not.value, ev)
    ensures Exact(sql, s, ev)
  {
    NotMeaningIff(sql, s.not.value, ev);
  }

  lemma SettledParts(sql: Cesql, s: Spec, ev: Event)
    requires Dialects(s) == 1 && !Skipped(sql, s)
    requires MembersSettled(sql, s.all, ev) && MembersSettled(sql, s.any, ev)
    requires s.not.Some? ==> Skipped(sql, s.not.value) || Settled(sql, s.not.value, ev)
    ensures Exact(sql, s, ev)
  {
    if s.all != [] {
      ExactAll(sql, s, ev);
    } else if s.any != [] {
      ExactAny(sql, s, ev);
    } else if s.not.Some? {
      ExactNot(sql, s, ev);
    }
  }

  /** A clean spec is settled, by induction over its parts. */
  lemma {:induction false} CleanIsSettled(sql: Cesql, s: Spec, ev: Event)
    requires Clean(sql, s, ev)
    ensures Settled(sql, s, ev)
    decreases s, 1
  {
    CleanPartsSettled(sql, s, ev);
    SettledParts(sql, s, ev);
  }

  lemma {:induction false} CleanPartsSettled(sql: Cesql, s: Spec, ev: Event)
    requires CleanParts(sql, s, ev)
    ensures MembersSettled(sql, s.all, ev) && MembersSettled(sql, s.any, ev)
    ensures s.not.Some? ==> Skipped(sql, s.not.value) || Settled(sql, s.not.value, ev)
    decreases s, 0
  {
    forall i | 0 <= i < |s.all| ensures Skipped(sql, s.all[i]) || Settled(sql, s.all[i], ev) {
      if !Skipped(sql, s.all[i]) {
        CleanIsSettled(sql, s.all[i], ev);
      }
    }
    forall i | 0 <= i < |s.any| ensures Skipped(sql, s.any[i]) || Settled(sql, s.any[i], ev) {
      if !Skipped(sql, s.any[i]) {
        CleanIsSettled(sql, s.any[i], ev);
      }
    }
    if s.not.Some? && !Skipped(sql, s.not.value) {
      CleanIsSettled(sql, s.not.value, ev);
    }
  }

  /** f answers exactly the verdict m. */
  ghost predicate Decides(sql: Cesql, f: Filter, ev: Event, m: bool) {
    forall r :: Answers(sql, f, ev, r) <==> r == Verdict(m)
  }

  /** f refuses ev, in every order, exactly if m is false. */
  ghost predicate RefusesIff(sql: Cesql, f: Filter, ev: Event, m: bool) {
    forall r | Answers(sql, f, ev, r) :: r == FailFilter <==> !m
  }

  lemma OutcomesDecide(sql: Cesql, f: Filter, ev: Event, c: Results, m: bool)
    requires CanAnswer(sql, f, ev, c)
    ensures Decides(sql, f, ev, m) <==> c == {Verdict(m)}
    ensures RefusesIff(sql, f, ev, m) <==> RefusesExactly(c, m)
  {
    if Decides(sql, f, ev, m) {
      assert forall r :: r in c <==> r == Verdict(m);
    }
  }

  // What the members of a node may answer, in the terms that decide whether the node refuses.

  predicate NoneCan(sql: Cesql, specs: seq<Spec>, ev: Event, r: FilterResult) {
    forall i | 0 <= i < |specs| :: r !in Outcomes(sql, specs[i], ev)
  }

  predicate SomeMust(sql: Cesql, specs: seq<Spec>, ev: Event, r: FilterResult) {
    exists i | 0 <= i < |specs| :: Outcomes(sql, specs[i], ev) == {r}
  }

  predicate KeptMust(sql: Cesql, specs: seq<Spec>, ev: Event, r: FilterResult) {
    && SomeKept(sql, specs)
    && forall i | 0 <= i < |specs| :: Skipped(sql, specs[i]) || Outcomes(sql, specs[i], ev) == {r}
  }

  predicate AllCondition(sql: Cesql, specs: seq<Spec>, ev: Event, m: bool) {
    if m then NoneCan(sql, specs, ev, FailFilter) else SomeMust(sql, specs, ev, FailFilter)
  }

  predicate AnyCondition(sql: Cesql, specs: seq<Spec>, ev: Event, m: bool) {
    if m then NoneCan(sql, specs, ev, FailFilter) || SomeMust(sql, specs, ev, PassFilter)
    else KeptMust(sql, specs, ev, FailFilter)
  }

  predicate NotCondition(sql: Cesql, inner: Spec, ev: Event, m: bool) {
    if m then PassFilter !in Outcomes(sql, inner, ev) else Outcomes(sql, inner, ev) == {PassFilter}
  }

  /** When a spec's filter refuses exactly if m is false, from what its parts may answer. */
  predicate RefusalCondition(sql: Cesql, s: Spec, ev: Event, m: bool) {
    if s.exact != map[] then AllMatch(Exactly, s.exact, ev) == m
    else if s.prefix != map[] then AllMatch(Starts, s.prefix, ev) == m
    else if s.suffix != map[] then AllMatch(Ends, s.suffix, ev) == m
    else if s.all != [] then AllCondition(sql, s.all, ev, m)
    else if s.any != [] then AnyCondition(sql, s.any, ev, m)
    else if s.not.Some? then NotCondition(sql, s.not.value, ev, m)
    else sql.holds(s.cesql, ev) == m
  }

  lemma ListCan(sql: Cesql, specs: seq<Spec>, ev: Event, r: FilterResult)
    ensures NoneCan(sql, specs, ev, r) <==> forall c <- OutcomesList(sql, specs, ev) :: r !in c
  {
    forall c | c in OutcomesList(sql, specs, ev) && r in c ensures !NoneCan(sql, specs, ev, r) {
      var i := OutcomesOf(sql, specs, ev, c);
    }
    forall i | 0 <= i < |specs| && r in Outcomes(sql, specs[i], ev)
      ensures exists c :: c in OutcomesList(sql, specs, ev) && r in c
    {
      OutcomesListed(sql, specs, ev, i);
    }
  }

  lemma ListMust(sql: Cesql, specs: seq<Spec>, ev: Event, r: FilterResult)
    ensures SomeMust(sql, specs, ev, r) <==> {r} in OutcomesList(sql, specs, ev)
    ensures KeptMust(sql, specs, ev, r)
       <==> OutcomesList(sql, specs, ev) != [] && forall c <- OutcomesList(sql, specs, ev) :: c == {r}
  {
    var cs := OutcomesList(sql, specs, ev);
    assert r in {r};
    if {r} in cs {
      var i := OutcomesOf(sql, specs, ev, {r});
    }
    forall i | 0 <= i < |specs| ensures Skipped(sql, specs[i]) || Outcomes(sql, specs[i], ev) in cs {
      SkippedIff(sql, specs[i], ev);
      if !Skipped(sql, specs[i]) {
        OutcomesListed(sql, specs, ev, i);
      }
    }
    forall i | 0 <= i < |specs| && Outcomes(sql, specs[i], ev) == {r} ensures {r} in cs {
      OutcomesListed(sql, specs, ev, i);
    }
    forall c | c in cs
      ensures exists i | 0 <= i < |specs| :: !Skipped(sql, specs[i]) && c == Outcomes(sql, specs[i], ev)
    {
      var i := OutcomesOf(sql, specs, ev, c);
      SkippedIff(sql, specs[i], ev);
    }
    assert cs != [] ==> cs[0] in cs;
  }

  lemma OnlyAnswer(c: Results, r: FilterResult)
    requires c != {}
    ensures c == {r} <==> forall v <- c :: v == r
    ensures CanGoOn(r, c) <==> c != {r}
  {
    var v := OneOf(c);
    if forall v <- c :: v == r {
      assert v == r;
    }
  }

  lemma KeptOutcomes(sql: Cesql, specs: seq<Spec>, ev: Event)
    ensures forall i | 0 <= i < |OutcomesList(sql, specs, ev)| :: OutcomesList(sql, specs, ev)[i] != {}
  {
    ListAnswers(sql, specs, ev);
  }

  /** What All refuses, over arbitrary members. */
  lemma AllRefusesIff(sql: Cesql, specs: seq<Spec>, ev: Event, m: bool)
    ensures RefusesExactly(NodeOutcomes(FailFilter, OutcomesList(sql, specs, ev)), m)
       <==> AllCondition(sql, specs, ev, m)
  {
    var cs := OutcomesList(sql, specs, ev);
    KeptOutcomes(sql, specs, ev);
    ListCan(sql, specs, ev, FailFilter);
    ListMust(sql, specs, ev, FailFilter);
    AllNodeRefuses(cs, m);
  }

  lemma AllNodeRefuses(cs: seq<Results>, m: bool)
    requires forall i | 0 <= i < |cs| :: cs[i] != {}
    ensures RefusesExactly(NodeOutcomes(FailFilter, cs), m)
       <==> if m then forall c <- cs :: FailFilter !in c else {FailFilter} in cs
  {
    var c := NodeOutcomes(FailFilter, cs);
    assert FailFilter in c <==> exists i | 0 <= i < |cs| :: FailFilter in cs[i];
    SomeOutcome(FailFilter, cs);
    forall i | 0 <= i < |cs| ensures CanGoOn(FailFilter, cs[i]) <==> cs[i] != {FailFilter} {
      OnlyAnswer(cs[i], FailFilter);
    }
    if {FailFilter} !in cs {
      if cs == [] {
        assert NoFilter in c;
      } else {
        var r := OneBut(FailFilter, cs[0]);
        assert forall i | 0 <= i < |cs| :: cs[i] in cs;
        assert NodeCan(FailFilter, cs, r) && r in c;
      }
    } else {
      var i :| 0 <= i < |cs| && cs[i] == {FailFilter};
      assert FailFilter in cs[i] && !CanGoOn(FailFilter, cs[i]);
    }
  }

  /** What Any refuses, over arbitrary members. */
  lemma AnyRefusesIff(sql: Cesql, specs: seq<Spec>, ev: Event, m: bool)
    ensures RefusesExactly(NodeOutcomes(PassFilter, OutcomesList(sql, specs, ev)), m)
       <==> AnyCondition(sql, specs, ev, m)
  {
    KeptOutcomes(sql, specs, ev);
    ListCan(sql, specs, ev, FailFilter);
    ListMust(sql, specs, ev, PassFilter);
    ListMust(sql, specs, ev, FailFilter);
    AnyNodeRefuses(OutcomesList(sql, specs, ev), m);
  }

  lemma AnyNodeRefuses(cs: seq<Results>, m: bool)
    requires forall i | 0 <= i < |cs| :: cs[i] != {}
    ensures RefusesExactly(NodeOutcomes(PassFilter, cs), m)
       <==> if m then (forall c <- cs :: FailFilter !in c) || {PassFilter} in cs
            else cs != [] && forall c <- cs :: c == {FailFilter}
  {
    var c := NodeOutcomes(PassFilter, cs);
    SomeOutcome(PassFilter, cs);
    forall i | 0 <= i < |cs|
      ensures CanGoOn(PassFilter, cs[i]) <==> cs[i] != {PassFilter}
      ensures cs[i] == {FailFilter} <==> forall v <- cs[i] :: v == FailFilter
    {
      OnlyAnswer(cs[i], PassFilter);
      OnlyAnswer(cs[i], FailFilter);
    }
    if m {
      assert FailFilter in c <==> NodeCan(PassFilter, cs, FailFilter);
      assert {PassFilter} in cs <==> exists i | 0 <= i < |cs| :: cs[i] == {PassFilter};
    } else {
      if RefusesExactly(c, m) {
        assert PassFilter !in c && NoFilter !in c;
        AnyMustFail(cs);
      }
      if cs != [] && forall o <- cs :: o == {FailFilter} {
        assert forall i | 0 <= i < |cs| :: cs[i] in cs;
      }
    }
  }

  lemma AnyMustFail(cs: seq<Results>)
    requires forall i | 0 <= i < |cs| :: cs[i] != {}
    requires !NodeCan(PassFilter, cs, PassFilter) && !NodeCan(PassFilter, cs, NoFilter)
    ensures cs != [] && forall i | 0 <= i < |cs| :: cs[i] == {FailFilter}
  {
    forall i | 0 <= i < |cs| ensures PassFilter !in cs[i] && CanGoOn(PassFilter, cs[i]) {
      OnlyAnswer(cs[i], PassFilter);
    }
    forall i | 0 <= i < |cs| ensures cs[i] == {FailFilter} {
      assert NoFilter !in cs[i] && PassFilter !in cs[i];
      forall v | v in cs[i] ensures v == FailFilter {
        assert v.PassFilter? || v.FailFilter? || v.NoFilter?;
      }
      OnlyAnswer(cs[i], FailFilter);
    }
  }

  /** What Not refuses, over an arbitrary inner spec. */
  lemma NotRefusesIff(sql: Cesql, inner: Spec, ev: Event, m: bool)
    ensures RefusesExactly(NotOutcomes(Outcomes(sql, inner, ev)), m) <==> NotCondition(sql, inner, ev, m)
  {
    var c := Outcomes(sql, inner, ev);
    if c != {} {
      OnlyAnswer(c, PassFilter);
      forall v | v in c ensures Negate(v) in NotOutcomes(c) {
      }
      assert forall v: FilterResult :: Negate(v) == FailFilter <==> v == PassFilter;
    } else {
      assert NoFilter in NotOutcomes(c);
    }
  }

  /**
    For every spec that gives a filter, whatever its parts: its filter refuses exactly the events
    that its meaning refuses if and only if the refusal condition holds of its parts, and decides
    the meaning if and only if the verdict on it is its one outcome.  Where the parts are clean or
    dropped, both are guards on the meanings of the parts.
   */
  lemma MaterializedMeaning(sql: Cesql, s: Spec, ev: Event)
    requires !Skipped(sql, s)
    ensures
      var f, m := Materialize(sql, s), Meaning(sql, s, ev);
      && f.Some?
      && (RefusesIff(sql, f.value, ev, m) <==> RefusalCondition(sql, s, ev, m))
      && (Decides(sql, f.value, ev, m) <==> Settled(sql, s, ev))
      && (Dialects(s) == 1 && CleanParts(sql, s, ev) ==>
            && (Settled(sql, s, ev) <==> Guard(sql, s, ev))
            && (RefusalCondition(sql, s, ev, m) <==> RefusalGuard(sql, s, ev)))
  {
    var m := Meaning(sql, s, ev);
    AnswersAreOutcomes(sql, s, ev);
    SkippedIff(sql, s, ev);
    OutcomesDecide(sql, Materialize(sql, s).value, ev, Outcomes(sql, s, ev), m);
    RefusalByParts(sql, s, ev, m);
    if Dialects(s) == 1 && CleanParts(sql, s, ev) {
      CleanPartsSettled(sql, s, ev);
      SettledParts(sql, s, ev);
    }
  }

  lemma RefusalByParts(sql: Cesql, s: Spec, ev: Event, m: bool)
    requires !Skipped(sql, s)
    ensures RefusesExactly(Outcomes(sql, s, ev), m) <==> RefusalCondition(sql, s, ev, m)
  {
    SingleOutcome(Outcomes(sql, s, ev), m);
    if s.exact != map[] || s.prefix != map[] || s.suffix != map[] {
    } else if s.all != [] {
      AllRefusesIff(sql, s.all, ev, m);
    } else if s.any != [] {
      AnyRefusesIff(sql, s.any, ev, m);
    } else if s.not.Some? {
      NotRefusesIff(sql, s.not.value, ev, m);
    }
  }

  /** An empty object refuses nothing, so leaving it out of a conjunction changes nothing. */
  lemma EmptyObjectsInAll(sql: Cesql, specs: seq<Spec>, ev: Event)
    requires forall i | 0 <= i < |specs| && Skipped(sql, specs[i]) :: Dialects(specs[i]) == 0
    ensures AllGuard(sql, specs, ev)
  {
    forall i | 0 <= i < |specs| && Skipped(sql, specs[i]) ensures Meaning(sql, specs[i], ev) {
      assert Dialects(specs[i]) == 0;
    }
  }

  /** Every spec accepts the event. */
  predicate AllMean(sql: Cesql, specs: seq<Spec>, ev: Event) {
    forall i | 0 <= i < |specs| :: Meaning(sql, specs[i], ev)
  }

  /** For every list of specs and every m: when a trigger's filter refuses exactly if m is false. */
  lemma TriggerRefusesIff(sql: Cesql, specs: seq<Spec>, ev: Event, m: bool)
    ensures RefusesIff(sql, Create(sql, specs), ev, m) <==> AllCondition(sql, specs, ev, m)
  {
    if specs == [] {
      assert Answers(sql, PassThrough, ev, NoFilter);
    } else {
      ListAnswers(sql, specs, ev);
      NodesAnswer(sql, MaterializeList(sql, specs), ev, OutcomesList(sql, specs, ev));
      OutcomesDecide(sql, Create(sql, specs), ev, NodeOutcomes(FailFilter, OutcomesList(sql, specs, ev)), m);
      AllRefusesIff(sql, specs, ev, m);
    }
  }

  /**
    The filter of a trigger refuses exactly the events that one of its specs refuses if and only if
    no spec may answer Fail on an event they all accept, or some spec must on one that they do not.
    If every spec is clean or dropped, that is so exactly if the dropped ones do not matter.
   */
  lemma TriggerFilterMeaning(sql: Cesql, specs: seq<Spec>, ev: Event)
    ensures
      var m := AllMean(sql, specs, ev);
      && (RefusesIff(sql, Create(sql, specs), ev, m) <==> AllCondition(sql, specs, ev, m))
      && ((forall i | 0 <= i < |specs| :: Skipped(sql, specs[i]) || Clean(sql, specs[i], ev)) ==>
            (AllCondition(sql, specs, ev, m) <==> AllGuard(sql, specs, ev)))
  {
    var m := AllMean(sql, specs, ev);
    TriggerRefusesIff(sql, specs, ev, m);
    if forall i | 0 <= i < |specs| :: Skipped(sql, specs[i]) || Clean(sql, specs[i], ev) {
      forall i | 0 <= i < |specs| ensures Skipped(sql, specs[i]) || Settled(sql, specs[i], ev) {
        if !Skipped(sql, specs[i]) {
          CleanIsSettled(sql, specs[i], ev);
        }
      }
      AllMeaningIff(sql, specs, ev);
      AllRefusesIff(sql, specs, ev, m);
    }
  }

  // ---------- admission ----------

  /** hasMultipleDialects of the webhook. */
  method HasMultipleDialects(s: Spec) returns (multiple: bool)
    ensures multiple <==> Dialects(s) > 1
  {
    var found := s.exact != map[];
    if s.prefix != map[] {
      if found {
        return true;
      }
      found := true;
    }
    if s.suffix != map[] {
      if found {
        return true;
      }
      found := true;
    }
    if s.all != [] {
      if found {
        return true;
      }
      found := true;
    }
    if s.any != [] {
      if found {
        return true;
      }
      found := true;
    }
    if s.not.Some? {
      if found {
        return true;
      }
      found := true;
    }
    multiple := s.cesql != "" && found;
  }

  /** A letter, then letters and digits, all lower-case. */
  predicate ValidName(name: string) {
    name != "" && 'a' <= name[0] <= 'z' && forall c <- name :: 'a' <= c <= 'z' || '0' <= c <= '9'
  }

  predicate ValidNames(attrs: Attributes) { forall k <- attrs :: ValidName(k) }

  /** ValidateSubscriptionAPIFilter: an empty object and an empty attribute value are let in. */
  predicate Admitted(sql: Cesql, s: Spec) {
    && Dialects(s) <= 1
    && ValidNames(s.exact) && ValidNames(s.prefix) && ValidNames(s.suffix)
    && (forall i | 0 <= i < |s.all| :: Admitted(sql, s.all[i]))
    && (forall i | 0 <= i < |s.any| :: Admitted(sql, s.any[i]))
    && (s.not.Some? ==> Admitted(sql, s.not.value))
    && (s.cesql != "" ==> sql.parses(s.cesql))
  }

  predicate NoEmptyValue(attrs: Attributes) { forall k <- attrs :: attrs[k] != "" }

  /** No empty value, and an empty object at most beside a full spec in `all`. */
  predicate Full(s: Spec) {
    && Dialects(s) >= 1
    && NoEmptyValue(s.exact) && NoEmptyValue(s.prefix) && NoEmptyValue(s.suffix)
    && (forall i | 0 <= i < |s.all| :: Dialects(s.all[i]) == 0 || Full(s.all[i]))
    && (s.all != [] ==> exists i | 0 <= i < |s.all| :: Full(s.all[i]))
    && (forall i | 0 <= i < |s.any| :: Full(s.any[i]))
    && (s.not.Some? ==> Full(s.not.value))
  }

  lemma FullIsKept(sql: Cesql, s: Spec)
    requires Admitted(sql, s)
    ensures Full(s) ==> !Skipped(sql, s)
    ensures Dialects(s) == 0 ==> Skipped(sql, s)
  {
  }

  /** An admitted full spec is clean at every event, so its filter always decides its meaning. */
  lemma {:induction false} FullIsClean(sql: Cesql, s: Spec, ev: Event)
    requires Admitted(sql, s) && Full(s)
    ensures Clean(sql, s, ev)
  {
    FullIsKept(sql, s);
    forall i | 0 <= i < |s.all| ensures Skipped(sql, s.all[i]) || Clean(sql, s.all[i], ev) {
      FullIsKept(sql, s.all[i]);
      if Full(s.all[i]) {
        FullIsClean(sql, s.all[i], ev);
      }
    }
    forall i | 0 <= i < |s.any| ensures !Skipped(sql, s.any[i]) && Clean(sql, s.any[i], ev) {
      FullIsKept(sql, s.any[i]);
      FullIsClean(sql, s.any[i], ev);
    }
    if s.not.Some? {
      FullIsKept(sql, s.not.value);
      FullIsClean(sql, s.not.value, ev);
    }
    FullGuard(sql, s, ev);
  }

  lemma FullGuard(sql: Cesql, s: Spec, ev: Event)
    requires Admitted(sql, s) && Full(s)
    ensures Guard(sql, s, ev)
  {
    FullIsKept(sql, s);
    forall i | 0 <= i < |s.all| ensures if Full(s.all[i]) then !Skipped(sql, s.all[i]) else Dialects(s.all[i]) == 0 {
      FullIsKept(sql, s.all[i]);
    }
    if s.all != [] {
      EmptyObjectsInAll(sql, s.all, ev);
    }
    forall i | 0 <= i < |s.any| ensures !Skipped(sql, s.any[i]) {
      FullIsKept(sql, s.any[i]);
    }
    if s.any != [] {
      assert !Skipped(sql, s.any[0]);
    }
    if s.not.Some? {
      FullIsKept(sql, s.not.value);
    }
  }

  lemma AdmittedMeaning(sql: Cesql, s: Spec, ev: Event)
    requires Admitted(sql, s) && Full(s)
    ensures Materialize(sql, s).Some? && Decides(sql, Materialize(sql, s).value, ev, Meaning(sql, s, ev))
  {
    FullIsClean(sql, s, ev);
    FullIsKept(sql, s);
    MaterializedMeaning(sql, s, ev);
  }

  // ---------- more than one dialect ----------

  const EMPTY_SPEC := Spec([], [], None, map[], map[], map[], "")

  /** The dialect that the compiler looks at. */
  function First(s: Spec): Spec {
    if s.exact != map[] then EMPTY_SPEC.(exact := s.exact)
    else if s.prefix != map[] then EMPTY_SPEC.(prefix := s.prefix)
    else if s.suffix != map[] then EMPTY_SPEC.(suffix := s.suffix)
    else if s.all != [] then EMPTY_SPEC.(all := s.all)
    else if s.any != [] then EMPTY_SPEC.(any := s.any)
    else if s.not.Some? then EMPTY_SPEC.(not := s.not)
    else EMPTY_SPEC.(cesql := s.cesql)
  }

  /** The dialects that it does not look at. */
  function Rest(s: Spec): Spec {
    if s.exact != map[] then s.(exact := map[])
    else if s.prefix != map[] then s.(prefix := map[])
    else if s.suffix != map[] then s.(suffix := map[])
    else if s.all != [] then s.(all := [])
    else if s.any != [] then s.(any := [])
    else if s.not.Some? then s.(not := None)
    else s.(cesql := "")
  }

  lemma FirstIsCompiled(sql: Cesql, s: Spec)
    ensures Materialize(sql, s) == Materialize(sql, First(s))
    ensures Dialects(First(s)) <= 1 && Dialects(s) == Dialects(First(s)) + Dialects(Rest(s))
  {
  }

  lemma {:induction false} FirstAndRest(sql: Cesql, s: Spec, ev: Event)
    ensures Meaning(sql, s, ev) <==> Meaning(sql, First(s), ev) && Meaning(sql, Rest(s), ev)
  {
    assert Meaning(sql, EMPTY_SPEC, ev);
  }

  /**
    Every spec, whatever it sets, is compiled to its first dialect, against the documented
    conjunction: its filter decides the spec's meaning if and only if the first dialect's one outcome
    is the verdict on all of them; where the first dialect is settled, that is so exactly if it
    refuses the event or all the others accept it.
   */
  lemma FirstDialectIff(sql: Cesql, s: Spec, ev: Event)
    requires !Skipped(sql, s)
    ensures
      var f, first, rest := Materialize(sql, s), Meaning(sql, First(s), ev), Meaning(sql, Rest(s), ev);
      && f.Some?
      && (Decides(sql, f.value, ev, Meaning(sql, s, ev)) <==> Outcomes(sql, First(s), ev) == {Verdict(first && rest)})
      && (Settled(sql, First(s), ev) ==>
            (Decides(sql, f.value, ev, Meaning(sql, s, ev)) <==> !first || rest))
  {
    var first, rest := Meaning(sql, First(s), ev), Meaning(sql, Rest(s), ev);
    FirstIsCompiled(sql, s);
    FirstAndRest(sql, s, ev);
    AnswersAreOutcomes(sql, First(s), ev);
    SkippedIff(sql, s, ev);
    OutcomesDecide(sql, Materialize(sql, s).value, ev, Outcomes(sql, First(s), ev), first && rest);
    assert Verdict(first) in {Verdict(first)} && Verdict(first && rest) in {Verdict(first && rest)};
  }

  // ---------- empty objects that do matter ----------

  const TYPE_A := EMPTY_SPEC.(exact := map["type" := "a"])

  lemma TypeA(sql: Cesql, ev: Event)
    ensures !Skipped(sql, TYPE_A) && Clean(sql, TYPE_A, ev) && Admitted(sql, TYPE_A)
    ensures Meaning(sql, TYPE_A, ev) <==> "type" in ev && ev["type"] == "a"
    ensures Skipped(sql, EMPTY_SPEC) && Meaning(sql, EMPTY_SPEC, ev) && Admitted(sql, EMPTY_SPEC)
  {
    assert "type" in TYPE_A.exact;
  }

  lemma OnlyTypeAKept(sql: Cesql, specs: seq<Spec>, ev: Event)
    requires specs == [EMPTY_SPEC, TYPE_A] && "type" !in ev
    ensures NodeOutcomes(PassFilter, OutcomesList(sql, specs, ev)) == {FailFilter}
  {
    TypeA(sql, ev);
    CleanIsSettled(sql, TYPE_A, ev);
    assert !Skipped(sql, specs[1]);
    SettledAnyNode(sql, specs, ev);
  }

  /** any: [{}, {exact: {type: a}}] is admitted and accepts every event; its filter refuses those without that type. */
  lemma EmptyInAny(sql: Cesql, ev: Event)
    requires "type" !in ev
    ensures
      var s := EMPTY_SPEC.(any := [EMPTY_SPEC, TYPE_A]);
      && Admitted(sql, s) && Meaning(sql, s, ev)
      && Materialize(sql, s).Some? && Decides(sql, Materialize(sql, s).value, ev, false)
  {
    var s := EMPTY_SPEC.(any := [EMPTY_SPEC, TYPE_A]);
    assert s.any[0] == EMPTY_SPEC && s.any[1] == TYPE_A;
    TypeA(sql, ev);
    MeaningOfAny(sql, s, ev);
    OnlyTypeAKept(sql, s.any, ev);
    AnswersAreOutcomes(sql, s, ev);
    SkippedIff(sql, s, ev);
    OutcomesDecide(sql, Materialize(sql, s).value, ev, Outcomes(sql, s, ev), false);
  }

  /** not: {} is admitted and accepts no event; its filter gives no answer on any, which lets them all through. */
  lemma EmptyInNot(sql: Cesql, ev: Event)
    ensures
      var s := EMPTY_SPEC.(not := Some(EMPTY_SPEC));
      && Admitted(sql, s) && !Meaning(sql, s, ev)
      && Materialize(sql, s) == Some(NotFilter(None)) && CanAnswer(sql, NotFilter(None), ev, {NoFilter})
  {
    TypeA(sql, ev);
  }

  /** not: {not: {}} accepts every event, and its filter gives no answer either. */
  lemma EmptyInNotNot(sql: Cesql, ev: Event)
    ensures
      var s := EMPTY_SPEC.(not := Some(EMPTY_SPEC.(not := Some(EMPTY_SPEC))));
      && Admitted(sql, s) && Meaning(sql, s, ev)
      && Materialize(sql, s).Some? && CanAnswer(sql, Materialize(sql, s).value, ev, {NoFilter})
  {
    var not := EMPTY_SPEC.(not := Some(EMPTY_SPEC));
    TypeA(sql, ev);
    EmptyInNot(sql, ev);
    AnswersAreOutcomes(sql, not, ev);
    NotAnswers(sql, NotFilter(None), ev, {NoFilter});
  }

  /** any: [{not: {}}, {exact: {type: a}}] can answer Fail and NoFilter, by the order of its filters. */
  lemma EmptyNotIsOrderDependent(sql: Cesql, ev: Event)
    requires "type" !in ev
    ensures
      var s := EMPTY_SPEC.(any := [EMPTY_SPEC.(not := Some(EMPTY_SPEC)), TYPE_A]);
      && Admitted(sql, s)
      && Materialize(sql, s).Some? && CanAnswer(sql, Materialize(sql, s).value, ev, {FailFilter, NoFilter})
  {
    var no := EMPTY_SPEC.(not := Some(EMPTY_SPEC));
    var s := EMPTY_SPEC.(any := [no, TYPE_A]);
    TypeA(sql, ev);
    CleanIsSettled(sql, TYPE_A, ev);
    assert s.any[0] == no && s.any[1] == TYPE_A && s.any[..1] == [no] && [no][..0] == [];
    assert OutcomesList(sql, [no], ev) == [{NoFilter}];
    var cs := OutcomesList(sql, s.any, ev);
    assert cs == [{NoFilter}, {FailFilter}];
    assert NodeOutcomes(PassFilter, cs) == {FailFilter, NoFilter} by {
      assert NoFilter in cs[0] && FailFilter in cs[1];
    }
    AnswersAreOutcomes(sql, s, ev);
    SkippedIff(sql, s, ev);
  }
}
