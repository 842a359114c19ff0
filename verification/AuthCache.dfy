/**
  The auth proxy's cache of allowed subjects (cmd/auth_proxy/main.go): filled under a write lock
  after a second look, and cleared by an informer handler that runs after the store has changed.
 */
module AuthCache {
  import opened Wrappers

  /** The handler's cache field; an empty list of subjects is cached like any other. */
  class ProxyHandler<S> {
    var cachedSubjects: Option<S>

    constructor ()
      ensures cachedSubjects == None
    {
      cachedSubjects := None;
    }

    method InvalidateSubjectsCache()
      modifies this
      ensures cachedSubjects == None
    {
      cachedSubjects := None;
    }

    /** getAuthSubjects with nothing else running; `computed` is what the policy store gives, None for an error. */
    method GetAuthSubjects(computed: Option<S>) returns (answer: Option<S>)
      modifies this
      ensures answer == Served(old(cachedSubjects), computed)
      ensures cachedSubjects == answer
    {
      if cachedSubjects.Some? {
        return cachedSubjects;
      }
      if computed.None? {
        return None;
      }
      cachedSubjects := computed;
      answer := computed;
    }
  }

  function Served<S>(cache: Option<S>, computed: Option<S>): Option<S> { if cache.Some? then cache else computed }

  // ---------- requests, policy changes and invalidations running together ----------

  /** A request in getAuthSubjects; Done holds its answer, None for an error. */
  datatype Thread<S> = Idle | Missed | Locked | Reading | Computed(subjects: Option<S>) | Done(answer: Option<S>)

  /**
    store is the informer's policies; pending counts the store changes whose handler has not yet
    cleared the cache; writer is the thread that holds the write lock.
   */
  datatype State<P, S> = State(store: P, cache: Option<S>, pending: nat, threads: seq<Thread<S>>, writer: Option<nat>)

  datatype Step<P> =
    | ChangeStore(store: P)
    | Invalidate
    | Start
    | FastPath(thread: nat)
    | Lock(thread: nat)
    | DoubleCheck(thread: nat)
    | ReadStore(thread: nat)
    | Publish(thread: nat)

  predicate Enabled<P, S>(s: State<P, S>, step: Step<P>) {
    match step
    case ChangeStore(_) => true
    case Invalidate => s.pending > 0 && s.writer.None?
    case Start => true
    case FastPath(t) => t < |s.threads| && s.threads[t].Idle? && s.writer.None?
    case Lock(t) => t < |s.threads| && s.threads[t].Missed? && s.writer.None?
    case DoubleCheck(t) => t < |s.threads| && s.threads[t].Locked?
    case ReadStore(t) => t < |s.threads| && s.threads[t].Reading?
    case Publish(t) => t < |s.threads| && s.threads[t].Computed?
  }

  /** subjectsOf lists the policies of the parent resource and converts them; None is its error. */
  function Do<P, S>(subjectsOf: P -> Option<S>, s: State<P, S>, step: Step<P>): State<P, S>
    requires Enabled(s, step)
  {
    match step
    case ChangeStore(store) => s.(store := store, pending := s.pending + 1)
    case Invalidate => s.(cache := None, pending := s.pending - 1)
    case Start => s.(threads := s.threads + [Idle])
    case FastPath(t) => s.(threads := s.threads[t := if s.cache.Some? then Done(s.cache) else Missed])
    case Lock(t) => s.(threads := s.threads[t := Locked], writer := Some(t))
    case DoubleCheck(t) =>
      if s.cache.Some? then s.(threads := s.threads[t := Done(s.cache)], writer := None)
      else s.(threads := s.threads[t := Reading])
    case ReadStore(t) => s.(threads := s.threads[t := Computed(subjectsOf(s.store))])
    case Publish(t) =>
      var r := s.threads[t].subjects;
      s.(cache := if r.Some? then r else s.cache, threads := s.threads[t := Done(r)], writer := None)
  }

  predicate HoldsLock<S>(t: Thread<S>) { t.Locked? || t.Reading? || t.Computed? }

  /** With no invalidation outstanding, the cache and the value about to be cached are current. */
  ghost predicate Good<P, S>(subjectsOf: P -> Option<S>, s: State<P, S>) {
    && (s.writer.Some? ==> s.writer.value < |s.threads|)
    && (forall t | 0 <= t < |s.threads| :: HoldsLock(s.threads[t]) <==> s.writer == Some(t))
    && (s.pending == 0 ==> s.cache.None? || s.cache == subjectsOf(s.store))
    && (s.pending == 0 ==>
          forall t | 0 <= t < |s.threads| && s.threads[t].Computed? :: s.threads[t].subjects == subjectsOf(s.store))
  }

  lemma StepKeepsGood<P, S>(subjectsOf: P -> Option<S>, s: State<P, S>, step: Step<P>)
    requires Good(subjectsOf, s) && Enabled(s, step)
    ensures Good(subjectsOf, Do(subjectsOf, s, step))
  {
    var s' := Do(subjectsOf, s, step);
    if step.Invalidate? {
      assert forall t | 0 <= t < |s.threads| :: !HoldsLock(s.threads[t]);
    }
    if step.ReadStore? || step.DoubleCheck? || step.Publish? {
      assert s.writer == Some(step.thread);
    }
  }

  function After<P, S>(subjectsOf: P -> Option<S>, initial: P, steps: seq<Step<P>>): Option<State<P, S>> {
    if steps == [] then Some(State(initial, None, 0, [], None))
    else
      var s := After(subjectsOf, initial, steps[..|steps| - 1]);
      if s.Some? && Enabled(s.value, steps[|steps| - 1])
      then Some(Do(subjectsOf, s.value, steps[|steps| - 1]))
      else None
  }

  lemma {:induction false} RunKeepsGood<P, S>(subjectsOf: P -> Option<S>, initial: P, steps: seq<Step<P>>)
    requires After(subjectsOf, initial, steps).Some?
    ensures Good(subjectsOf, After(subjectsOf, initial, steps).value)
  {
    if steps != [] {
      RunKeepsGood(subjectsOf, initial, steps[..|steps| - 1]);
      StepKeepsGood(subjectsOf, After(subjectsOf, initial, steps[..|steps| - 1]).value, steps[|steps| - 1]);
    }
  }

  /**
    In every reachable state without an outstanding invalidation the cache is empty or current, so
    a request answered from it gets the subjects of the policies as they are.
   */
  lemma QuietCacheIsCurrent<P, S>(subjectsOf: P -> Option<S>, initial: P, steps: seq<Step<P>>, t: nat)
    requires After(subjectsOf, initial, steps).Some? && After(subjectsOf, initial, steps).value.pending == 0
    ensures
      var s := After(subjectsOf, initial, steps).value;
      && (s.cache.None? || s.cache == subjectsOf(s.store))
      && (Enabled(s, FastPath(t)) ==> Do(subjectsOf, s, FastPath(t)).threads[t] in {Missed, Done(subjectsOf(s.store))})
      && (Enabled(s, DoubleCheck(t)) ==>
            Do(subjectsOf, s, DoubleCheck(t)).threads[t] in {Reading, Done(subjectsOf(s.store))})
      && (Enabled(s, DoubleCheck(t)) ==> (Do(subjectsOf, s, DoubleCheck(t)).threads[t] == Reading <==> s.cache.None?))
      && (Enabled(s, FastPath(t)) ==> (Do(subjectsOf, s, FastPath(t)).threads[t] == Missed <==> s.cache.None?))
      && (Enabled(s, Publish(t)) ==> Do(subjectsOf, s, Publish(t)).threads[t].answer == subjectsOf(s.store))
  {
    RunKeepsGood(subjectsOf, initial, steps);
  }

  /** A cache is filled, the store changes, and a request starts before the cache is cleared. */
  function StaleRun<P>(changed: P): seq<Step<P>> {
    [Start, FastPath(0), Lock(0), DoubleCheck(0), ReadStore(0), Publish(0)] + [ChangeStore(changed), Start, FastPath(1)]
  }

  lemma AfterAppend<P, S>(subjectsOf: P -> Option<S>, initial: P, steps: seq<Step<P>>, step: Step<P>)
    requires After(subjectsOf, initial, steps).Some? && Enabled(After(subjectsOf, initial, steps).value, step)
    ensures After(subjectsOf, initial, steps + [step])
         == Some(Do(subjectsOf, After(subjectsOf, initial, steps).value, step))
  {
    assert (steps + [step])[..|steps|] == steps;
  }

  /** While an invalidation is outstanding, a request can be answered with the subjects of the old policies. */
  lemma StaleWhilePending<P, S>(subjectsOf: P -> Option<S>, initial: P, changed: P)
    requires subjectsOf(initial).Some?
    ensures
      var s := After(subjectsOf, initial, StaleRun(changed));
      && s.Some? && s.value.store == changed && s.value.pending == 1
      && s.value.threads == [Done(subjectsOf(initial)), Done(subjectsOf(initial))]
  {
    var a: seq<Step<P>> := [Start, FastPath(0), Lock(0), DoubleCheck(0), ReadStore(0), Publish(0)];
    FilledByOne(subjectsOf, initial, a);
    AfterAppend(subjectsOf, initial, a, ChangeStore(changed));
    AfterAppend(subjectsOf, initial, a + [ChangeStore(changed)], Start);
    AfterAppend(subjectsOf, initial, a + [ChangeStore(changed)] + [Start], FastPath(1));
    assert StaleRun(changed) == a + [ChangeStore(changed)] + [Start] + [FastPath(1)];
  }

  lemma FilledByOne<P, S>(subjectsOf: P -> Option<S>, initial: P, steps: seq<Step<P>>)
    requires steps == [Start, FastPath(0), Lock(0), DoubleCheck(0), ReadStore(0), Publish(0)]
    requires subjectsOf(initial).Some?
    ensures After(subjectsOf, initial, steps)
         == Some(State(initial, subjectsOf(initial), 0, [Done(subjectsOf(initial))], None))
  {
    LockedByOne(subjectsOf, initial, steps[..3]);
    var r := subjectsOf(initial);
    NextIs(subjectsOf, initial, steps, 3, [Reading], State(initial, None, 0, [Reading], Some(0)));
    NextIs(subjectsOf, initial, steps, 4, [Computed(r)], State(initial, None, 0, [Computed(r)], Some(0)));
    NextIs(subjectsOf, initial, steps, 5, [Done(r)], State(initial, r, 0, [Done(r)], None));
    assert steps[..6] == steps;
  }

  lemma LockedByOne<P, S>(subjectsOf: P -> Option<S>, initial: P, steps: seq<Step<P>>)
    requires steps == [Start, FastPath(0), Lock(0)]
    ensures After(subjectsOf, initial, steps) == Some(State(initial, None, 0, [Locked], Some(0)))
  {
    assert steps[..0] == [];
    NextIs(subjectsOf, initial, steps, 0, [Idle], State(initial, None, 0, [Idle], None));
    NextIs(subjectsOf, initial, steps, 1, [Missed], State(initial, None, 0, [Missed], None));
    NextIs(subjectsOf, initial, steps, 2, [Locked], State(initial, None, 0, [Locked], Some(0)));
    assert steps[..3] == steps;
  }

  /** Step n leads to `next`, in which the threads are these. */
  lemma NextIs<P, S>(subjectsOf: P -> Option<S>, initial: P, steps: seq<Step<P>>, n: nat, threads: seq<Thread<S>>,
                     next: State<P, S>)
    requires n < |steps| && After(subjectsOf, initial, steps[..n]).Some?
    requires Enabled(After(subjectsOf, initial, steps[..n]).value, steps[n])
    requires Do(subjectsOf, After(subjectsOf, initial, steps[..n]).value, steps[n]).(threads := threads) == next
    requires |Do(subjectsOf, After(subjectsOf, initial, steps[..n]).value, steps[n]).threads| == |threads|
    requires forall i | 0 <= i < |threads| ::
      Do(subjectsOf, After(subjectsOf, initial, steps[..n]).value, steps[n]).threads[i] == threads[i]
    ensures After(subjectsOf, initial, steps[..n + 1]) == Some(next)
  {
    AfterAppend(subjectsOf, initial, steps[..n], steps[n]);
    assert steps[..n] + [steps[n]] == steps[..n + 1];
    assert Do(subjectsOf, After(subjectsOf, initial, steps[..n]).value, steps[n]).threads == threads;
  }

  /** The steps of one request from its start, if no other step comes between. */
  function Alone<P, S>(subjectsOf: P -> Option<S>, s: State<P, S>, t: nat): State<P, S>
    requires Enabled(s, FastPath(t))
  {
    var s1 := Do(subjectsOf, s, FastPath(t));
    if s1.threads[t].Done? then s1
    else
      var s2 := Do(subjectsOf, Do(subjectsOf, s1, Lock(t)), DoubleCheck(t));
      Do(subjectsOf, Do(subjectsOf, s2, ReadStore(t)), Publish(t))
  }

  /** Run alone, the steps of a request do what getAuthSubjects does. */
  lemma AloneIsGetAuthSubjects<P, S>(subjectsOf: P -> Option<S>, s: State<P, S>, t: nat)
    requires Enabled(s, FastPath(t))
    ensures
      var answer := Served(s.cache, subjectsOf(s.store));
      Alone(subjectsOf, s, t) == s.(cache := answer, threads := s.threads[t := Done(answer)])
  {
    var all := Alone(subjectsOf, s, t).threads;
    assert all == s.threads[t := all[t]];
  }

  /**
    In every reachable state without an outstanding invalidation, a request that starts and is not
    disturbed answers with the subjects of the policies as they are, and leaves them cached.
   */
  lemma QuietRequestIsCurrent<P, S>(subjectsOf: P -> Option<S>, initial: P, steps: seq<Step<P>>, t: nat)
    requires After(subjectsOf, initial, steps).Some? && After(subjectsOf, initial, steps).value.pending == 0
    requires Enabled(After(subjectsOf, initial, steps).value, FastPath(t))
    ensures
      var s := After(subjectsOf, initial, steps).value;
      var alone := Alone(subjectsOf, s, t);
      t < |alone.threads| && alone.threads[t] == Done(subjectsOf(s.store)) && alone.cache == subjectsOf(s.store)
  {
    RunKeepsGood(subjectsOf, initial, steps);
    AloneIsGetAuthSubjects(subjectsOf, After(subjectsOf, initial, steps).value, t);
  }

  /** The write lock excludes: two threads are never both filling the cache. */
  lemma OneFiller<P, S>(subjectsOf: P -> Option<S>, initial: P, steps: seq<Step<P>>, t: nat, u: nat)
    requires After(subjectsOf, initial, steps).Some?
    requires t < |After(subjectsOf, initial, steps).value.threads|
    requires u < |After(subjectsOf, initial, steps).value.threads|
    requires HoldsLock(After(subjectsOf, initial, steps).value.threads[t])
    requires HoldsLock(After(subjectsOf, initial, steps).value.threads[u])
    ensures t == u
  {
    RunKeepsGood(subjectsOf, initial, steps);
  }
}
