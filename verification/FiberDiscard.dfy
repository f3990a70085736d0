/**
  Deleting a fiber that has not finished, with a context (libhilti/context.c, libhilti/threading.c): it may go into a
  pool as it is. When that does harm, and to what.
*/
module FiberDiscard {
  import opened Fiber

  // Steps of the protocol, and discarding a fiber; `seen` is what the check without the lock has found.
  datatype Event = Normal(step: Step) | Discard(t: Tid, f: Fid, seen: bool)

  ghost predicate MayHappen(s: Sys, e: Event) {
    match e
    case Normal(step) => Enabled(s, step)
    case Discard(t, f, _) => t in s.local && f in s.fibers && s.fibers[f].place == InUse
  }

  function After(s: Sys, e: Event): Sys {
    match e
    case Normal(step) => Apply(s, step)
    case Discard(t, f, seen) => if t in s.local && f in s.fibers then Recycled(s, t, f, seen) else s
  }

  // The fiber is kept in a pool, rather than freed.
  ghost predicate Keeps(s: Sys, e: Event) {
    e.Discard? && e.f in After(s, e).fibers
  }

  ghost predicate Harmless(s: Sys, e: Event) {
    Keeps(s, e) ==> e.f in s.fibers && s.fibers[e.f].state.IDLE?
  }

  // Whatever happens from now on, without further discarding, no assertion fails.
  ghost predicate AlwaysSafe(s: Sys) {
    forall steps: seq<Step> | IsRun(s, steps) :: SafeRun(s, steps)
  }

  lemma InvAlwaysSafe(s: Sys)
    requires Inv(s)
    ensures AlwaysSafe(s)
  {
    forall steps: seq<Step> | IsRun(s, steps)
      ensures SafeRun(s, steps)
    {
      RunsAreSafe(s, steps);
    }
  }

  // A fiber that is idle and in use has been recycled for a job that was never started.
  lemma IdleInUse(s: Sys, f: Fid)
    requires Inv(s) && f in s.fibers && s.fibers[f].place == InUse && s.fibers[f].state.IDLE?
    ensures s.fibers[f].run.Some? && s.fibers[f].run.value !in s.started && s.fibers[f].target.Top?
  {
    assert FiberOk(s, f);
  }

  lemma HarmlessInv(s: Sys, e: Event)
    requires Inv(s) && MayHappen(s, e) && Harmless(s, e)
    ensures Inv(After(s, e))
  {
    match e
    case Normal(step) => StepInv(s, step);
    case Discard(t, f, seen) =>
      assert FiberOk(s, f);
      NotOnStack(s, f);
      if Keeps(s, e) {
        RecycledInv(s, t, f, seen);
      } else {
        RecycledOrGone(s, t, f, seen);
        GoneInv(s, f);
      }
  }

  lemma NotOnStack(s: Sys, f: Fid)
    requires Inv(s) && f in s.fibers && s.fibers[f].place == InUse
    ensures forall u | u in s.stacks :: f !in s.stacks[u]
  {
    forall u | u in s.stacks
      ensures f !in s.stacks[u]
    {
      assert StackOk(s, u);
    }
  }

  lemma RecycledOrGone(s: Sys, t: Tid, f: Fid, seen: bool)
    requires t in s.local && f in s.fibers
    ensures var s' := Recycled(s, t, f, seen);
      if f in s'.fibers then
        && t in s'.local && s'.local[t].list != [] && s'.local[t].list[0] == f && s'.created == s.created
        && s'.fibers[f].state == s.fibers[f].state && s'.fibers[f].run == s.fibers[f].run
        && s'.fibers[f].place == InLocal(t)
      else s' == s.(fibers := s.fibers - {f})
  {
  }

  lemma {:induction false} Fresh(taken: set<nat>) returns (n: nat)
    ensures n !in taken && forall m | m in taken :: m < n
  {
    n := 0;
    if taken != {} {
      var m :| m in taken;
      n := Fresh(taken - {m});
      var below := n;
      if n <= m {
        n := m + 1;
      }
      forall k | k in taken
        ensures k < n
      {
        assert k != m ==> k in taken - {m} && k < below;
      }
    }
  }

  // A kept fiber comes first in its pool, so that the next one to ask for a fiber notices.
  lemma HarmShows(s: Sys, e: Event)
    requires MayHappen(s, e) && !Harmless(s, e)
    ensures !AlwaysSafe(After(s, e))
  {
    var s' := After(s, e);
    RecycledOrGone(s, e.t, e.f, e.seen);
    var fid := Fresh(s'.fibers.Keys);
    var job := Fresh(s'.created.Keys);
    var step := Create(e.t, false, fid, job, 0);
    assert Enabled(s', step) && !Safe(s', step);
    var steps := [step];
    assert steps[0] == step && steps[1..] == [];
    assert IsRun(s', steps);
    assert !SafeRun(s', steps);
  }

  // Discarding does no harm, whatever comes then, exactly if the fiber is freed or idle.
  lemma DiscardIff(s: Sys, e: Event)
    requires Inv(s) && MayHappen(s, e)
    ensures AlwaysSafe(After(s, e)) <==> Harmless(s, e)
  {
    if Harmless(s, e) {
      HarmlessInv(s, e);
      InvAlwaysSafe(After(s, e));
    } else {
      HarmShows(s, e);
    }
  }

  // Even then, a fiber that is kept keeps its job: it is in a pool with a job that nobody will start.
  lemma StaleJob(s: Sys, t: Tid, f: Fid, seen: bool)
    requires Inv(s) && NoJobs(s) && MayHappen(s, Discard(t, f, seen))
    ensures NoJobs(Recycled(s, t, f, seen)) <==> !Keeps(s, Discard(t, f, seen))
  {
    assert FiberOk(s, f);
    RecycledOrGone(s, t, f, seen);
  }

  // ----- Whole histories

  ghost predicate IsHistory(s: Sys, es: seq<Event>)
    decreases |es|
  {
    es == [] || (MayHappen(s, es[0]) && IsHistory(After(s, es[0]), es[1..]))
  }

  ghost function AfterAll(s: Sys, es: seq<Event>): Sys
    decreases |es|
  {
    if es == [] then s else AfterAll(After(s, es[0]), es[1..])
  }

  ghost predicate AllHarmless(s: Sys, es: seq<Event>)
    decreases |es|
  {
    es == [] || (Harmless(s, es[0]) && AllHarmless(After(s, es[0]), es[1..]))
  }

  // At each point of the history, whatever may come is safe.
  ghost predicate SafeThroughout(s: Sys, es: seq<Event>)
    decreases |es|
  {
    AlwaysSafe(s) && (es != [] ==> SafeThroughout(After(s, es[0]), es[1..]))
  }

  // Fibers may be discarded at any time: exactly if all that are kept are idle, nothing can go wrong at any point.
  lemma {:induction false} DiscardsIff(s: Sys, es: seq<Event>)
    requires Inv(s) && IsHistory(s, es)
    ensures SafeThroughout(s, es) <==> AllHarmless(s, es)
    decreases |es|
  {
    hide Inv, AlwaysSafe, Harmless;
    InvAlwaysSafe(s);
    if es != [] {
      DiscardIff(s, es[0]);
      if Harmless(s, es[0]) {
        HarmlessInv(s, es[0]);
        DiscardsIff(After(s, es[0]), es[1..]);
      }
    }
  }

  // Then the invariant holds, so that each job is still entered at most once, with its own cookie, and the pools'
  // sizes stay right.
  lemma {:induction false} HistoryInv(s: Sys, es: seq<Event>)
    requires Inv(s) && IsHistory(s, es) && AllHarmless(s, es)
    ensures Inv(AfterAll(s, es))
    decreases |es|
  {
    hide Inv, Harmless;
    if es != [] {
      HarmlessInv(s, es[0]);
      HistoryInv(After(s, es[0]), es[1..]);
    }
  }

  lemma DiscardedJobs(s: Sys, es: seq<Event>, j: Job, t: Tid)
    requires Init(s) && IsHistory(s, es) && AllHarmless(s, es)
    ensures var e := AfterAll(s, es);
      && Count(e.entered, j) == (if j in e.started then 1 else 0)
      && (forall i | 0 <= i < |e.entered| && e.entered[i].0 == j :: j in e.created && e.entered[i].1 == e.created[j])
      && e.global.size == |e.global.list| && (t in e.local ==> e.local[t].size == |e.local[t].list|)
  {
    InitInv(s);
    HistoryInv(s, es);
    var e := AfterAll(s, es);
    assert JobOk(e, j) && LocalOk(e, t);
    forall i | 0 <= i < |e.entered| && e.entered[i].0 == j
      ensures j in e.created && e.entered[i].1 == e.created[j]
    {
      assert CookieOk(e, i);
    }
  }
}
