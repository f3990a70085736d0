/**
  What becomes of a job (libhilti/fiber.c): how often its fiber has been started, has yielded and has finished, and
  whether it is running.
*/
module FiberJobs {
  import opened Wrappers
  import opened Sequences
  import opened Fiber

  ghost predicate Stacked(s: Sys, f: Fid) {
    exists t :: t in s.stacks && f in s.stacks[t]
  }

  function JobOf(s: Sys, f: Fid): Option<Job> {
    if f in s.fibers then s.fibers[f].run else None
  }

  // Some thread is executing the job, or is executing a fiber that the job has started.
  ghost predicate Running(s: Sys, j: Job) {
    exists f :: Stacked(s, f) && JobOf(s, f) == Some(j)
  }

  function TopJob(s: Sys, t: Tid): Option<Job> {
    if t in s.stacks && s.stacks[t] != [] then JobOf(s, s.stacks[t][0]) else None
  }

  function One(b: bool): nat {
    if b then 1 else 0
  }

  function StartsOf(s: Sys, step: Step, j: Job): nat {
    One(step.Start? && JobOf(s, step.f) == Some(j))
  }

  function PausesOf(s: Sys, step: Step, j: Job): nat {
    One(step.Yield? && TopJob(s, step.t) == Some(j))
  }

  function EndsOf(s: Sys, step: Step, j: Job): nat {
    One(step.Finish? && TopJob(s, step.t) == Some(j))
  }

  function DropsOf(s: Sys, step: Step, j: Job): nat {
    One(step.Drop? && JobOf(s, step.f) == Some(j))
  }

  datatype Tally = Tally(starts: nat, pauses: nat, ends: nat, drops: nat)

  // How often a run starts, suspends and ends a job, and deletes its fiber without a context
  function TallyOf(s: Sys, steps: seq<Step>, j: Job): Tally
    decreases |steps|
  {
    if steps == [] then Tally(0, 0, 0, 0)
    else
      var rest := TallyOf(Apply(s, steps[0]), steps[1..], j);
      Tally(StartsOf(s, steps[0], j) + rest.starts, PausesOf(s, steps[0], j) + rest.pauses,
            EndsOf(s, steps[0], j) + rest.ends, DropsOf(s, steps[0], j) + rest.drops)
  }

  lemma StackedIs(s: Sys, t: Tid, f: Fid)
    requires Inv(s) && t in s.stacks && f in s.stacks[t]
    ensures f in s.fibers && s.fibers[f].place == On(t) && s.fibers[f].run.Some?
  {
    assert StackOk(s, t) && FiberOk(s, f);
  }

  lemma NotStacked(s: Sys, f: Fid)
    requires Inv(s) && f in s.fibers && !s.fibers[f].place.On?
    ensures !Stacked(s, f)
  {
    if t: Tid :| t in s.stacks && f in s.stacks[t] {
      StackedIs(s, t, f);
    }
  }

  // A step puts at most one fiber on a stack, or takes one off; the others there keep their jobs.
  ghost predicate StackStep(s: Sys, s': Sys, step: Step, f: Fid) {
    var pops :=
      (step.Yield? || step.Finish?) && step.t in s.stacks && s.stacks[step.t] != [] && s.stacks[step.t][0] == f;
    var pushes := step.Start? && step.f == f;
    && (Stacked(s', f) <==> (Stacked(s, f) && !pops) || pushes)
    && (pushes ==> !Stacked(s, f)) && (pops ==> Stacked(s, f))
    && (Stacked(s', f) ==> JobOf(s', f) == JobOf(s, f))
  }

  lemma StackAfter(s: Sys, step: Step, f: Fid)
    requires Inv(s) && Enabled(s, step)
    ensures StackStep(s, Apply(s, step), step, f)
  {
    match step
    case Create(t, seen, fid, job, cookie) => CreateStack(s, t, seen, fid, job, cookie, f);
    case Start(t, g) => StartStack(s, t, g, f);
    case Yield(t) => YieldStack(s, t, f);
    case Finish(t, seen) => FinishStack(s, t, seen, f);
    case Drop(g) => NotStacked(s, g);
  }

  lemma CreateStack(s: Sys, t: Tid, seen: bool, fid: Fid, job: Job, cookie: Cookie, f: Fid)
    requires Inv(s) && Enabled(s, Create(t, seen, fid, job, cookie))
    ensures StackStep(s, Created(s, t, seen, fid, job, cookie), Create(t, seen, fid, job, cookie), f)
  {
    if u: Tid :| u in s.stacks && f in s.stacks[u] {
      StackedIs(s, u, f);
      assert LocalOk(s, t);
      var l := s.global.list[..Refill(s.max, |s.global.list|)];
      ReversedMembers(l);
      assert forall g | g in l :: g in s.global.list;
      assert f !in s.local[t].list && f !in s.global.list;
      if s.local[t].list == [] && s.multi && seen {
        assert f !in Reversed(l) + s.local[t].list;
      }
    }
  }

  lemma StartStack(s: Sys, t: Tid, g: Fid, f: Fid)
    requires Inv(s) && Enabled(s, Start(t, g))
    ensures StackStep(s, Started(s, t, g), Start(t, g), f)
  {
    NotStacked(s, g);
    var s' := Started(s, t, g);
    if u: Tid :| u in s.stacks && f in s.stacks[u] {
      assert f in s'.stacks[u];
    }
    assert g in s'.stacks[t];
  }

  // The top of a stack is on it once, and on no other.
  lemma PoppedIs(s: Sys, t: Tid)
    requires Inv(s) && t in s.stacks && s.stacks[t] != []
    ensures var top := s.stacks[t][0];
      && top in s.fibers && s.fibers[top].run.Some? && top !in s.stacks[t][1..]
      && forall u | u in s.stacks && u != t :: top !in s.stacks[u]
  {
    var top := s.stacks[t][0];
    StackedIs(s, t, top);
    assert StackOk(s, t);
    forall u | u in s.stacks && u != t
      ensures top !in s.stacks[u]
    {
      if top in s.stacks[u] {
        StackedIs(s, u, top);
      }
    }
  }

  lemma PopStack(s: Sys, s': Sys, t: Tid, f: Fid)
    requires Inv(s) && t in s.stacks && s.stacks[t] != [] && s'.stacks == s.stacks[t := s.stacks[t][1..]]
    ensures Stacked(s', f) <==> Stacked(s, f) && s.stacks[t][0] != f
    ensures Stacked(s, s.stacks[t][0])
  {
    PoppedIs(s, t);
    assert s.stacks[t] == [s.stacks[t][0]] + s.stacks[t][1..];
    if u: Tid :| u in s.stacks && f in s.stacks[u] && s.stacks[t][0] != f {
      assert f in s'.stacks[u];
    }
    if u: Tid :| u in s'.stacks && f in s'.stacks[u] {
      assert f in s.stacks[u];
    }
  }

  lemma YieldStack(s: Sys, t: Tid, f: Fid)
    requires Inv(s) && Enabled(s, Yield(t))
    ensures StackStep(s, Yielded(s, t), Yield(t), f)
  {
    PoppedIs(s, t);
    PopStack(s, Yielded(s, t), t, f);
  }

  lemma FinishStack(s: Sys, t: Tid, seen: bool, f: Fid)
    requires Inv(s) && Enabled(s, Finish(t, seen))
    ensures s.stacks[t][0] in s.fibers && StackStep(s, Finished(s, t, seen), Finish(t, seen), f)
  {
    PoppedIs(s, t);
    PopStack(s, Finished(s, t, seen), t, f);
  }

  // A job is running for as long as it has been started once more than it has yielded or finished.
  lemma RunningAfter(s: Sys, step: Step, j: Job)
    requires Inv(s) && Enabled(s, step)
    ensures One(Running(Apply(s, step), j)) + PausesOf(s, step, j) + EndsOf(s, step, j) ==
      One(Running(s, j)) + StartsOf(s, step, j)
    ensures j in Apply(s, step).started <==> j in s.started || StartsOf(s, step, j) == 1
  {
    var s' := Apply(s, step);
    forall f
      ensures StackStep(s, s', step, f)
    {
      StackAfter(s, step, f);
    }
    forall f, g
      ensures f != g && JobOf(s, f) == Some(j) ==> JobOf(s, g) != Some(j)
    {
      assert Apart(s, f, g);
    }
    StartedAfter(s, step, j);
    hide Apply, Inv;
    if f: Fid :| Stacked(s', f) && JobOf(s', f) == Some(j) {
      assert StackStep(s, s', step, f);
      if step.Start? && step.f == f {
        NoOther(s, j, f);
      } else {
        assert Running(s, j);
      }
    } else if f: Fid :| Stacked(s, f) && JobOf(s, f) == Some(j) {
      assert StackStep(s, s', step, f);
    } else if step.Start? {
      assert StackStep(s, s', step, step.f);
    } else if step.Yield? || step.Finish? {
      assert StackStep(s, s', step, s.stacks[step.t][0]);
    }
  }

  lemma NoOther(s: Sys, j: Job, f: Fid)
    requires Inv(s) && JobOf(s, f) == Some(j) && !Stacked(s, f)
    ensures !Running(s, j)
  {
    forall g | JobOf(s, g) == Some(j)
      ensures g == f
    {
      assert !Apart(s, f, g) || g == f;
    }
  }

  lemma StartedAfter(s: Sys, step: Step, j: Job)
    requires Inv(s) && Enabled(s, step)
    ensures j in Apply(s, step).started <==> j in s.started || StartsOf(s, step, j) == 1
  {
  }

  // The job has been created, and no fiber has it anymore.
  ghost predicate Over(s: Sys, j: Job) {
    j in s.created && forall f :: JobOf(s, f) != Some(j)
  }

  // Fibers only get the job that is being created, the one that finishes loses its job, and the one dropped is gone.
  lemma JobAfter(s: Sys, step: Step, f: Fid)
    requires Inv(s) && Enabled(s, step)
    ensures forall j | j in s.created :: j in Apply(s, step).created
    ensures var job := JobOf(Apply(s, step), f);
      || job.None? || (step.Create? && job == Some(step.job))
      || (job == JobOf(s, f) && !(step.Finish? && s.stacks[step.t][0] == f) && !(step.Drop? && step.f == f))
  {
  }

  lemma OverAfter(s: Sys, step: Step, j: Job)
    requires Inv(s) && Enabled(s, step)
    ensures Over(s, j) || EndsOf(s, step, j) + DropsOf(s, step, j) > 0 ==> Over(Apply(s, step), j)
    ensures EndsOf(s, step, j) + DropsOf(s, step, j) <= 1
    ensures Over(s, j) ==>
      StartsOf(s, step, j) == PausesOf(s, step, j) == EndsOf(s, step, j) == DropsOf(s, step, j) == 0
  {
    var over := EndsOf(s, step, j) + DropsOf(s, step, j) > 0;
    if over {
      var g := if step.Drop? then step.f else s.stacks[step.t][0];
      assert FiberOk(s, g);
      forall f
        ensures f == g || JobOf(s, f) != Some(j)
      {
        assert Apart(s, g, f);
      }
    }
    forall f
      ensures Over(s, j) || over ==> JobOf(Apply(s, step), f) != Some(j)
    {
      JobAfter(s, step, f);
    }
    JobAfter(s, step, 0);
  }

  lemma {:induction false} TallyRun(s: Sys, steps: seq<Step>, j: Job)
    requires Inv(s) && IsRun(s, steps)
    ensures var e, n := Run(s, steps), TallyOf(s, steps, j);
      && One(Running(e, j)) + n.pauses + n.ends == One(Running(s, j)) + n.starts
      && (j in e.started <==> j in s.started || n.starts > 0)
      && n.ends + n.drops <= 1 && (n.ends + n.drops == 1 ==> Over(e, j))
      && (Over(s, j) ==> n == Tally(0, 0, 0, 0) && Over(e, j))
    decreases |steps|
  {
    hide Inv, Apply, Enabled, Running, Over, JobOf, TopJob;
    if steps != [] {
      StepInv(s, steps[0]);
      RunningAfter(s, steps[0], j);
      OverAfter(s, steps[0], j);
      TallyRun(Apply(s, steps[0]), steps[1..], j);
    }
  }

  // In every run, a job is running exactly if it has been started once more than it has yielded or finished. It
  // finishes or its fiber is deleted, at most once, and then no fiber has it; and its function is called when it is
  // started first.
  lemma JobsGoOn(s: Sys, steps: seq<Step>, j: Job)
    requires Init(s) && IsRun(s, steps)
    ensures var e, n := Run(s, steps), TallyOf(s, steps, j);
      && n.starts == n.pauses + n.ends + One(Running(e, j))
      && n.ends + n.drops <= 1 && (n.ends + n.drops == 1 ==> forall f :: JobOf(e, f) != Some(j))
      && Count(e.entered, j) == One(n.starts > 0)
  {
    InitInv(s);
    TallyRun(s, steps, j);
    EnteredOnce(s, steps, j);
  }
}
