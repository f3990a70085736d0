/**
  Fibers (libhilti/fiber.c): their life cycle as a state machine over what setjmp and longjmp do, and the pools of
  finished fibers, one for each thread and a global one. A state is what all threads see between two critical
  sections; what a thread reads without the lock may be out of date, so that it is an argument of the step.
*/
module Fiber {
  import opened Sequences
  import opened Wrappers

  type Fid = nat      // the address of a fiber
  type Tid = nat      // a thread, with its local pool
  type Job = nat      // one call of hlt_fiber_create
  type Cookie = nat

  datatype Status = INIT | RUNNING | YIELDED | IDLE

  // Where the jump buffer fiber->fiber leads: nowhere yet, to the top of the trampoline's loop, or into a job.
  datatype Target = Nowhere | Top | Inside(job: Job)

  // Where a fiber is (for the proofs only): in a pool, with a user, or running in a thread.
  datatype Place = InLocal(t: Tid) | InGlobal | InUse | On(t: Tid)

  datatype Fiber = Fiber(state: Status, target: Target, run: Option<Job>, cookie: Cookie, place: Place)

  datatype Pool = Pool(list: seq<Fid>, size: int)

  datatype Sys = Sys(
    fibers: map<Fid, Fiber>,
    local: map<Tid, Pool>,
    global: Pool,
    stacks: map<Tid, seq<Fid>>,         // the fibers running in a thread, innermost first
    created: map<Job, Cookie>,          // history: what each job was created with,
    started: set<Job>,                  // the jobs whose fiber has been started,
    entered: seq<(Job, Cookie)>,        // and the calls of the jobs' functions
    max: nat,
    multi: bool)

  datatype Step =
    | Create(t: Tid, seen: bool, fid: Fid, job: Job, cookie: Cookie)
    | Start(t: Tid, f: Fid)
    | Yield(t: Tid)
    | Finish(t: Tid, seen: bool)
    | Drop(f: Fid)

  // ----- The pools

  // hlt_fiber_create refills an empty local pool with up to a fifth of the maximum.
  function Refill(max: nat, available: nat): nat {
    if max / 5 <= available then max / 5 else available
  }

  function Moved(fibers: map<Fid, Fiber>, fs: seq<Fid>, place: Place): map<Fid, Fiber> {
    map f | f in fibers :: if f in fs then fibers[f].(place := place) else fibers[f]
  }

  // The part of hlt_fiber_create under the lock: one fiber after the other goes from the front of the global pool to
  // the front of the local one.
  function Refilled(s: Sys, t: Tid): Sys
    requires t in s.local
  {
    var k := Refill(s.max, |s.global.list|);
    var fs := s.global.list[..k];
    s.(fibers := Moved(s.fibers, fs, InLocal(t)),
       global := Pool(s.global.list[k..], s.global.size - k),
       local := s.local[t := Pool(Reversed(fs) + s.local[t].list, s.local[t].size + k)])
  }

  // hlt_fiber_delete hands a full local pool over to the global one: the check is made again under the lock.
  function HandedOver(s: Sys, t: Tid): Sys
    requires t in s.local
  {
    var fs := s.local[t].list;
    s.(fibers := Moved(s.fibers, fs, InGlobal),
       global := Pool(s.global.list + fs, s.global.size + s.local[t].size),
       local := s.local[t := Pool([], 0)])
  }

  function Pushed(s: Sys, t: Tid, f: Fid): Sys
    requires t in s.local && f in s.fibers
  {
    s.(fibers := s.fibers[f := s.fibers[f].(place := InLocal(t))],
       local := s.local[t := Pool([f] + s.local[t].list, s.local[t].size + 1)])
  }

  // hlt_fiber_delete with a context
  function Recycled(s: Sys, t: Tid, f: Fid, seen: bool): Sys
    requires t in s.local && f in s.fibers
  {
    if s.local[t].size < s.max then Pushed(s, t, f)
    else if s.multi && seen && s.global.size <= 10 * s.max then Pushed(HandedOver(s, t), t, f)
    else s.(fibers := s.fibers - {f})
  }

  // ----- The steps

  ghost predicate Enabled(s: Sys, step: Step) {
    match step
    case Create(t, _, fid, job, _) => t in s.local && fid !in s.fibers && job !in s.created
    case Start(t, f) => t in s.stacks && f in s.fibers && s.fibers[f].place == InUse
    case Yield(t) => t in s.stacks && s.stacks[t] != []
    case Finish(t, _) => t in s.stacks && t in s.local && s.stacks[t] != []
    case Drop(f) => f in s.fibers && s.fibers[f].place == InUse
  }

  function Apply(s: Sys, step: Step): Sys {
    match step
    case Create(t, seen, fid, job, cookie) => if t in s.local then Created(s, t, seen, fid, job, cookie) else s
    case Start(t, f) => if t in s.stacks && f in s.fibers then Started(s, t, f) else s
    case Yield(t) => if t in s.stacks && s.stacks[t] != [] then Yielded(s, t) else s
    case Finish(t, seen) =>
      if t in s.stacks && t in s.local && s.stacks[t] != [] && s.stacks[t][0] in s.fibers then Finished(s, t, seen)
      else s
    case Drop(f) => s.(fibers := s.fibers - {f})
  }

  // hlt_fiber_create
  function Created(s: Sys, t: Tid, seen: bool, fid: Fid, job: Job, cookie: Cookie): Sys
    requires t in s.local
  {
    var s1 := if s.local[t].list == [] && s.multi && seen then Refilled(s, t) else s;
    var s2 := s1.(created := s1.created[job := cookie]);
    if s1.local[t].list != [] && s1.local[t].list[0] in s1.fibers then
      var f := s1.local[t].list[0];
      s2.(local := s1.local[t := Pool(s1.local[t].list[1..], s1.local[t].size - 1)],
          fibers := s1.fibers[f := s1.fibers[f].(run := Some(job), cookie := cookie, place := InUse)])
    else
      s2.(fibers := s1.fibers[fid := Fiber(INIT, Nowhere, Some(job), cookie, InUse)])
  }

  // hlt_fiber_start, up to where the fiber's own code goes on: a fresh fiber starts the trampoline; otherwise the
  // jump leads to the top of the trampoline's loop, or back into the job.
  function Started(s: Sys, t: Tid, f: Fid): Sys
    requires t in s.stacks && f in s.fibers
  {
    var fiber := s.fibers[f];
    var enters := fiber.state.INIT? || fiber.target.Top?;
    s.(fibers := s.fibers[f := fiber.(state := RUNNING, place := On(t))],
       stacks := s.stacks[t := [f] + s.stacks[t]],
       started := if fiber.run.Some? then s.started + {fiber.run.value} else s.started,
       entered := if enters && fiber.run.Some? then s.entered + [(fiber.run.value, fiber.cookie)] else s.entered)
  }

  // hlt_fiber_yield
  function Yielded(s: Sys, t: Tid): Sys
    requires t in s.stacks && s.stacks[t] != []
  {
    var f := s.stacks[t][0];
    if f !in s.fibers || s.fibers[f].run.None? then s
    else
      var fiber := s.fibers[f];
      s.(fibers := s.fibers[f := fiber.(state := YIELDED, target := Inside(fiber.run.value), place := InUse)],
         stacks := s.stacks[t := s.stacks[t][1..]])
  }

  // The job's function returns, or calls hlt_fiber_return; then hlt_fiber_start finds the fiber IDLE.
  function Finished(s: Sys, t: Tid, seen: bool): Sys
    requires t in s.stacks && t in s.local && s.stacks[t] != [] && s.stacks[t][0] in s.fibers
  {
    var f := s.stacks[t][0];
    var fiber := s.fibers[f].(state := IDLE, target := Top, run := None, cookie := 0);
    Recycled(s.(fibers := s.fibers[f := fiber], stacks := s.stacks[t := s.stacks[t][1..]]), t, f, seen)
  }

  // The assertions of the source: a fiber taken from a pool is IDLE; the trampoline has something to run; no jump
  // leads nowhere, or into a job that is over; a fiber that is freed is not running.
  ghost predicate Safe(s: Sys, step: Step) {
    match step
    case Create(t, seen, _, _, _) =>
      t in s.local ==>
        var s1 := if s.local[t].list == [] && s.multi && seen then Refilled(s, t) else s;
        s1.local[t].list != [] ==>
          s1.local[t].list[0] in s1.fibers && s1.fibers[s1.local[t].list[0]].state.IDLE?
    case Start(t, f) =>
      f in s.fibers ==>
        var fiber := s.fibers[f];
        && fiber.run.Some? && !fiber.state.RUNNING?
        && (if fiber.state.INIT? then true
            else fiber.target.Top? || (fiber.state.YIELDED? && fiber.target == Inside(fiber.run.value)))
    case Yield(t) => t in s.stacks && s.stacks[t] != [] ==> OnTop(s, s.stacks[t][0])
    case Finish(t, _) => t in s.stacks && s.stacks[t] != [] ==> OnTop(s, s.stacks[t][0])
    case Drop(f) => f in s.fibers ==> !s.fibers[f].state.RUNNING?
  }

  ghost predicate OnTop(s: Sys, f: Fid) {
    f in s.fibers && s.fibers[f].state.RUNNING? && s.fibers[f].run.Some?
  }

  // ----- The invariant

  // The fibers of the list are in that place, once each.
  ghost predicate Holds(fibers: map<Fid, Fiber>, l: seq<Fid>, place: Place) {
    Distinct(l) && forall f | f in l :: f in fibers && fibers[f].place == place
  }

  ghost function Count(l: seq<(Job, Cookie)>, j: Job): nat {
    if l == [] then 0 else (if l[0].0 == j then 1 else 0) + Count(l[1..], j)
  }

  ghost predicate FiberOk(s: Sys, f: Fid) {
    f in s.fibers ==>
      var fiber := s.fibers[f];
      && (fiber.place.InLocal? || fiber.place.InGlobal? ==> fiber.state.IDLE? && fiber.target.Top?)
      && (fiber.run.Some? ==> fiber.run.value in s.created)
      && (fiber.place.On? <==> fiber.state.RUNNING?)
      && (fiber.place.On? || fiber.place.InUse? ==>
        && fiber.run.Some? && fiber.run.value in s.created && fiber.cookie == s.created[fiber.run.value])
      && (fiber.place.InUse? ==>
        match fiber.state
        case INIT => fiber.run.value !in s.started
        case IDLE => fiber.target.Top? && fiber.run.value !in s.started
        case YIELDED => fiber.target == Inside(fiber.run.value) && fiber.run.value in s.started
        case RUNNING => false)
      && (fiber.place.On? ==> fiber.run.value in s.started)
  }

  // Different fibers have different jobs.
  ghost predicate Apart(s: Sys, f: Fid, g: Fid) {
    f in s.fibers && g in s.fibers && f != g && s.fibers[f].run.Some? ==> s.fibers[f].run != s.fibers[g].run
  }

  ghost predicate JobOk(s: Sys, j: Job) {
    && Count(s.entered, j) == (if j in s.started then 1 else 0)
    && (j in s.started ==> j in s.created)
  }

  ghost predicate CookieOk(s: Sys, i: nat) {
    i < |s.entered| ==> s.entered[i].0 in s.created && s.entered[i].1 == s.created[s.entered[i].0]
  }

  function AtLeastOne(max: nat): nat {
    if max == 0 then 1 else max
  }

  ghost predicate LocalOk(s: Sys, t: Tid) {
    t in s.local ==>
      && Holds(s.fibers, s.local[t].list, InLocal(t)) && s.local[t].size == |s.local[t].list| <= AtLeastOne(s.max)
  }

  ghost predicate StackOk(s: Sys, t: Tid) {
    t in s.stacks ==> Holds(s.fibers, s.stacks[t], On(t))
  }

  ghost predicate GlobalOk(s: Sys) {
    && Holds(s.fibers, s.global.list, InGlobal)
    && s.global.size == |s.global.list| <= 10 * s.max + AtLeastOne(s.max)
  }

  ghost predicate Inv(s: Sys) {
    && (forall f :: FiberOk(s, f)) && (forall f, g :: Apart(s, f, g))
    && (forall j :: JobOk(s, j)) && (forall i :: CookieOk(s, i))
    && (forall t :: LocalOk(s, t)) && (forall t :: StackOk(s, t)) && GlobalOk(s)
  }

  lemma InvSafe(s: Sys, step: Step)
    requires Inv(s) && Enabled(s, step)
    ensures Safe(s, step)
  {
    match step
    case Create(t, seen, _, _, _) =>
      assert LocalOk(s, t);
      if s.local[t].list == [] && s.multi && seen {
        var l := s.global.list[..Refill(s.max, |s.global.list|)];
        ReversedMembers(l);
        assert Reversed(l) + s.local[t].list == Reversed(l);
        if Reversed(l) != [] {
          assert Reversed(l)[0] in l;
          assert FiberOk(s, Reversed(l)[0]);
        }
      } else if s.local[t].list != [] {
        assert FiberOk(s, s.local[t].list[0]);
      }
    case Start(_, f) => assert FiberOk(s, f);
    case Yield(t) => assert StackOk(s, t) && FiberOk(s, s.stacks[t][0]);
    case Finish(t, _) => assert StackOk(s, t) && FiberOk(s, s.stacks[t][0]);
    case Drop(f) => assert FiberOk(s, f);
  }

  // ----- Every step keeps the invariant

  ghost predicate InvBut(s: Sys, f: Fid) {
    && (forall g | g != f :: FiberOk(s, g)) && (forall g, h :: Apart(s, g, h))
    && (forall j :: JobOk(s, j)) && (forall i :: CookieOk(s, i))
    && (forall t :: LocalOk(s, t)) && (forall t :: StackOk(s, t)) && GlobalOk(s)
  }

  // Fibers change their place only.
  ghost predicate SameButPlace(s: Sys, s': Sys) {
    && s'.created == s.created && s'.started == s.started && s'.entered == s.entered && s'.max == s.max
    && s'.stacks == s.stacks && s'.fibers.Keys == s.fibers.Keys
    && forall f | f in s.fibers :: f in s'.fibers && s'.fibers[f] == s.fibers[f].(place := s'.fibers[f].place)
  }

  lemma SamePart(s: Sys, s': Sys, f: Fid)
    requires SameButPlace(s, s') && InvBut(s, f)
    ensures (forall g, h :: Apart(s', g, h)) && (forall j :: JobOk(s', j)) && (forall i :: CookieOk(s', i))
  {
    forall g, h
      ensures Apart(s', g, h)
    {
      assert Apart(s, g, h);
    }
    forall j
      ensures JobOk(s', j)
    {
      assert JobOk(s, j);
    }
    forall i
      ensures CookieOk(s', i)
    {
      assert CookieOk(s, i);
    }
  }

  lemma DistinctJoin(fibers: map<Fid, Fiber>, l: seq<Fid>, p: Place, m: seq<Fid>, q: Place)
    requires Holds(fibers, l, p) && Holds(fibers, m, q) && p != q
    ensures Distinct(l + m)
  {
    forall i, j | 0 <= i < |l| && 0 <= j < |m|
      ensures l[i] != m[j]
    {
      assert l[i] in l && m[j] in m;
    }
  }

  // Taking the first k off a list moves exactly them.
  lemma RefilledLists(fibers: map<Fid, Fiber>, l: seq<Fid>, k: nat, p: Place, q: Place)
    requires Holds(fibers, l, p) && k <= |l|
    ensures Holds(Moved(fibers, l[..k], q), Reversed(l[..k]), q)
    ensures Holds(Moved(fibers, l[..k], q), l[k..], p)
  {
    ReversedMembers(l[..k]);
    forall f | f in l[k..]
      ensures f !in l[..k]
    {
      var i :| 0 <= i < |l[k..]| && l[k..][i] == f;
      assert l[k + i] == f;
    }
  }

  lemma RefilledInv(s: Sys, t: Tid)
    requires Inv(s) && t in s.local && s.local[t].list == []
    ensures Inv(Refilled(s, t))
  {
    var s' := Refilled(s, t);
    var k := Refill(s.max, |s.global.list|);
    var fs := s.global.list[..k];
    SamePart(s, s', 0);
    RefilledLists(s.fibers, s.global.list, k, InGlobal, InLocal(t));
    ReversedMembers(fs);
    assert LocalOk(s, t) && Reversed(fs) + s.local[t].list == Reversed(fs);
    hide Distinct, Reversed;
    forall f
      ensures FiberOk(s', f)
    {
      InGlobalList(s, f, k);
    }
    forall u
      ensures LocalOk(s', u)
    {
      OtherList(s, u, fs, InLocal(t));
      assert LocalOk(s, u);
    }
    forall u
      ensures StackOk(s', u)
    {
      OtherList(s, u, fs, InLocal(t));
      assert StackOk(s, u);
    }
  }

  lemma InGlobalList(s: Sys, f: Fid, k: nat)
    requires Inv(s) && k <= |s.global.list|
    ensures FiberOk(s, f) && (f in s.global.list[..k] ==> f in s.fibers && s.fibers[f].place.InGlobal?)
  {
  }

  // Lists of fibers that do not move
  lemma OtherList(s: Sys, u: Tid, fs: seq<Fid>, q: Place)
    requires Inv(s) && forall f | f in fs :: f in s.fibers && s.fibers[f].place.InGlobal?
    ensures u in s.local ==> Holds(Moved(s.fibers, fs, q), s.local[u].list, InLocal(u))
    ensures u in s.stacks ==> Holds(Moved(s.fibers, fs, q), s.stacks[u], On(u))
  {
    assert LocalOk(s, u) && StackOk(s, u);
  }

  lemma HandedInv(s: Sys, t: Tid, f: Fid)
    requires InvBut(s, f) && t in s.local && s.global.size <= 10 * s.max
    requires f in s.fibers && !s.fibers[f].place.InLocal? && !s.fibers[f].place.InGlobal?
    ensures InvBut(HandedOver(s, t), f) && HandedOver(s, t).fibers[f] == s.fibers[f]
  {
    var s' := HandedOver(s, t);
    SamePart(s, s', f);
    assert LocalOk(s, t);
    DistinctJoin(s.fibers, s.global.list, InGlobal, s.local[t].list, InLocal(t));
    forall g | g != f
      ensures FiberOk(s', g)
    {
      assert FiberOk(s, g);
    }
    forall u
      ensures LocalOk(s', u)
    {
      assert LocalOk(s, u);
    }
    forall u
      ensures StackOk(s', u)
    {
      assert StackOk(s, u);
    }
  }

  // The fiber is done and on its way into a pool.
  ghost predicate Done(s: Sys, f: Fid) {
    && f in s.fibers && s.fibers[f].state.IDLE? && s.fibers[f].target.Top?
    && (s.fibers[f].run.Some? ==> s.fibers[f].run.value in s.created)
    && !s.fibers[f].place.InLocal? && !s.fibers[f].place.InGlobal?
    && forall t | t in s.stacks :: f !in s.stacks[t]
  }

  lemma PushedInv(s: Sys, t: Tid, f: Fid)
    requires InvBut(s, f) && t in s.local && Done(s, f) && s.local[t].size < AtLeastOne(s.max)
    ensures Inv(Pushed(s, t, f))
  {
    var s' := Pushed(s, t, f);
    SamePart(s, s', f);
    forall g
      ensures FiberOk(s', g)
    {
      assert g != f ==> FiberOk(s, g);
    }
    forall u
      ensures LocalOk(s', u)
    {
      assert LocalOk(s, u);
    }
    forall u
      ensures StackOk(s', u)
    {
      assert StackOk(s, u);
    }
  }

  lemma GoneInv(s: Sys, f: Fid)
    requires InvBut(s, f) && f in s.fibers && !s.fibers[f].place.InLocal? && !s.fibers[f].place.InGlobal?
    requires forall t | t in s.stacks :: f !in s.stacks[t]
    ensures Inv(s.(fibers := s.fibers - {f}))
  {
    var s' := s.(fibers := s.fibers - {f});
    forall g
      ensures FiberOk(s', g)
    {
      assert g != f ==> FiberOk(s, g);
    }
    forall g, h
      ensures Apart(s', g, h)
    {
      assert Apart(s, g, h);
    }
    forall j
      ensures JobOk(s', j)
    {
      assert JobOk(s, j);
    }
    forall i
      ensures CookieOk(s', i)
    {
      assert CookieOk(s, i);
    }
    forall u
      ensures LocalOk(s', u)
    {
      assert LocalOk(s, u);
    }
    forall u
      ensures StackOk(s', u)
    {
      assert StackOk(s, u);
    }
  }

  lemma RecycledInv(s: Sys, t: Tid, f: Fid, seen: bool)
    requires InvBut(s, f) && t in s.local && Done(s, f)
    ensures Inv(Recycled(s, t, f, seen))
  {
    hide InvBut;
    if s.local[t].size < s.max {
      PushedInv(s, t, f);
    } else if s.multi && seen && s.global.size <= 10 * s.max {
      HandedInv(s, t, f);
      PushedInv(HandedOver(s, t), t, f);
    } else {
      GoneInv(s, f);
    }
  }

  lemma CreateInv(s: Sys, t: Tid, seen: bool, fid: Fid, job: Job, cookie: Cookie)
    requires Inv(s) && Enabled(s, Create(t, seen, fid, job, cookie))
    ensures Inv(Created(s, t, seen, fid, job, cookie))
  {
    var s1 := if s.local[t].list == [] && s.multi && seen then Refilled(s, t) else s;
    if s.local[t].list == [] && s.multi && seen {
      RefilledInv(s, t);
    }
    InvSafe(s, Create(t, seen, fid, job, cookie));
    hide Inv;
    if s1.local[t].list != [] {
      ReuseInv(s1, t, job, cookie);
    } else {
      FreshInv(s1, fid, job, cookie);
    }
  }

  // A new job in a fiber that is in no list any more
  ghost predicate GetsJob(s: Sys, s': Sys, f: Fid, job: Job, cookie: Cookie) {
    && job !in s.created && s'.created == s.created[job := cookie]
    && s'.started == s.started && s'.entered == s.entered && s'.max == s.max && s'.stacks == s.stacks
    && f in s'.fibers && s'.fibers[f].run == Some(job) && s'.fibers[f].cookie == cookie && s'.fibers[f].place == InUse
    && (s'.fibers[f].state.INIT? || (s'.fibers[f].state.IDLE? && s'.fibers[f].target.Top?))
    && (forall g | g != f :: g in s'.fibers <==> g in s.fibers)
    && (forall g | g in s.fibers && g != f :: s'.fibers[g] == s.fibers[g])
  }

  lemma JobInv(s: Sys, s': Sys, f: Fid, job: Job, cookie: Cookie)
    requires Inv(s) && GetsJob(s, s', f, job, cookie)
    ensures (forall g :: FiberOk(s', g)) && (forall g, h :: Apart(s', g, h))
    ensures (forall j :: JobOk(s', j)) && (forall i :: CookieOk(s', i))
  {
    assert JobOk(s, job);
    forall g
      ensures FiberOk(s', g)
    {
      assert FiberOk(s, g);
    }
    forall g, h
      ensures Apart(s', g, h)
    {
      assert Apart(s, g, h) && FiberOk(s, g) && FiberOk(s, h);
    }
    forall j
      ensures JobOk(s', j)
    {
      assert JobOk(s, j);
    }
    forall i
      ensures CookieOk(s', i)
    {
      assert CookieOk(s, i);
    }
  }

  lemma ReuseInv(s: Sys, t: Tid, job: Job, cookie: Cookie)
    requires Inv(s) && t in s.local && s.local[t].list != [] && job !in s.created
    ensures s.local[t].list[0] in s.fibers
    ensures var f := s.local[t].list[0];
      Inv(s.(created := s.created[job := cookie], local := s.local[t := Pool(s.local[t].list[1..], s.local[t].size - 1)],
             fibers := s.fibers[f := s.fibers[f].(run := Some(job), cookie := cookie, place := InUse)]))
  {
    var f := s.local[t].list[0];
    assert LocalOk(s, t) && FiberOk(s, f);
    var s' := s.(created := s.created[job := cookie],
                 local := s.local[t := Pool(s.local[t].list[1..], s.local[t].size - 1)],
                 fibers := s.fibers[f := s.fibers[f].(run := Some(job), cookie := cookie, place := InUse)]);
    JobInv(s, s', f, job, cookie);
    forall u
      ensures LocalOk(s', u)
    {
      assert LocalOk(s, u);
    }
    forall u
      ensures StackOk(s', u)
    {
      assert StackOk(s, u);
    }
  }

  lemma FreshInv(s: Sys, fid: Fid, job: Job, cookie: Cookie)
    requires Inv(s) && fid !in s.fibers && job !in s.created
    ensures Inv(s.(created := s.created[job := cookie],
                   fibers := s.fibers[fid := Fiber(INIT, Nowhere, Some(job), cookie, InUse)]))
  {
    var s' := s.(created := s.created[job := cookie],
                 fibers := s.fibers[fid := Fiber(INIT, Nowhere, Some(job), cookie, InUse)]);
    JobInv(s, s', fid, job, cookie);
    forall u
      ensures LocalOk(s', u)
    {
      assert LocalOk(s, u);
    }
    forall u
      ensures StackOk(s', u)
    {
      assert StackOk(s, u);
    }
  }

  lemma {:induction false} CountAppend(l: seq<(Job, Cookie)>, j: Job, c: Cookie, k: Job)
    ensures Count(l + [(j, c)], k) == Count(l, k) + if j == k then 1 else 0
  {
    if l != [] {
      assert (l + [(j, c)])[1..] == l[1..] + [(j, c)];
      CountAppend(l[1..], j, c, k);
    }
  }

  lemma StartInv(s: Sys, t: Tid, f: Fid)
    requires Inv(s) && Enabled(s, Start(t, f))
    ensures Inv(Started(s, t, f))
  {
    var s' := Started(s, t, f);
    assert FiberOk(s, f);
    var fiber := s.fibers[f];
    forall g
      ensures FiberOk(s', g)
    {
      assert FiberOk(s, g) && Apart(s, f, g);
    }
    forall g, h
      ensures Apart(s', g, h)
    {
      assert Apart(s, g, h);
    }
    forall j
      ensures JobOk(s', j)
    {
      assert JobOk(s, j);
      CountAppend(s.entered, fiber.run.value, fiber.cookie, j);
    }
    forall i
      ensures CookieOk(s', i)
    {
      assert CookieOk(s, i);
    }
    forall u
      ensures LocalOk(s', u)
    {
      assert LocalOk(s, u);
    }
    forall u
      ensures StackOk(s', u)
    {
      assert StackOk(s, u);
    }
  }

  lemma YieldInv(s: Sys, t: Tid)
    requires Inv(s) && Enabled(s, Yield(t))
    ensures Inv(Yielded(s, t))
  {
    var s', f := Yielded(s, t), s.stacks[t][0];
    assert StackOk(s, t) && FiberOk(s, f);
    Popped(s, t);
    forall g
      ensures FiberOk(s', g)
    {
      assert FiberOk(s, g);
    }
    forall g, h
      ensures Apart(s', g, h)
    {
      assert Apart(s, g, h);
    }
    forall j
      ensures JobOk(s', j)
    {
      assert JobOk(s, j);
    }
    forall i
      ensures CookieOk(s', i)
    {
      assert CookieOk(s, i);
    }
    forall u
      ensures LocalOk(s', u)
    {
      assert LocalOk(s, u);
    }
    forall u
      ensures StackOk(s', u)
    {
      assert StackOk(s, u);
    }
  }

  // The innermost fiber of a thread is in no other list.
  lemma Popped(s: Sys, t: Tid)
    requires Inv(s) && t in s.stacks && s.stacks[t] != []
    ensures s.stacks[t][0] !in s.stacks[t][1..] && Distinct(s.stacks[t][1..])
    ensures forall u | u in s.stacks && u != t :: s.stacks[t][0] !in s.stacks[u]
  {
    assert StackOk(s, t);
    forall u | u in s.stacks && u != t
      ensures s.stacks[t][0] !in s.stacks[u]
    {
      assert StackOk(s, u);
    }
  }

  lemma FinishInv(s: Sys, t: Tid, seen: bool)
    requires Inv(s) && Enabled(s, Finish(t, seen))
    ensures s.stacks[t][0] in s.fibers && Inv(Finished(s, t, seen))
  {
    var f := s.stacks[t][0];
    assert StackOk(s, t) && FiberOk(s, f);
    Popped(s, t);
    var fiber := s.fibers[f].(state := IDLE, target := Top, run := None, cookie := 0);
    var s' := s.(fibers := s.fibers[f := fiber], stacks := s.stacks[t := s.stacks[t][1..]]);
    forall g | g != f
      ensures FiberOk(s', g)
    {
      assert FiberOk(s, g);
    }
    forall g, h
      ensures Apart(s', g, h)
    {
      assert Apart(s, g, h);
    }
    forall j
      ensures JobOk(s', j)
    {
      assert JobOk(s, j);
    }
    forall i
      ensures CookieOk(s', i)
    {
      assert CookieOk(s, i);
    }
    forall u
      ensures LocalOk(s', u)
    {
      assert LocalOk(s, u);
    }
    forall u
      ensures StackOk(s', u)
    {
      assert StackOk(s, u);
    }
    RecycledInv(s', t, f, seen);
  }

  lemma DropInv(s: Sys, f: Fid)
    requires Inv(s) && Enabled(s, Drop(f))
    ensures Inv(s.(fibers := s.fibers - {f}))
  {
    forall t | t in s.stacks
      ensures f !in s.stacks[t]
    {
      assert StackOk(s, t);
    }
    GoneInv(s, f);
  }

  lemma StepInv(s: Sys, step: Step)
    requires Inv(s) && Enabled(s, step)
    ensures Inv(Apply(s, step))
  {
    hide Inv, Created, Started, Yielded, Finished;
    match step
    case Create(t, seen, fid, job, cookie) => CreateInv(s, t, seen, fid, job, cookie);
    case Start(t, f) => StartInv(s, t, f);
    case Yield(t) => YieldInv(s, t);
    case Finish(t, seen) => FinishInv(s, t, seen);
    case Drop(f) => DropInv(s, f);
  }

  // ----- Whole runs

  ghost predicate Init(s: Sys) {
    && s.fibers == map[] && s.global == Pool([], 0) && s.created == map[] && s.started == {} && s.entered == []
    && (forall t | t in s.local :: s.local[t] == Pool([], 0)) && (forall t | t in s.stacks :: s.stacks[t] == [])
  }

  lemma InitInv(s: Sys)
    requires Init(s)
    ensures Inv(s)
  {
  }

  ghost predicate IsRun(s: Sys, steps: seq<Step>)
    decreases |steps|
  {
    steps == [] || (Enabled(s, steps[0]) && IsRun(Apply(s, steps[0]), steps[1..]))
  }

  function Run(s: Sys, steps: seq<Step>): Sys
    decreases |steps|
  {
    if steps == [] then s else Run(Apply(s, steps[0]), steps[1..])
  }

  ghost predicate SafeRun(s: Sys, steps: seq<Step>)
    decreases |steps|
  {
    steps == [] || (Safe(s, steps[0]) && SafeRun(Apply(s, steps[0]), steps[1..]))
  }

  ghost predicate IsIdle(s: Sys, f: Fid) {
    f in s.fibers && s.fibers[f].state.IDLE?
  }

  // No interleaving violates an assertion, and the invariant holds all the time.
  lemma {:induction false} RunsAreSafe(s: Sys, steps: seq<Step>)
    requires Inv(s) && IsRun(s, steps)
    ensures SafeRun(s, steps) && Inv(Run(s, steps)) && Run(s, steps).max == s.max
    decreases |steps|
  {
    if steps != [] {
      InvSafe(s, steps[0]);
      StepInv(s, steps[0]);
      RunsAreSafe(Apply(s, steps[0]), steps[1..]);
    }
  }

  // No fiber in a pool has a job.
  ghost predicate NoJobs(s: Sys) {
    forall f | f in s.fibers && (s.fibers[f].place.InLocal? || s.fibers[f].place.InGlobal?) :: s.fibers[f].run.None?
  }

  // The pools stay empty if there is no room for any fiber and no other thread.
  ghost predicate EmptyIfNone(s: Sys) {
    s.max == 0 && !s.multi ==> s.global.list == [] && forall t | t in s.local :: s.local[t].list == []
  }

  // Fibers change lists only.
  lemma MovedNoJobs(s: Sys, s': Sys)
    requires NoJobs(s) && s'.fibers.Keys == s.fibers.Keys
    requires forall f | f in s.fibers :: s'.fibers[f].run == s.fibers[f].run
    requires forall f | f in s.fibers && s.fibers[f].run.Some? :: s'.fibers[f].place == s.fibers[f].place
    ensures NoJobs(s')
  {
  }

  lemma RefilledNoJobs(s: Sys, t: Tid)
    requires Inv(s) && NoJobs(s) && t in s.local
    ensures NoJobs(Refilled(s, t))
  {
    var fs := s.global.list[..Refill(s.max, |s.global.list|)];
    assert forall f | f in fs :: f in s.global.list;
    hide Inv, NoJobs;
    InGlobalHasNoJob(s);
    MovedNoJobs(s, Refilled(s, t));
  }

  lemma InGlobalHasNoJob(s: Sys)
    requires Inv(s) && NoJobs(s)
    ensures forall f | f in s.global.list :: f in s.fibers && s.fibers[f].run.None?
  {
  }

  lemma InLocalHasNoJob(s: Sys, t: Tid)
    requires t in s.local && Holds(s.fibers, s.local[t].list, InLocal(t)) && NoJobs(s)
    ensures forall f | f in s.local[t].list :: f in s.fibers && s.fibers[f].run.None?
  {
  }

  lemma RecycledNoJobs(s: Sys, t: Tid, f: Fid, seen: bool)
    requires t in s.local && Holds(s.fibers, s.local[t].list, InLocal(t)) && NoJobs(s)
    requires f in s.fibers && s.fibers[f].run.None?
    ensures NoJobs(Recycled(s, t, f, seen))
  {
    InLocalHasNoJob(s, t);
  }

  lemma CreatedNoJobs(s: Sys, t: Tid, seen: bool, fid: Fid, job: Job, cookie: Cookie)
    requires Inv(s) && NoJobs(s) && t in s.local
    ensures NoJobs(Created(s, t, seen, fid, job, cookie))
  {
    RefilledNoJobs(s, t);
    hide Inv, Refilled;
  }

  lemma FinishedNoJobs(s: Sys, t: Tid, seen: bool)
    requires Inv(s) && NoJobs(s) && Enabled(s, Finish(t, seen))
    ensures s.stacks[t][0] in s.fibers && NoJobs(Finished(s, t, seen))
  {
    var f := s.stacks[t][0];
    assert StackOk(s, t) && LocalOk(s, t);
    var fiber := s.fibers[f].(state := IDLE, target := Top, run := None, cookie := 0);
    var s' := s.(fibers := s.fibers[f := fiber], stacks := s.stacks[t := s.stacks[t][1..]]);
    assert NoJobs(s');
    hide Inv, NoJobs, Recycled;
    RecycledNoJobs(s', t, f, seen);
  }

  lemma StepKeepsEmpty(s: Sys, step: Step)
    requires Inv(s) && Enabled(s, step) && EmptyIfNone(s)
    ensures EmptyIfNone(Apply(s, step)) && Apply(s, step).max == s.max && Apply(s, step).multi == s.multi
  {
    assert step.Finish? ==> LocalOk(s, step.t);
    hide Inv;
  }

  lemma StepKeeps(s: Sys, step: Step)
    requires Inv(s) && Enabled(s, step) && NoJobs(s) && EmptyIfNone(s)
    ensures NoJobs(Apply(s, step)) && EmptyIfNone(Apply(s, step))
    ensures Apply(s, step).max == s.max && Apply(s, step).multi == s.multi
  {
    StepKeepsEmpty(s, step);
    hide EmptyIfNone, Created, Finished;
    match step {
      case Create(t, seen, fid, job, cookie) => CreatedNoJobs(s, t, seen, fid, job, cookie);
      case Finish(t, seen) => FinishedNoJobs(s, t, seen);
      case _ =>
    }
  }

  lemma {:induction false} RunKeeps(s: Sys, steps: seq<Step>)
    requires Inv(s) && IsRun(s, steps) && NoJobs(s) && EmptyIfNone(s)
    ensures NoJobs(Run(s, steps)) && EmptyIfNone(Run(s, steps))
    ensures Run(s, steps).max == s.max && Run(s, steps).multi == s.multi
    decreases |steps|
  {
    if steps != [] {
      StepInv(s, steps[0]);
      StepKeeps(s, steps[0]);
      RunKeeps(Apply(s, steps[0]), steps[1..]);
    }
  }

  // A fiber is pooled: idle, with no job, neither with a user nor running.
  ghost predicate Pooled(s: Sys, f: Fid, place: Place) {
    && IsIdle(s, f) && s.fibers[f].place == place && s.fibers[f].run.None?
    && forall u | u in s.stacks :: f !in s.stacks[u]
  }

  lemma HeldIsPooled(s: Sys, l: seq<Fid>, place: Place, f: Fid)
    requires Inv(s) && NoJobs(s) && Holds(s.fibers, l, place) && (place.InLocal? || place.InGlobal?) && f in l
    ensures Pooled(s, f, place)
  {
    assert FiberOk(s, f);
    forall u | u in s.stacks
      ensures f !in s.stacks[u]
    {
      assert StackOk(s, u);
    }
  }

  // The pools' sizes are right and bounded, and their fibers are idle and nowhere else: neither in two pools, nor in
  // one twice, nor in use or running.
  lemma PoolsAreBounded(s: Sys, steps: seq<Step>, t: Tid)
    requires Init(s) && IsRun(s, steps) && (s.max >= 1 || !s.multi)
    ensures var e := Run(s, steps);
      && e.global.size == |e.global.list| <= 11 * s.max && Distinct(e.global.list)
      && (t in e.local ==> e.local[t].size == |e.local[t].list| <= s.max && Distinct(e.local[t].list))
      && (forall f | f in e.global.list :: Pooled(e, f, InGlobal))
      && (t in e.local ==> forall f | f in e.local[t].list :: f !in e.global.list && Pooled(e, f, InLocal(t)))
      && (forall u | u in e.local && t in e.local && u != t :: forall f | f in e.local[t].list :: f !in e.local[u].list)
  {
    InitInv(s);
    RunsAreSafe(s, steps);
    RunKeeps(s, steps);
    var e := Run(s, steps);
    assert LocalOk(e, t);
    forall f | f in e.global.list
      ensures Pooled(e, f, InGlobal)
    {
      HeldIsPooled(e, e.global.list, InGlobal, f);
    }
    if t in e.local {
      forall f | f in e.local[t].list
        ensures f !in e.global.list && Pooled(e, f, InLocal(t))
      {
        HeldIsPooled(e, e.local[t].list, InLocal(t), f);
      }
      forall u, f | u in e.local && u != t && f in e.local[t].list
        ensures f !in e.local[u].list
      {
        assert LocalOk(e, u);
      }
    }
  }

  lemma OneStep(s: Sys, steps: seq<Step>)
    requires steps != [] && Enabled(s, steps[0]) && IsRun(Apply(s, steps[0]), steps[1..])
    ensures IsRun(s, steps) && Run(s, steps) == Run(Apply(s, steps[0]), steps[1..])
  {
  }

  // With a maximum of zero and several threads, a local pool may hold one fiber nevertheless.
  lemma ZeroIsNotKept() returns (s: Sys, steps: seq<Step>)
    ensures Init(s) && IsRun(s, steps) && s.max == 0 && s.multi
    ensures 0 in Run(s, steps).local && Run(s, steps).local[0].size == 1
  {
    s := Sys(map[], map[0 := Pool([], 0)], Pool([], 0), map[0 := []], map[], {}, [], 0, true);
    steps := [Create(0, false, 7, 1, 2), Start(0, 7), Finish(0, true)];
    var s1 := Apply(s, steps[0]);
    var s2 := Apply(s1, steps[1]);
    var none: seq<Fid> := [];
    assert [7] + none == [7] && [7][1..] == none;
    assert s1.fibers == map[7 := Fiber(INIT, Nowhere, Some(1), 2, InUse)] && s1.local == s.local;
    assert s2.stacks == map[0 := [7]] && s2.fibers == map[7 := Fiber(RUNNING, Nowhere, Some(1), 2, On(0))];
    var s3 := Apply(s2, steps[2]);
    assert s3.local[0].size == 1;
    OneStep(s2, [steps[2]]);
    assert steps[1..][1..] == [steps[2]] && steps[1..][0] == steps[1];
    OneStep(s1, steps[1..]);
  }

  // No local pool ever holds more fibers than the maximum.
  ghost predicate BoundKept(max: nat, multi: bool) {
    forall s: Sys, steps: seq<Step>, t: Tid | Init(s) && s.max == max && s.multi == multi && IsRun(s, steps) ::
      t in Run(s, steps).local ==> Run(s, steps).local[t].size <= max
  }

  lemma BoundKeptIff(max: nat, multi: bool)
    ensures BoundKept(max, multi) <==> max >= 1 || !multi
  {
    if max >= 1 || !multi {
      forall s: Sys, steps: seq<Step>, t: Tid | Init(s) && s.max == max && s.multi == multi && IsRun(s, steps)
        ensures t in Run(s, steps).local ==> Run(s, steps).local[t].size <= max
      {
        PoolsAreBounded(s, steps, t);
      }
    } else {
      var s, steps := ZeroIsNotKept();
      assert 0 in Run(s, steps).local;
    }
  }

  // A job whose fiber has been started is entered exactly once, with its own cookie; any other job is not entered.
  lemma EnteredOnce(s: Sys, steps: seq<Step>, j: Job)
    requires Init(s) && IsRun(s, steps)
    ensures var e := Run(s, steps);
      && Count(e.entered, j) == (if j in e.started then 1 else 0)
      && forall i | 0 <= i < |e.entered| && e.entered[i].0 == j :: j in e.created && e.entered[i].1 == e.created[j]
  {
    InitInv(s);
    RunsAreSafe(s, steps);
    var e := Run(s, steps);
    assert JobOk(e, j);
    forall i | 0 <= i < |e.entered| && e.entered[i].0 == j
      ensures j in e.created && e.entered[i].1 == e.created[j]
    {
      assert CookieOk(e, i);
    }
  }
}
