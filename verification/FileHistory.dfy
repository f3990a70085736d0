/**
  What the threads have asked for and what the manager has done (libhilti/file.c, libhilti/cmdqueue.c): every command
  reaches the file that its file object was opened with, and each thread's commands are executed in its order.
*/
module FileHistory {
  import opened Wrappers
  import opened FileProtocol

  // A command as a user thinks of it, with a path instead of a record.
  datatype Order = OpenOf(path: Path) | WriteTo(path: Path, len: nat) | CloseOf(path: Path)

  // The path that each file object, or the one it was cloned from, was last opened with.
  type Wants = map<Obj, Path>

  ghost function Wish(w: Wants, s: State, step: Step): Wants {
    match step
    case OpenLocked(f, path, _) => if f in s.objs && !s.objs[f].open then w[f := path] else w
    case CloneObj(src, dst, _) => if src in w then w[dst := w[src]] else w
    case _ => w
  }

  ghost function Wishes(w: Wants, s: State, steps: seq<Step>): Wants
    decreases |steps|
  {
    if steps == [] then w else Wishes(Wish(w, s, steps[0]), Apply(s, steps[0]), steps[1..])
  }

  // Each open file object has a record in memory, with the path it was opened with.
  ghost predicate PathsRight(s: State, w: Wants) {
    forall f | f in s.objs && s.objs[f].open ::
      f in w && s.objs[f].info in s.infos && s.infos[s.objs[f].info].path == w[f]
  }

  // No record changes its path.
  lemma PathsStay(s: State, step: Step)
    requires Inv(s) && Enabled(s, step)
    ensures forall r | r in s.infos && r in Apply(s, step).infos :: Apply(s, step).infos[r].path == s.infos[r].path
  {
  }

  // Where an open file object has its record from
  lemma OpenAfter(s: State, step: Step, f: Obj)
    requires Enabled(s, step) && f in Apply(s, step).objs && Apply(s, step).objs[f].open
    ensures var s' := Apply(s, step);
      var r := s'.objs[f].info;
      || (f in s.objs && s.objs[f].open && s.objs[f].info == r && !(step.CloneObj? && step.dst == f))
      || (step.CloneObj? && step.dst == f && s.objs[step.src].open && s.objs[step.src].info == r)
      || (step.OpenLocked? && step.f == f && !s.objs[f].open && r in s'.infos && s'.infos[r].path == step.path)
  {
  }

  lemma WishRight(s: State, w: Wants, step: Step)
    requires Inv(s) && Enabled(s, step) && PathsRight(s, w)
    ensures PathsRight(Apply(s, step), Wish(w, s, step))
  {
    StepInv(s, step);
    PathsStay(s, step);
    var s', w' := Apply(s, step), Wish(w, s, step);
    forall f | f in s'.objs && s'.objs[f].open
      ensures f in w' && s'.objs[f].info in s'.infos && s'.infos[s'.objs[f].info].path == w'[f]
    {
      assert ObjOk(s', f);
      OpenAfter(s, step, f);
      hide Apply, Inv;
    }
  }

  // In every interleaving, each open file object refers to the record of the path that it, or what it was cloned from,
  // was opened with.
  lemma {:induction false} OpenFilesAreRight(s: State, w: Wants, steps: seq<Step>)
    requires Inv(s) && PathsRight(s, w) && IsRun(s, steps)
    ensures PathsRight(Run(s, steps), Wishes(w, s, steps))
    decreases |steps|
  {
    if steps != [] {
      StepInv(s, steps[0]);
      WishRight(s, w, steps[0]);
      OpenFilesAreRight(Apply(s, steps[0]), Wish(w, s, steps[0]), steps[1..]);
    }
  }

  // ----- Commands

  function PathIn(infos: map<Rec, Info>, r: Rec): Path {
    if r in infos then infos[r].path else ""
  }

  function OrderOf(infos: map<Rec, Info>, c: Cmd): Order {
    match c
    case Open(r) => OpenOf(PathIn(infos, r))
    case Write(r, len) => WriteTo(PathIn(infos, r), len)
    case Close(r) => CloseOf(PathIn(infos, r))
  }

  function OrdersOf(infos: map<Rec, Info>, q: seq<Cmd>): (os: seq<Order>)
    ensures |os| == |q| && forall i | 0 <= i < |q| :: os[i] == OrderOf(infos, q[i])
  {
    if q == [] then [] else [OrderOf(infos, q[0])] + OrdersOf(infos, q[1..])
  }

  // What a thread's queue asks for
  ghost function Pending(s: State, t: Thread): seq<Order>
    requires t < |s.queues|
  {
    OrdersOf(s.infos, s.queues[t])
  }

  // What a thread asks for in a step: to open, to write and to close, if the file object is open
  ghost function Asked(w: Wants, s: State, step: Step, t: Thread): seq<Order> {
    match step
    case OpenPush(f) =>
      if f in s.objs && f in w && s.objs[f].owner == t then [OpenOf(w[f])] else []
    case WriteObj(f, len) =>
      if f in s.objs && f in w && s.objs[f].owner == t && s.objs[f].open then [WriteTo(w[f], len)] else []
    case CloseObj(f) =>
      if f in s.objs && f in w && s.objs[f].owner == t && s.objs[f].open then [CloseOf(w[f])] else []
    case _ => []
  }

  // What the manager does for a thread in a step
  ghost function Done(s: State, step: Step, t: Thread): seq<Order> {
    if step.Exec? && step.t == t < |s.queues| && s.queues[t] != [] then [OrderOf(s.infos, s.queues[t][0])] else []
  }

  ghost function AllAsked(w: Wants, s: State, steps: seq<Step>, t: Thread): seq<Order>
    decreases |steps|
  {
    if steps == [] then []
    else Asked(w, s, steps[0], t) + AllAsked(Wish(w, s, steps[0]), Apply(s, steps[0]), steps[1..], t)
  }

  ghost function AllDone(s: State, steps: seq<Step>, t: Thread): seq<Order>
    decreases |steps|
  {
    if steps == [] then [] else Done(s, steps[0], t) + AllDone(Apply(s, steps[0]), steps[1..], t)
  }

  lemma OrdersSame(infos: map<Rec, Info>, infos': map<Rec, Info>, q: seq<Cmd>)
    requires forall c | c in q :: PathIn(infos', c.rec) == PathIn(infos, c.rec)
    ensures OrdersOf(infos', q) == OrdersOf(infos, q)
  {
  }

  lemma OrdersJoined(infos: map<Rec, Info>, a: seq<Cmd>, b: seq<Cmd>)
    ensures OrdersOf(infos, a + b) == OrdersOf(infos, a) + OrdersOf(infos, b)
  {
  }

  // What a step puts at the end of a queue
  ghost function Queued(s: State, step: Step, t: Thread): seq<Cmd> {
    match step
    case OpenPush(f) =>
      if f in s.objs && s.objs[f].owner == t then [Open(s.objs[f].info)] else []
    case WriteObj(f, len) =>
      if f in s.objs && s.objs[f].owner == t && s.objs[f].open then [Write(s.objs[f].info, len)] else []
    case CloseObj(f) =>
      if f in s.objs && s.objs[f].owner == t && s.objs[f].open then [Close(s.objs[f].info)] else []
    case _ => []
  }

  lemma QueueAfter(s: State, step: Step, t: Thread)
    requires Enabled(s, step) && t < |s.queues|
    ensures |Apply(s, step).queues| == |s.queues|
    ensures Apply(s, step).queues[t] ==
      (if step.Exec? && step.t == t then s.queues[t][1..] else s.queues[t]) + Queued(s, step, t)
  {
  }

  lemma AskedIsQueued(w: Wants, s: State, step: Step, t: Thread)
    requires Inv(s) && Enabled(s, step) && PathsRight(s, w)
    ensures Asked(w, s, step, t) == OrdersOf(s.infos, Queued(s, step, t))
    ensures forall c | c in Queued(s, step, t) :: c.rec in s.infos
  {
    if step.OpenPush? {
      assert ObjOk(s, step.f);
    }
  }

  lemma RecordsKnown(s: State, t: Thread)
    requires Inv(s) && t < |s.queues|
    ensures forall c | c in s.queues[t] :: c.rec in s.infos
  {
    forall i | 0 <= i < |s.queues[t]|
      ensures s.queues[t][i].rec in s.infos
    {
      assert CmdOk(s, t, i);
    }
  }

  lemma QueuedPathsStay(w: Wants, s: State, step: Step, t: Thread)
    requires Inv(s) && Enabled(s, step) && PathsRight(s, w) && t < |s.queues|
    ensures |Apply(s, step).queues| == |s.queues|
    ensures OrdersOf(Apply(s, step).infos, Apply(s, step).queues[t]) == OrdersOf(s.infos, Apply(s, step).queues[t])
  {
    var s' := Apply(s, step);
    StepInv(s, step);
    PathsStay(s, step);
    QueueAfter(s, step, t);
    AskedIsQueued(w, s, step, t);
    RecordsKnown(s, t);
    RecordsKnown(s', t);
    hide Inv, Apply, Queued, Asked, PathsRight, Enabled;
    assert forall c | c in s'.queues[t] :: c.rec in s.infos && c.rec in s'.infos;
    OrdersSame(s.infos, s'.infos, s'.queues[t]);
  }

  // A queue changes by what its thread asks for, at the end, and by what the manager does, at the front.
  lemma QueueStep(w: Wants, s: State, step: Step, t: Thread)
    requires Inv(s) && Enabled(s, step) && PathsRight(s, w) && t < |s.queues|
    ensures |Apply(s, step).queues| == |s.queues|
    ensures Pending(s, t) + Asked(w, s, step, t) == Done(s, step, t) + Pending(Apply(s, step), t)
  {
    var s', q := Apply(s, step), Queued(s, step, t);
    QueueAfter(s, step, t);
    AskedIsQueued(w, s, step, t);
    QueuedPathsStay(w, s, step, t);
    hide Inv, Apply, Queued, Asked, PathsRight, Enabled;
    OrdersJoined(s.infos, if step.Exec? && step.t == t then s.queues[t][1..] else s.queues[t], q);
  }

  // In every interleaving, and for each thread: what the manager has done, and then what is still queued, is what the
  // thread has asked for, in its order and for its paths.
  lemma {:induction false} FirstAskedFirstDone(w: Wants, s: State, steps: seq<Step>, t: Thread)
    requires Inv(s) && PathsRight(s, w) && IsRun(s, steps) && t < |s.queues|
    ensures |Run(s, steps).queues| == |s.queues|
    ensures Pending(s, t) + AllAsked(w, s, steps, t) == AllDone(s, steps, t) + Pending(Run(s, steps), t)
    decreases |steps|
  {
    hide Inv, PathsRight, Enabled, Apply, Pending, Asked, Done, Wish;
    if steps != [] {
      var s', w' := Apply(s, steps[0]), Wish(w, s, steps[0]);
      QueueStep(w, s, steps[0], t);
      StepInv(s, steps[0]);
      WishRight(s, w, steps[0]);
      FirstAskedFirstDone(w', s', steps[1..], t);
      Rearranged(Pending(s, t), Asked(w, s, steps[0], t), AllAsked(w', s', steps[1..], t), Done(s, steps[0], t),
        AllDone(s', steps[1..], t), Pending(s', t), Pending(Run(s, steps), t));
    } else {
      assert Pending(s, t) + [] == [] + Pending(s, t);
    }
  }

  lemma Rearranged(p: seq<Order>, a: seq<Order>, b: seq<Order>, d: seq<Order>, ds: seq<Order>, p1: seq<Order>,
                   p2: seq<Order>)
    requires p + a == d + p1 && p1 + b == ds + p2
    ensures p + (a + b) == (d + ds) + p2
  {
    assert p + (a + b) == (p + a) + b == d + (p1 + b);
  }

  lemma FromTheStart(s: State, steps: seq<Step>, t: Thread)
    requires Init(s) && IsRun(s, steps) && t < |s.queues|
    ensures PathsRight(Run(s, steps), Wishes(map[], s, steps))
    ensures |Run(s, steps).queues| == |s.queues|
    ensures AllAsked(map[], s, steps, t) == AllDone(s, steps, t) + Pending(Run(s, steps), t)
  {
    InitInv(s);
    OpenFilesAreRight(s, map[], steps);
    FirstAskedFirstDone(map[], s, steps, t);
    assert Pending(s, t) == [];
  }
}
