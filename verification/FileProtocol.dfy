/**
  Files shared between threads (libhilti/file.c): all file objects with the same path share one record, which
  counts its writers. Threads queue open, write and close commands, each in its own order; one manager thread
  (libhilti/cmdqueue.c) executes them. A state is what all of them see between two critical sections, and a run
  is any interleaving of their steps.
*/
module FileProtocol {
  import opened Sequences
  import opened Wrappers

  type Path = string
  type Thread = nat   // a writer slot of the command queue
  type Rec = nat      // the address of a record
  type Obj = nat      // the address of a file object

  datatype Info = Info(path: Path, fd: int, writers: int, error: bool)

  // `pushing`: between releasing the lock in hlt_file_open and queueing the open command.
  datatype File = File(owner: Thread, info: Rec, open: bool, pushing: bool)

  datatype Cmd = Open(rec: Rec) | Write(rec: Rec, len: nat) | Close(rec: Rec)

  // What the operating system answers: a descriptor, a failure, or (when opening) that the path has no native
  // name.
  datatype Answer = Fd(fd: nat) | Failed | NoName

  datatype State = State(
    infos: map<Rec, Info>,    // the records in memory
    files: seq<Rec>,          // the global list of records
    objs: map<Obj, File>,
    queues: seq<seq<Cmd>>,    // what each thread has queued and the manager has not executed
    lost: map<Rec, nat>)      // history: how many closes of a record the manager has dropped

  datatype Step =
    | NewObj(f: Obj, t: Thread)
    | OpenLocked(f: Obj, path: Path, addr: Rec)
    | OpenPush(f: Obj)
    | CloneObj(src: Obj, dst: Obj, t: Thread)
    | WriteObj(f: Obj, len: nat)
    | CloseObj(f: Obj)
    | Exec(t: Thread, answer: Answer)

  // ----- The steps

  // What the source leaves to its environment: a file object is used by one thread, in program order; a new
  // object or record is not in use yet; the manager executes the first command of some thread.
  ghost predicate Enabled(s: State, step: Step) {
    match step
    case NewObj(f, t) => f !in s.objs && t < |s.queues|
    case OpenLocked(f, _, addr) => f in s.objs && !s.objs[f].pushing && addr !in s.infos
    case OpenPush(f) => f in s.objs && s.objs[f].pushing
    case CloneObj(src, dst, t) => src in s.objs && !s.objs[src].pushing && dst !in s.objs && t < |s.queues|
    case WriteObj(f, _) => f in s.objs && !s.objs[f].pushing
    case CloseObj(f) => f in s.objs && !s.objs[f].pushing
    case Exec(t, _) => t < |s.queues| && s.queues[t] != []
  }

  // Every record a step touches is in memory, the assertion on the writers holds, and a record to be deleted is
  // found in the list.
  ghost predicate Safe(s: State, step: Step) {
    match step
    case OpenLocked(f, path, _) => forall r | r in s.files :: r in s.infos
    case CloneObj(src, _, _) => src in s.objs && s.objs[src].open ==> s.objs[src].info in s.infos
    case Exec(t, _) =>
      t < |s.queues| && s.queues[t] != [] ==>
        var c := s.queues[t][0];
        && c.rec in s.infos
        && (c.Close? && s.infos[c.rec].fd >= 0 ==> s.infos[c.rec].writers > 0 && c.rec in s.files)
    case _ => true
  }

  function Push(s: State, t: Thread, c: Cmd): State {
    if t < |s.queues| then s.(queues := s.queues[t := s.queues[t] + [c]]) else s
  }

  // The first record of the list with this path.
  function Find(l: seq<Rec>, infos: map<Rec, Info>, path: Path): (r: Option<Rec>)
    ensures r.Some? ==> r.value in l && r.value in infos && infos[r.value].path == path
    ensures r.None? ==> forall x | x in l && x in infos :: infos[x].path != path
  {
    if l == [] then None
    else if l[0] in infos && infos[l[0]].path == path then Some(l[0])
    else Find(l[1..], infos, path)
  }

  function Lost(s: State, r: Rec): nat {
    if r in s.lost then s.lost[r] else 0
  }

  function Apply(s: State, step: Step): State {
    match step
    case NewObj(f, t) => s.(objs := s.objs[f := File(t, 0, false, false)])
    case OpenLocked(f, path, addr) =>
      if f !in s.objs || s.objs[f].open then s  // "file already open"
      else
        var file := s.objs[f];
        (match Find(s.files, s.infos, path)
         case Some(r) =>
           s.(infos := s.infos[r := s.infos[r].(writers := s.infos[r].writers + 1)],
              objs := s.objs[f := file.(info := r, open := true, pushing := true)])
         case None =>
           s.(infos := s.infos[addr := Info(path, -1, 1, false)],
              files := [addr] + s.files,
              objs := s.objs[f := file.(info := addr, open := true, pushing := true)],
              lost := s.lost - {addr}))
    case OpenPush(f) =>
      if f !in s.objs then s
      else Push(s.(objs := s.objs[f := s.objs[f].(pushing := false)]), s.objs[f].owner, Open(s.objs[f].info))
    case CloneObj(src, dst, t) =>
      if src !in s.objs then s
      else
        var file := s.objs[src];
        var infos := if file.open && file.info in s.infos
                     then s.infos[file.info := s.infos[file.info].(writers := s.infos[file.info].writers + 1)]
                     else s.infos;
        s.(infos := infos, objs := s.objs[dst := File(t, file.info, file.open, false)])
    case WriteObj(f, len) =>
      if f !in s.objs || !s.objs[f].open then s  // "file not open"
      else Push(s, s.objs[f].owner, Write(s.objs[f].info, len))
    case CloseObj(f) =>
      if f !in s.objs || !s.objs[f].open then s  // "file not open"
      else Push(s.(objs := s.objs[f := s.objs[f].(open := false)]), s.objs[f].owner, Close(s.objs[f].info))
    case Exec(t, answer) =>
      if t >= |s.queues| || s.queues[t] == [] then s
      else Execute(s.(queues := s.queues[t := s.queues[t][1..]]), s.queues[t][0], answer)
  }

  // __hlt_file_cmd_internal
  function Execute(s: State, c: Cmd, answer: Answer): State {
    if c.rec !in s.infos then s
    else
      var r, info := c.rec, s.infos[c.rec];
      match c
      case Open(_) =>
        if info.error || info.fd >= 0 || answer.NoName? then s
        else if answer.Failed? then s.(infos := s.infos[r := info.(error := true)])
        else s.(infos := s.infos[r := info.(fd := answer.fd)])
      case Write(_, len) =>
        if info.fd < 0 || info.error || len == 0 || answer.Fd? then s
        else s.(infos := s.infos[r := info.(error := true)])
      case Close(_) =>
        if info.fd < 0 then s.(lost := s.lost[r := Lost(s, r) + 1])
        else if info.writers == 1 then Delete(s, r)
        else s.(infos := s.infos[r := info.(writers := info.writers - 1)])
  }

  function Delete(s: State, r: Rec): State {
    s.(infos := s.infos - {r}, files := Without(s.files, r))
  }

  function Without(l: seq<Rec>, r: Rec): (l': seq<Rec>)
    ensures forall x | x in l' :: x in l
    ensures forall x | x in l && x != r :: x in l'
  {
    if l == [] then [] else if l[0] == r then l[1..] else [l[0]] + Without(l[1..], r)
  }

  // ----- Counting who still refers to a record

  ghost function Sessions(s: State, r: Rec): set<Obj> {
    set f | f in s.objs && s.objs[f].open && s.objs[f].info == r
  }

  function Closes(q: seq<Cmd>, r: Rec): nat {
    if q == [] then 0 else (if q[0] == Close(r) then 1 else 0) + Closes(q[1..], r)
  }

  function AllCloses(qs: seq<seq<Cmd>>, r: Rec): nat {
    if qs == [] then 0 else Closes(qs[0], r) + AllCloses(qs[1..], r)
  }

  lemma {:induction false} ClosesAppend(q: seq<Cmd>, c: Cmd, r: Rec)
    ensures Closes(q + [c], r) == Closes(q, r) + if c == Close(r) then 1 else 0
  {
    if q != [] {
      assert (q + [c])[1..] == q[1..] + [c];
      ClosesAppend(q[1..], c, r);
    }
  }

  lemma {:induction false} AllClosesUpdate(qs: seq<seq<Cmd>>, t: Thread, q: seq<Cmd>, r: Rec)
    requires t < |qs|
    ensures AllCloses(qs[t := q], r) == AllCloses(qs, r) - Closes(qs[t], r) + Closes(q, r)
    ensures Closes(qs[t], r) <= AllCloses(qs, r)
  {
    if t == 0 {
      assert qs[t := q][1..] == qs[1..];
    } else {
      assert qs[t := q][1..] == qs[1..][t - 1 := q];
      AllClosesUpdate(qs[1..], t - 1, q, r);
    }
  }

  lemma {:induction false} CloseCountedIn(q: seq<Cmd>, i: nat, r: Rec)
    requires i < |q| && q[i] == Close(r)
    ensures Closes(q, r) > 0
  {
    if i > 0 {
      CloseCountedIn(q[1..], i - 1, r);
    }
  }

  // ----- The invariant

  ghost predicate Inv(s: State) {
    && ListOk(s)
    && (forall r | r in s.infos :: Accounted(s, r))
    && (forall f | f in s.objs :: ObjOk(s, f))
    && (forall t, i | 0 <= t < |s.queues| && 0 <= i < |s.queues[t]| :: CmdOk(s, t, i))
  }

  // The list holds each record in memory once, and no two of them have the same path.
  ghost predicate ListOk(s: State) {
    && (forall r | r in s.files :: r in s.infos)
    && (forall r | r in s.infos :: r in s.files)
    && Distinct(s.files)
    && (forall r, r' :: PathsApart(s, r, r'))
  }

  ghost predicate PathsApart(s: State, r: Rec, r': Rec) {
    r in s.infos && r' in s.infos && s.infos[r].path == s.infos[r'].path ==> r == r'
  }

  // The writers of a record are its open file objects, the closes still queued, and the closes lost.
  ghost predicate Accounted(s: State, r: Rec)
    requires r in s.infos
  {
    s.infos[r].writers == |Sessions(s, r)| + AllCloses(s.queues, r) + Lost(s, r) > 0
  }

  ghost predicate ObjOk(s: State, f: Obj)
    requires f in s.objs
  {
    var file := s.objs[f];
    && file.owner < |s.queues|
    && (file.open ==> file.info in s.infos)
    && (file.pushing ==> file.open)
  }

  // A queued command's record is in memory; whoever queued it has the file still open or has queued the close
  // behind it.
  ghost predicate CmdOk(s: State, t: Thread, i: nat)
    requires t < |s.queues| && i < |s.queues[t]|
  {
    var c := s.queues[t][i];
    && c.rec in s.infos
    && (c.Close? || CloseBehind(s.queues[t], i, c.rec) || Holder(s, t, c.rec))
  }

  ghost predicate CloseBehind(q: seq<Cmd>, i: int, r: Rec) {
    exists j :: i < j < |q| && 0 <= j && q[j] == Close(r)
  }

  ghost predicate Holder(s: State, t: Thread, r: Rec) {
    exists f :: f in s.objs && s.objs[f].owner == t && s.objs[f].open && s.objs[f].info == r
  }

  ghost predicate Init(s: State) {
    s.infos == map[] && s.files == [] && s.objs == map[] && s.lost == map[] && forall t | 0 <= t < |s.queues| :: s.queues[t] == []
  }

  lemma InitInv(s: State)
    requires Init(s)
    ensures Inv(s) && NothingLost(s)
  {
  }

  lemma InvSafe(s: State, step: Step)
    requires Inv(s) && Enabled(s, step)
    ensures Safe(s, step)
  {
    match step
    case CloneObj(src, _, _) => assert ObjOk(s, src);
    case Exec(t, _) =>
      assert CmdOk(s, t, 0);
      var c := s.queues[t][0];
      assert Accounted(s, c.rec);
    case _ =>
  }

  // ----- Preservation, step by step

  lemma {:induction false} NoCloses(qs: seq<seq<Cmd>>, r: Rec)
    requires forall t, i | 0 <= t < |qs| && 0 <= i < |qs[t]| :: qs[t][i] != Close(r)
    ensures AllCloses(qs, r) == 0
  {
    if qs != [] {
      NoClosesIn(qs[0], r);
      NoCloses(qs[1..], r);
    }
  }

  lemma {:induction false} NoClosesIn(q: seq<Cmd>, r: Rec)
    requires forall i | 0 <= i < |q| :: q[i] != Close(r)
    ensures Closes(q, r) == 0
  {
    if q != [] {
      NoClosesIn(q[1..], r);
    }
  }

  lemma IdleObj(s: State, f: Obj, file: File)
    requires Inv(s) && f !in s.objs && file.owner < |s.queues| && !file.open && !file.pushing
    ensures Inv(s.(objs := s.objs[f := file]))
  {
    hide ListOk;
    var s' := s.(objs := s.objs[f := file]);
    ListKept(s, s');
    forall r | r in s'.infos
      ensures Accounted(s', r)
    {
      assert Accounted(s, r);
      assert Sessions(s', r) == Sessions(s, r);
    }
    forall g | g in s'.objs
      ensures ObjOk(s', g)
    {
      assert g != f ==> ObjOk(s, g);
    }
    CmdsKept(s, s');
  }

  // Holders stay holders as long as no open file object changes.
  lemma HolderKept(s: State, s': State, t: Thread, r: Rec)
    requires forall f | f in s.objs && s.objs[f].open ::
      f in s'.objs && s'.objs[f].owner == s.objs[f].owner && s'.objs[f].open && s'.objs[f].info == s.objs[f].info
    ensures Holder(s, t, r) ==> Holder(s', t, r)
  {
  }

  // The list stays in order as long as no record comes, goes or changes its path.
  lemma ListKept(s: State, s': State)
    requires ListOk(s) && s'.files == s.files && s'.infos.Keys == s.infos.Keys
    requires forall r | r in s.infos :: s'.infos[r].path == s.infos[r].path
    ensures ListOk(s')
  {
    forall r, r'
      ensures PathsApart(s', r, r')
    {
      assert PathsApart(s, r, r');
    }
  }

  // A new record at the front, with a path that no record has.
  lemma ListGrows(s: State, s': State, r: Rec, info: Info)
    requires ListOk(s) && r !in s.infos && Find(s.files, s.infos, info.path).None?
    requires s'.files == [r] + s.files && s'.infos == s.infos[r := info]
    ensures ListOk(s')
  {
    forall x, y
      ensures PathsApart(s', x, y)
    {
      assert PathsApart(s, x, y);
    }
  }

  // A record gone.
  lemma ListShrinks(s: State, r: Rec)
    requires ListOk(s)
    ensures ListOk(Delete(s, r))
  {
    WithoutDistinct(s.files, r);
    forall x, y
      ensures PathsApart(Delete(s, r), x, y)
    {
      assert PathsApart(s, x, y);
    }
  }

  lemma CmdsKept(s: State, s': State)
    requires s'.queues == s.queues && forall r | r in s.infos :: r in s'.infos
    requires forall f | f in s.objs && s.objs[f].open ::
      f in s'.objs && s'.objs[f].owner == s.objs[f].owner && s'.objs[f].open && s'.objs[f].info == s.objs[f].info
    requires forall t, i | 0 <= t < |s.queues| && 0 <= i < |s.queues[t]| :: CmdOk(s, t, i)
    ensures forall t, i | 0 <= t < |s.queues| && 0 <= i < |s.queues[t]| :: CmdOk(s', t, i)
  {
    forall t, i | 0 <= t < |s.queues| && 0 <= i < |s.queues[t]|
      ensures CmdOk(s', t, i)
    {
      assert CmdOk(s, t, i);
      HolderKept(s, s', t, s.queues[t][i].rec);
    }
  }

  lemma OpenLockedInv(s: State, f: Obj, path: Path, addr: Rec)
    requires Inv(s) && Enabled(s, OpenLocked(f, path, addr))
    ensures Inv(Apply(s, OpenLocked(f, path, addr)))
  {
    if !s.objs[f].open {
      var found := Find(s.files, s.infos, path);
      if found.Some? {
        MoreWriters(s, found.value, f, s.objs[f].(info := found.value, open := true, pushing := true));
      } else {
        NewRecordInv(s, f, path, addr);
      }
    }
  }

  // One more open file object for a record, and one more writer.
  lemma MoreWriters(s: State, r: Rec, f: Obj, file: File)
    requires Inv(s) && r in s.infos && (f in s.objs ==> !s.objs[f].open)
    requires file.owner < |s.queues| && file.info == r && file.open
    ensures Inv(s.(infos := s.infos[r := s.infos[r].(writers := s.infos[r].writers + 1)], objs := s.objs[f := file]))
  {
    hide ListOk, Accounted, CmdOk;
    var s' := s.(infos := s.infos[r := s.infos[r].(writers := s.infos[r].writers + 1)], objs := s.objs[f := file]);
    ListKept(s, s');
    forall x | x in s'.infos
      ensures Accounted(s', x)
    {
      assert Accounted(s, x);
      MoreSessions(s, s', r, f, file, x);
    }
    ObjsKept(s, s', f);
    CmdsKept(s, s');
  }

  lemma MoreSessions(s: State, s': State, r: Rec, f: Obj, file: File, x: Rec)
    requires x in s.infos && Accounted(s, x) && (f in s.objs ==> !s.objs[f].open) && file.info == r && file.open
    requires s'.objs == s.objs[f := file] && s'.queues == s.queues && Lost(s', x) == Lost(s, x) && x in s'.infos
    requires s'.infos[x].writers == s.infos[x].writers + if x == r then 1 else 0
    ensures Accounted(s', x)
  {
    assert Sessions(s', x) == if x == r then Sessions(s, x) + {f} else Sessions(s, x);
  }

  lemma ObjsKept(s: State, s': State, f: Obj)
    requires forall g | g in s.objs :: ObjOk(s, g)
    requires s'.objs.Keys == s.objs.Keys + {f} && forall g | g in s.objs && g != f :: s'.objs[g] == s.objs[g]
    requires |s'.queues| == |s.queues| && (forall r | r in s.infos :: r in s'.infos) && ObjOk(s', f)
    ensures forall g | g in s'.objs :: ObjOk(s', g)
  {
    forall g | g in s'.objs
      ensures ObjOk(s', g)
    {
      assert g != f ==> ObjOk(s, g);
    }
  }

  lemma NewRecordInv(s: State, f: Obj, path: Path, addr: Rec)
    requires Inv(s) && Enabled(s, OpenLocked(f, path, addr)) && !s.objs[f].open && Find(s.files, s.infos, path).None?
    ensures Inv(Apply(s, OpenLocked(f, path, addr)))
  {
    hide ListOk, CmdOk;
    var s' := Apply(s, OpenLocked(f, path, addr));
    ListGrows(s, s', addr, Info(path, -1, 1, false));
    Unused(s, addr);
    forall x | x in s'.infos
      ensures Accounted(s', x)
    {
      if x in s.infos {
        assert Accounted(s, x);
        MoreSessions(s, s', addr, f, s'.objs[f], x);
      } else {
        assert Sessions(s', x) == Sessions(s, x) + {f};
      }
    }
    ObjsKept(s, s', f);
    CmdsKept(s, s');
  }

  // Nobody refers to an address that is not a record.
  lemma Unused(s: State, addr: Rec)
    requires Inv(s) && addr !in s.infos
    ensures AllCloses(s.queues, addr) == 0 && Sessions(s, addr) == {}
  {
    forall u, i | 0 <= u < |s.queues| && 0 <= i < |s.queues[u]|
      ensures s.queues[u][i] != Close(addr)
    {
      assert CmdOk(s, u, i);
    }
    NoCloses(s.queues, addr);
    forall f | f in s.objs && s.objs[f].open
      ensures s.objs[f].info != addr
    {
      assert ObjOk(s, f);
    }
  }

  lemma CloneObjInv(s: State, src: Obj, dst: Obj, t: Thread)
    requires Inv(s) && Enabled(s, CloneObj(src, dst, t))
    ensures Inv(Apply(s, CloneObj(src, dst, t)))
  {
    assert ObjOk(s, src);
    var file := s.objs[src];
    if file.open {
      MoreWriters(s, file.info, dst, File(t, file.info, true, false));
    } else {
      IdleObj(s, dst, File(t, file.info, false, false));
    }
  }

  // Queueing an open or write command, while the file stays open.
  lemma PushInv(s: State, f: Obj, c: Cmd)
    requires Inv(s) && f in s.objs && s.objs[f].open && c.rec == s.objs[f].info && !c.Close?
    ensures Inv(Push(s.(objs := s.objs[f := s.objs[f].(pushing := false)]), s.objs[f].owner, c))
  {
    var t := s.objs[f].owner;
    hide ListOk;
    var s' := Push(s.(objs := s.objs[f := s.objs[f].(pushing := false)]), t, c);
    ListKept(s, s');
    assert ObjOk(s, f);
    forall x | x in s'.infos
      ensures Accounted(s', x)
    {
      assert Accounted(s, x);
      assert Sessions(s', x) == Sessions(s, x);
      ClosesAppend(s.queues[t], c, x);
      AllClosesUpdate(s.queues, t, s.queues[t] + [c], x);
    }
    forall g | g in s'.objs
      ensures ObjOk(s', g)
    {
      assert ObjOk(s, g);
    }
    forall u, i | 0 <= u < |s'.queues| && 0 <= i < |s'.queues[u]|
      ensures CmdOk(s', u, i)
    {
      if i < |s.queues[u]| {
        assert CmdOk(s, u, i);
        HolderKept(s, s', u, s.queues[u][i].rec);
        BehindKept(s.queues[u], s'.queues[u], i, s.queues[u][i].rec);
      } else {
        assert s'.objs[f].owner == t && s'.objs[f].open;
        assert Holder(s', t, c.rec);
      }
    }
  }

  lemma BehindKept(q: seq<Cmd>, q': seq<Cmd>, i: int, r: Rec)
    requires q <= q'
    ensures CloseBehind(q, i, r) ==> CloseBehind(q', i, r)
  {
    if CloseBehind(q, i, r) {
      var j :| i < j < |q| && 0 <= j && q[j] == Close(r);
      assert q'[j] == Close(r);
    }
  }

  lemma CloseObjInv(s: State, f: Obj)
    requires Inv(s) && Enabled(s, CloseObj(f))
    ensures Inv(Apply(s, CloseObj(f)))
  {
    hide ListOk;
    var s' := Apply(s, CloseObj(f));
    ListKept(s, s');
    assert ObjOk(s, f);
    if s.objs[f].open {
      var t, c := s.objs[f].owner, Close(s.objs[f].info);
      forall x | x in s'.infos
        ensures Accounted(s', x)
      {
        assert Accounted(s, x);
        assert Sessions(s', x) == Sessions(s, x) - {f};
        ClosesAppend(s.queues[t], c, x);
        AllClosesUpdate(s.queues, t, s.queues[t] + [c], x);
      }
      forall g | g in s'.objs
        ensures ObjOk(s', g)
      {
        assert ObjOk(s, g);
      }
      forall u, i | 0 <= u < |s'.queues| && 0 <= i < |s'.queues[u]|
        ensures CmdOk(s', u, i)
      {
        if i < |s.queues[u]| {
          assert CmdOk(s, u, i);
          CloserBehind(s, s', f, u, i);
        }
      }
    }
  }

  // A command that relied on f being open now has f's close behind it.
  lemma CloserBehind(s: State, s': State, f: Obj, u: Thread, i: nat)
    requires f in s.objs && s.objs[f].open && s.objs[f].owner < |s.queues| && s' == Apply(s, CloseObj(f))
    requires u < |s.queues| && i < |s.queues[u]| && CmdOk(s, u, i)
    ensures CmdOk(s', u, i)
  {
    var r := s.queues[u][i].rec;
    BehindKept(s.queues[u], s'.queues[u], i, r);
    if s.objs[f].owner == u && s.objs[f].info == r {
      assert s'.queues[u][|s.queues[u]|] == Close(r);
    } else if Holder(s, u, r) {
      var g :| g in s.objs && s.objs[g].owner == u && s.objs[g].open && s.objs[g].info == r;
      assert s'.objs[g] == s.objs[g];
    }
  }

  // ----- The manager

  // The state after the manager has taken c off the queue of thread t, but before it executes it: everything is
  // in order, except that c no longer counts as queued.
  ghost predicate Popped(s: State, c: Cmd) {
    && ListOk(s)
    && c.rec in s.infos
    && (forall r | r in s.infos ::
          s.infos[r].writers == |Sessions(s, r)| + AllCloses(s.queues, r) + Lost(s, r) + (if c == Close(r) then 1 else 0) > 0)
    && (forall f | f in s.objs :: ObjOk(s, f))
    && (forall t, i | 0 <= t < |s.queues| && 0 <= i < |s.queues[t]| :: CmdOk(s, t, i))
  }

  lemma PopPopped(s: State, t: Thread)
    requires Inv(s) && t < |s.queues| && s.queues[t] != []
    ensures Popped(s.(queues := s.queues[t := s.queues[t][1..]]), s.queues[t][0])
  {
    var c, s' := s.queues[t][0], s.(queues := s.queues[t := s.queues[t][1..]]);
    hide ListOk;
    ListKept(s, s');
    assert CmdOk(s, t, 0);
    forall r | r in s.infos
      ensures s'.infos[r].writers == |Sessions(s', r)| + AllCloses(s'.queues, r) + Lost(s', r) + (if c == Close(r) then 1 else 0) > 0
    {
      assert Accounted(s, r);
      assert Sessions(s', r) == Sessions(s, r);
      AllClosesUpdate(s.queues, t, s.queues[t][1..], r);
    }
    forall f | f in s'.objs
      ensures ObjOk(s', f)
    {
      assert ObjOk(s, f);
    }
    forall u, i | 0 <= u < |s'.queues| && 0 <= i < |s'.queues[u]|
      ensures CmdOk(s', u, i)
    {
      var k := if u == t then i + 1 else i;
      assert CmdOk(s, u, k) && s'.queues[u][i] == s.queues[u][k];
      HolderKept(s, s', u, s.queues[u][k].rec);
      if CloseBehind(s.queues[u], k, s.queues[u][k].rec) {
        var j :| k < j < |s.queues[u]| && 0 <= j && s.queues[u][j] == Close(s.queues[u][k].rec);
        assert s'.queues[u][j - (k - i)] == Close(s.queues[u][k].rec);
      }
    }
  }

  lemma ExecuteInv(s: State, c: Cmd, answer: Answer)
    requires Popped(s, c)
    ensures Inv(Execute(s, c, answer))
  {
    if c.Close? && s.infos[c.rec].fd >= 0 && s.infos[c.rec].writers == 1 {
      DeleteInv(s, c.rec);
    } else {
      RecordChanged(s, Execute(s, c, answer), c);
    }
  }

  // The manager changes a record, and accounts for the close it has executed.
  lemma RecordChanged(s: State, s': State, c: Cmd)
    requires Popped(s, c) && s'.files == s.files && s'.objs == s.objs && s'.queues == s.queues
    requires s'.infos.Keys == s.infos.Keys
    requires forall x | x in s.infos :: Balanced(s, s', c, x)
    ensures Inv(s')
  {
    hide ListOk, CmdOk;
    ListKept(s, s');
    forall x | x in s'.infos
      ensures Accounted(s', x)
    {
      assert Balanced(s, s', c, x);
      assert Sessions(s', x) == Sessions(s, x);
    }
    forall f | f in s'.objs
      ensures ObjOk(s', f)
    {
      assert ObjOk(s, f);
    }
    CmdsKept(s, s');
  }

  ghost predicate Balanced(s: State, s': State, c: Cmd, x: Rec)
    requires x in s.infos && x in s'.infos
  {
    && s'.infos[x].path == s.infos[x].path
    && s'.infos[x].writers - Lost(s', x) == s.infos[x].writers - Lost(s, x) - (if c == Close(x) then 1 else 0)
    && s'.infos[x].writers > 0
  }

  // When the last writer goes, nobody refers to the record any more, and it can be freed.
  lemma DeleteInv(s: State, r: Rec)
    requires Popped(s, Close(r)) && s.infos[r].writers == 1
    ensures Inv(Delete(s, r))
    ensures Sessions(s, r) == {} && AllCloses(s.queues, r) == 0 && Lost(s, r) == 0
  {
    hide ListOk;
    var s' := Delete(s, r);
    assert |Sessions(s, r)| == 0;
    ListShrinks(s, r);
    forall x | x in s'.infos
      ensures Accounted(s', x)
    {
      assert Sessions(s', x) == Sessions(s, x);
    }
    forall f | f in s'.objs
      ensures ObjOk(s', f)
    {
      assert ObjOk(s, f);
      assert s.objs[f].open && s.objs[f].info == r ==> f in Sessions(s, r);
    }
    DeleteCmds(s, r);
  }

  lemma DeleteCmds(s: State, r: Rec)
    requires Popped(s, Close(r)) && Sessions(s, r) == {} && AllCloses(s.queues, r) == 0
    ensures forall t, i | 0 <= t < |s.queues| && 0 <= i < |s.queues[t]| :: CmdOk(Delete(s, r), t, i)
  {
    forall t, i | 0 <= t < |s.queues| && 0 <= i < |s.queues[t]|
      ensures CmdOk(Delete(s, r), t, i)
    {
      assert CmdOk(s, t, i);
      HolderCounted(s, t, r);
      CloseCounted(s.queues, t, i, r);
      HolderKept(s, Delete(s, r), t, s.queues[t][i].rec);
    }
  }

  lemma HolderCounted(s: State, t: Thread, r: Rec)
    ensures Holder(s, t, r) ==> Sessions(s, r) != {}
  {
    if Holder(s, t, r) {
      var f :| f in s.objs && s.objs[f].owner == t && s.objs[f].open && s.objs[f].info == r;
      assert f in Sessions(s, r);
    }
  }

  lemma CloseCounted(qs: seq<seq<Cmd>>, t: Thread, i: nat, r: Rec)
    requires t < |qs| && i < |qs[t]|
    ensures qs[t][i] == Close(r) || CloseBehind(qs[t], i, r) ==> AllCloses(qs, r) > 0
  {
    if qs[t][i] == Close(r) || CloseBehind(qs[t], i, r) {
      var j: nat :| j < |qs[t]| && qs[t][j] == Close(r);
      CloseCountedIn(qs[t], j, r);
      AllClosesUpdate(qs, t, qs[t], r);
    }
  }

  lemma {:induction false} WithoutDistinct(l: seq<Rec>, r: Rec)
    requires Distinct(l)
    ensures r !in Without(l, r) && Distinct(Without(l, r))
  {
    if l != [] {
      if l[0] == r {
        assert forall i | 0 <= i < |l[1..]| :: l[1..][i] != l[0];
      } else {
        WithoutDistinct(l[1..], r);
        assert l[0] !in l[1..];
      }
    }
  }

  // Every step keeps the invariant.
  lemma StepInv(s: State, step: Step)
    requires Inv(s) && Enabled(s, step)
    ensures Inv(Apply(s, step))
  {
    match step
    case NewObj(f, t) => IdleObj(s, f, File(t, 0, false, false));
    case OpenLocked(f, path, addr) => OpenLockedInv(s, f, path, addr);
    case OpenPush(f) =>
      assert ObjOk(s, f);
      PushInv(s, f, Open(s.objs[f].info));
    case CloneObj(src, dst, t) => CloneObjInv(s, src, dst, t);
    case WriteObj(f, len) =>
      if s.objs[f].open {
        PushInv(s, f, Write(s.objs[f].info, len));
        assert s.objs[f := s.objs[f].(pushing := false)] == s.objs;
      }
    case CloseObj(f) => CloseObjInv(s, f);
    case Exec(t, answer) =>
      PopPopped(s, t);
      ExecuteInv(s.(queues := s.queues[t := s.queues[t][1..]]), s.queues[t][0], answer);
  }

  // ----- Whole runs

  ghost predicate IsRun(s: State, steps: seq<Step>)
    decreases |steps|
  {
    steps == [] || (Enabled(s, steps[0]) && IsRun(Apply(s, steps[0]), steps[1..]))
  }

  function Run(s: State, steps: seq<Step>): State
    decreases |steps|
  {
    if steps == [] then s else Run(Apply(s, steps[0]), steps[1..])
  }

  ghost predicate SafeRun(s: State, steps: seq<Step>)
    decreases |steps|
  {
    steps == [] || (Safe(s, steps[0]) && SafeRun(Apply(s, steps[0]), steps[1..]))
  }

  // In every interleaving, no step touches a freed record, the assertion on the writers holds at each close,
  // and afterwards the accounts balance: records, list, file objects and queued commands fit together.
  lemma {:induction false} RunsAreSafe(s: State, steps: seq<Step>)
    requires Inv(s) && IsRun(s, steps)
    ensures SafeRun(s, steps) && Inv(Run(s, steps))
    decreases |steps|
  {
    if steps != [] {
      InvSafe(s, steps[0]);
      StepInv(s, steps[0]);
      RunsAreSafe(Apply(s, steps[0]), steps[1..]);
    }
  }

  // There is never more than one record for a path.
  lemma OneRecordPerPath(s: State, steps: seq<Step>, r: Rec, r': Rec)
    requires Init(s) && IsRun(s, steps)
    requires r in Run(s, steps).infos && r' in Run(s, steps).infos
    requires Run(s, steps).infos[r].path == Run(s, steps).infos[r'].path
    ensures r == r'
  {
    InitInv(s);
    RunsAreSafe(s, steps);
    assert PathsApart(Run(s, steps), r, r');
  }

  // Executing a close frees the record exactly if it is the last claim on it: no file object open, no other
  // close queued, and none lost before.
  lemma FreedExactly(s: State, t: Thread, answer: Answer, r: Rec)
    requires Inv(s) && Enabled(s, Exec(t, answer)) && s.queues[t][0] == Close(r)
    ensures r in s.infos
    ensures r !in Apply(s, Exec(t, answer)).infos <==>
      s.infos[r].fd >= 0 && Sessions(s, r) == {} && AllCloses(s.queues, r) == 1 && Lost(s, r) == 0
  {
    assert CmdOk(s, t, 0);
    assert Accounted(s, r);
    AllClosesUpdate(s.queues, t, s.queues[t], r);
    assert Closes(s.queues[t], r) >= 1;
    assert |Sessions(s, r)| == 0 <==> Sessions(s, r) == {};
  }

  // A close that the manager drops, because it comes before the open, is never made up for: the record, and with
  // it the descriptor, stays until shutdown.
  lemma {:induction false} LostStays(s: State, steps: seq<Step>, r: Rec)
    requires Inv(s) && IsRun(s, steps) && r in s.infos && Lost(s, r) > 0
    ensures r in Run(s, steps).infos && Lost(Run(s, steps), r) > 0
    decreases |steps|
  {
    if steps != [] {
      StepInv(s, steps[0]);
      LostStep(s, steps[0], r);
      LostStays(Apply(s, steps[0]), steps[1..], r);
    }
  }

  lemma LostStep(s: State, step: Step, r: Rec)
    requires Inv(s) && Enabled(s, step) && r in s.infos && Lost(s, r) > 0
    ensures r in Apply(s, step).infos && Lost(Apply(s, step), r) > 0
  {
    hide Inv;
    if step.Exec? {
      var s0, c := s.(queues := s.queues[step.t := s.queues[step.t][1..]]), s.queues[step.t][0];
      if r !in Execute(s0, c, step.answer).infos {
        FreedExactly(s, step.t, step.answer, r);
      }
    }
  }

  ghost predicate LostInMemory(s: State) {
    forall r | Lost(s, r) > 0 :: r in s.infos
  }

  lemma LostInMemoryStep(s: State, step: Step)
    requires Inv(s) && Enabled(s, step) && LostInMemory(s)
    ensures LostInMemory(Apply(s, step))
  {
    forall r | Lost(Apply(s, step), r) > 0
      ensures r in Apply(s, step).infos
    {
      if Lost(s, r) > 0 {
        LostStep(s, step, r);
      }
    }
  }

  lemma {:induction false} LostInMemoryRun(s: State, steps: seq<Step>)
    requires Inv(s) && IsRun(s, steps) && LostInMemory(s)
    ensures LostInMemory(Run(s, steps))
    decreases |steps|
  {
    if steps != [] {
      StepInv(s, steps[0]);
      LostInMemoryStep(s, steps[0]);
      LostInMemoryRun(Apply(s, steps[0]), steps[1..]);
    }
  }

  // Nobody has a file open, and all commands have been executed.
  ghost predicate Quiescent(s: State) {
    (forall f | f in s.objs :: !s.objs[f].open) && forall t | 0 <= t < |s.queues| :: s.queues[t] == []
  }

  lemma {:induction false} NothingQueued(qs: seq<seq<Cmd>>, r: Rec)
    requires forall t | 0 <= t < |qs| :: qs[t] == []
    ensures AllCloses(qs, r) == 0
  {
    if qs != [] {
      NothingQueued(qs[1..], r);
    }
  }

  // What is left in the end is exactly what closes have been lost for: in every run after which nobody refers to any
  // record, the records in memory are those, with as many writers as lost closes.
  lemma LeftoversAreLost(s: State, steps: seq<Step>, r: Rec)
    requires Init(s) && IsRun(s, steps) && Quiescent(Run(s, steps))
    ensures var e := Run(s, steps);
      (r in e.infos <==> Lost(e, r) > 0) && (r in e.infos ==> e.infos[r].writers == Lost(e, r))
  {
    InitInv(s);
    RunsAreSafe(s, steps);
    LostInMemoryRun(s, steps);
    var e := Run(s, steps);
    if r in e.infos {
      assert Accounted(e, r);
      NothingQueued(e.queues, r);
      assert Sessions(e, r) == {};
    }
  }

  // It happens: a clone in another thread closes before the first thread's open has been executed. In the end,
  // nobody refers to the record, but it is still in memory and its descriptor is open.
  lemma LossExample() returns (s: State, steps: seq<Step>)
    ensures Init(s) && IsRun(s, steps)
    ensures var e := Run(s, steps);
      e.infos == map[7 := Info("a", 3, 1, false)] && e.queues == [[], []] && Sessions(e, 7) == {}
  {
    s := State(map[], [], map[], [[], []], map[]);
    var s1 := State(map[], [], map[0 := File(0, 0, false, false)], [[], []], map[]);
    var s2 := State(map[7 := Info("a", -1, 1, false)], [7], map[0 := File(0, 7, true, true)], [[], []], map[]);
    var s3 := State(s2.infos, [7], map[0 := File(0, 7, true, false)], [[Open(7)], []], map[]);
    var s4 := State(map[7 := Info("a", -1, 2, false)], [7], s3.objs[1 := File(1, 7, true, false)], s3.queues, map[]);
    steps := CloseTooEarly(s4);
    var none: seq<Cmd> := [];
    assert none + [Open(7)] == [Open(7)];
    steps := Before(s3, CloneObj(0, 1, 1), s4, steps);
    steps := Before(s2, OpenPush(0), s3, steps);
    steps := Before(s1, OpenLocked(0, "a", 7), s2, steps);
    steps := Before(s, NewObj(0, 0), s1, steps);
  }

  lemma CloseTooEarly(s: State) returns (steps: seq<Step>)
    requires s.infos == map[7 := Info("a", -1, 2, false)] && s.files == [7] && s.queues == [[Open(7)], []]
    requires s.objs == map[0 := File(0, 7, true, false), 1 := File(1, 7, true, false)] && s.lost == map[]
    ensures IsRun(s, steps) && Run(s, steps).infos == map[7 := Info("a", 3, 1, false)]
    ensures Run(s, steps).queues == [[], []] && Sessions(Run(s, steps), 7) == {}
  {
    var s1 := s.(objs := s.objs[1 := File(1, 7, false, false)], queues := [[Open(7)], [Close(7)]]);
    var s2 := s1.(queues := [[Open(7)], []], lost := map[7 := 1]);
    var s3 := s2.(queues := [[], []], infos := map[7 := Info("a", 3, 2, false)]);
    var s4 := s3.(queues := [[Close(7)], []], objs := s3.objs[0 := File(0, 7, false, false)]);
    var s5 := s4.(queues := [[], []], infos := map[7 := Info("a", 3, 1, false)]);
    var none: seq<Cmd> := [];
    assert none + [Close(7)] == [Close(7)] && [Open(7)][1..] == none && [Close(7)][1..] == none;
    steps := Before(s4, Exec(0, NoName), s5, []);
    steps := Before(s3, CloseObj(0), s4, steps);
    steps := Before(s2, Exec(0, Fd(3)), s3, steps);
    steps := Before(s1, Exec(1, NoName), s2, steps);
    steps := Before(s, CloseObj(1), s1, steps);
  }

  lemma Before(s: State, step: Step, s': State, rest: seq<Step>) returns (steps: seq<Step>)
    requires Enabled(s, step) && Apply(s, step) == s' && IsRun(s', rest)
    ensures steps == [step] + rest && IsRun(s, steps) && Run(s, steps) == Run(s', rest)
  {
    steps := [step] + rest;
  }

  // ----- Runs that lose nothing

  // The manager has opened the record's file, or will do so before it gets to command i of thread t.
  ghost predicate Opened(s: State, t: Thread, i: int, r: Rec) {
    && t < |s.queues|
    && r in s.infos
    && (s.infos[r].fd >= 0 || exists j :: 0 <= j < i && j < |s.queues[t]| && s.queues[t][j] == Open(r))
  }

  ghost predicate NothingLost(s: State) {
    && (forall r :: Lost(s, r) == 0)
    && (forall r | r in s.infos :: !s.infos[r].error || s.infos[r].fd >= 0)
    && (forall f :: ObjOpened(s, f))
    && (forall t, i :: CloseOpened(s, t, i))
  }

  ghost predicate ObjOpened(s: State, f: Obj) {
    f in s.objs && s.objs[f].open && !s.objs[f].pushing ==> Opened(s, s.objs[f].owner, Queued(s, s.objs[f].owner), s.objs[f].info)
  }

  ghost predicate CloseOpened(s: State, t: Thread, i: nat) {
    t < |s.queues| && i < |s.queues[t]| && s.queues[t][i].Close? ==> Opened(s, t, i, s.queues[t][i].rec)
  }

  ghost function Queued(s: State, t: Thread): nat {
    if t < |s.queues| then |s.queues[t]| else 0
  }

  // Opens succeed, and file objects are not cloned into other threads.
  ghost predicate Undisturbed(s: State, step: Step) {
    match step
    case CloneObj(src, _, t) => src in s.objs ==> s.objs[src].owner == t
    case Exec(t, answer) => t < |s.queues| && s.queues[t] != [] && s.queues[t][0].Open? ==> answer.Fd?
    case _ => true
  }

  // Without clones in other threads, and if no open fails, no close is ever lost: by FreedExactly, the last close
  // then frees the record.
  lemma {:induction false} UndisturbedRuns(s: State, steps: seq<Step>)
    requires Inv(s) && NothingLost(s) && IsRun(s, steps) && UndisturbedRun(s, steps)
    ensures NothingLost(Run(s, steps))
    decreases |steps|
  {
    if steps != [] {
      StepInv(s, steps[0]);
      if steps[0].Exec? {
        UndisturbedExec(s, steps[0].t, steps[0].answer);
      } else {
        UndisturbedStep(s, steps[0]);
      }
      UndisturbedRuns(Apply(s, steps[0]), steps[1..]);
    }
  }

  ghost predicate UndisturbedRun(s: State, steps: seq<Step>)
    decreases |steps|
  {
    steps == [] || (Undisturbed(s, steps[0]) && UndisturbedRun(Apply(s, steps[0]), steps[1..]))
  }

  lemma UndisturbedStep(s: State, step: Step)
    requires Inv(s) && NothingLost(s) && Enabled(s, step) && Undisturbed(s, step) && !step.Exec?
    ensures NothingLost(Apply(s, step))
  {
    hide ListOk, Accounted, CmdOk;
    var s' := Apply(s, step);
    forall r
      ensures Lost(s', r) == 0
    {
      assert Lost(s, r) == 0;
    }
    forall f
      ensures ObjOpened(s', f)
    {
      ObjOpenedStep(s, step, f);
    }
    forall t, i
      ensures CloseOpened(s', t, i)
    {
      CloseOpenedStep(s, step, t, i);
    }
  }

  // Whatever is opened in time stays so while queues grow and no descriptor is dropped.
  lemma OpenedGrows(s: State, s': State, t: Thread, i: nat, r: Rec)
    requires Opened(s, t, i, r) && t < |s'.queues| && s.queues[t] <= s'.queues[t]
    requires r in s'.infos && (s.infos[r].fd >= 0 ==> s'.infos[r].fd >= 0)
    ensures Opened(s', t, i, r)
  {
    if s.infos[r].fd < 0 {
      var j :| 0 <= j < i && j < |s.queues[t]| && s.queues[t][j] == Open(r);
      assert s'.queues[t][j] == Open(r);
    }
  }

  lemma ObjOpenedStep(s: State, step: Step, f: Obj)
    requires Inv(s) && NothingLost(s) && Enabled(s, step) && Undisturbed(s, step) && !step.Exec?
    ensures ObjOpened(Apply(s, step), f)
  {
    hide ListOk, Accounted, CmdOk;
    var s' := Apply(s, step);
    if f in s'.objs && s'.objs[f].open && !s'.objs[f].pushing {
      var g := if step.CloneObj? && step.dst == f then step.src else f;
      assert ObjOk(s, g) && ObjOpened(s, g);
      var t, r := s.objs[g].owner, s.objs[g].info;
      if s.objs[g].pushing {
        assert s'.queues[t][|s.queues[t]|] == Open(r);
      } else {
        OpenedGrows(s, s', t, |s.queues[t]|, r);
      }
    }
  }

  lemma CloseOpenedStep(s: State, step: Step, t: Thread, i: nat)
    requires Inv(s) && NothingLost(s) && Enabled(s, step) && Undisturbed(s, step) && !step.Exec?
    ensures CloseOpened(Apply(s, step), t, i)
  {
    hide ListOk, Accounted, CmdOk;
    var s' := Apply(s, step);
    if t < |s'.queues| && i < |s'.queues[t]| && s'.queues[t][i].Close? {
      assert CloseOpened(s, t, i);
      if i == |s.queues[t]| {
        assert step.CloseObj? && ObjOk(s, step.f) && ObjOpened(s, step.f);
      }
      OpenedGrows(s, s', t, i, s'.queues[t][i].rec);
    }
  }

  // What was going to be opened in time still is, once the manager has executed another command.
  lemma OpenedKept(s: State, t: Thread, answer: Answer, u: Thread, k: nat, r: Rec)
    requires Enabled(s, Exec(t, answer)) && Undisturbed(s, Exec(t, answer))
    requires Opened(s, u, k, r) && r in Apply(s, Exec(t, answer)).infos && s.queues[t][0].rec in s.infos
    requires s.infos[r].error ==> s.infos[r].fd >= 0
    requires u == t ==> k > 0
    ensures Opened(Apply(s, Exec(t, answer)), u, if u == t then k - 1 else k, r)
  {
    var s' := Apply(s, Exec(t, answer));
    if s.infos[r].fd < 0 {
      var j :| 0 <= j < k && j < |s.queues[u]| && s.queues[u][j] == Open(r);
      if u != t {
        assert s'.queues[u][j] == Open(r);
      } else if j > 0 {
        assert s'.queues[u][j - 1] == Open(r);
      }
    }
  }

  lemma UndisturbedExec(s: State, t: Thread, answer: Answer)
    requires Inv(s) && NothingLost(s) && Enabled(s, Exec(t, answer)) && Undisturbed(s, Exec(t, answer))
    requires Inv(Apply(s, Exec(t, answer)))
    ensures NothingLost(Apply(s, Exec(t, answer)))
  {
    hide ListOk, Accounted;
    var s', c := Apply(s, Exec(t, answer)), s.queues[t][0];
    assert CmdOk(s, t, 0) && CloseOpened(s, t, 0);
    forall r
      ensures Lost(s', r) == 0
    {
      assert Lost(s, r) == 0;
    }
    forall f
      ensures ObjOpened(s', f)
    {
      ExecObjOpened(s, t, answer, f);
    }
    forall u, i
      ensures CloseOpened(s', u, i)
    {
      ExecCloseOpened(s, t, answer, u, i);
    }
  }

  lemma ExecObjOpened(s: State, t: Thread, answer: Answer, f: Obj)
    requires Inv(s) && NothingLost(s) && Enabled(s, Exec(t, answer)) && Undisturbed(s, Exec(t, answer))
    requires Inv(Apply(s, Exec(t, answer)))
    ensures ObjOpened(Apply(s, Exec(t, answer)), f)
  {
    hide ListOk, Accounted;
    var s' := Apply(s, Exec(t, answer));
    assert CmdOk(s, t, 0);
    if f in s'.objs && s'.objs[f].open && !s'.objs[f].pushing {
      assert ObjOk(s, f) && ObjOk(s', f) && ObjOpened(s, f);
      OpenedKept(s, t, answer, s.objs[f].owner, |s.queues[s.objs[f].owner]|, s.objs[f].info);
    }
  }

  lemma ExecCloseOpened(s: State, t: Thread, answer: Answer, u: Thread, i: nat)
    requires Inv(s) && NothingLost(s) && Enabled(s, Exec(t, answer)) && Undisturbed(s, Exec(t, answer))
    requires Inv(Apply(s, Exec(t, answer)))
    ensures CloseOpened(Apply(s, Exec(t, answer)), u, i)
  {
    hide ListOk, Accounted;
    var s' := Apply(s, Exec(t, answer));
    assert CmdOk(s, t, 0);
    if u < |s'.queues| && i < |s'.queues[u]| && s'.queues[u][i].Close? {
      var k := if u == t then i + 1 else i;
      assert CmdOk(s', u, i) && s'.queues[u][i] == s.queues[u][k] && CloseOpened(s, u, k);
      OpenedKept(s, t, answer, u, k, s.queues[u][k].rec);
    }
  }
}
