/**
  The operations of libhilti/file.c on the shared state, critical section by critical section. Each one is a step
  of the protocol, so that every interleaving of them is one of its runs.
*/
module FileManager {
  import opened Sequences
  import opened Wrappers
  import opened FileProtocol

  class Shared {
    var infos: map<Rec, Info>
    var files: seq<Rec>
    var objs: map<Obj, File>
    var queues: seq<seq<Cmd>>
    ghost var lost: map<Rec, nat>

    ghost function Abs(): State
      reads this
    {
      State(infos, files, objs, queues, lost)
    }

    constructor (threads: nat)
      ensures Init(Abs()) && |queues| == threads
    {
      infos, files, objs, lost := map[], [], map[], map[];
      queues := seq(threads, i => []);
    }

    // hlt_file_new
    method NewFile(f: Obj, t: Thread)
      requires Inv(Abs()) && Enabled(Abs(), NewObj(f, t))
      modifies this
      ensures Inv(Abs()) && Abs() == Apply(old(Abs()), NewObj(f, t))
      ensures unchanged(this`infos, this`files, this`queues, this`lost)
      ensures objs == old(objs)[f := objs[f]] && objs[f].owner == t && !objs[f].open && !objs[f].pushing
    {
      StepInv(Abs(), NewObj(f, t));
      objs := objs[f := File(t, 0, false, false)];
    }

    // hlt_file_open up to releasing the lock
    method OpenFile(f: Obj, path: Path, addr: Rec) returns (ok: bool)
      requires Inv(Abs()) && Enabled(Abs(), OpenLocked(f, path, addr))
      modifies this
      ensures Inv(Abs()) && Abs() == Apply(old(Abs()), OpenLocked(f, path, addr))
      ensures (ok <==> !old(objs[f].open)) && (!ok ==> unchanged(this)) && unchanged(this`queues)
      ensures ok ==>
        var r := objs[f].info;
        && objs == old(objs)[f := File(old(objs[f].owner), r, true, true)]
        && (forall x | x in old(infos) && old(infos[x]).path == path :: r == x)
        && (r in old(infos) ==>
          && old(infos[r]).path == path && files == old(files)
          && infos == old(infos)[r := old(infos[r]).(writers := old(infos[r]).writers + 1)])
        && (r !in old(infos) ==> infos == old(infos)[r := Info(path, -1, 1, false)] && files == [r] + old(files))
    {
      StepInv(Abs(), OpenLocked(f, path, addr));
      OnePerPath(Abs(), path);
      hide Inv, Find;
      if objs[f].open {
        return false;
      }
      var known := FindRecord(path);
      match known {
        case Some(r) =>
          infos := infos[r := infos[r].(writers := infos[r].writers + 1)];
          objs := objs[f := objs[f].(info := r, open := true, pushing := true)];
        case None =>
          infos := infos[addr := Info(path, -1, 1, false)];
          files := [addr] + files;
          objs := objs[f := objs[f].(info := addr, open := true, pushing := true)];
          lost := lost - {addr};
      }
      return true;
    }

    // The search of hlt_file_open
    method FindRecord(path: Path) returns (known: Option<Rec>)
      requires forall r | r in files :: r in infos
      ensures known == Find(files, infos, path)
    {
      var i := 0;
      while i < |files|
        invariant 0 <= i <= |files|
        invariant Find(files[i..], infos, path) == Find(files, infos, path)
      {
        assert files[i..][1..] == files[i + 1..];
        var r := files[i];
        if infos[r].path == path {
          return Some(r);
        }
        i := i + 1;
      }
      return None;
    }

    method Enqueue(t: Thread, c: Cmd)
      requires t < |queues|
      modifies this`queues
      ensures Abs() == Push(old(Abs()), t, c) && queues == old(queues)[t := old(queues)[t] + [c]]
    {
      queues := queues[t := queues[t] + [c]];
    }

    // The rest of hlt_file_open
    method QueueOpen(f: Obj)
      requires Inv(Abs()) && Enabled(Abs(), OpenPush(f))
      modifies this
      ensures Inv(Abs()) && Abs() == Apply(old(Abs()), OpenPush(f))
      ensures unchanged(this`infos, this`files, this`lost) && old(objs[f]).owner < |old(queues)|
      ensures var file := old(objs[f]);
        && objs == old(objs)[f := file.(pushing := false)]
        && queues == old(queues)[file.owner := old(queues)[file.owner] + [Open(file.info)]]
    {
      StepInv(Abs(), OpenPush(f));
      assert ObjOk(Abs(), f);
      objs := objs[f := objs[f].(pushing := false)];
      Enqueue(objs[f].owner, Open(objs[f].info));
    }

    // hlt_file_clone_init
    method CloneFile(src: Obj, dst: Obj, t: Thread)
      requires Inv(Abs()) && Enabled(Abs(), CloneObj(src, dst, t))
      modifies this
      ensures Inv(Abs()) && Abs() == Apply(old(Abs()), CloneObj(src, dst, t))
      ensures unchanged(this`files, this`queues, this`lost)
      ensures var file := old(objs[src]);
        && objs == old(objs)[dst := File(t, file.info, file.open, false)]
        && (!file.open ==> infos == old(infos))
        && (file.open ==>
          && file.info in old(infos)
          && infos == old(infos)[file.info := old(infos[file.info]).(writers := old(infos[file.info]).writers + 1)])
    {
      StepInv(Abs(), CloneObj(src, dst, t));
      var file := objs[src];
      assert ObjOk(Abs(), src);
      if file.open {
        infos := infos[file.info := infos[file.info].(writers := infos[file.info].writers + 1)];
      }
      objs := objs[dst := File(t, file.info, file.open, false)];
    }

    // hlt_file_write_bytes, after the data has been put together
    method WriteFile(f: Obj, len: nat) returns (ok: bool)
      requires Inv(Abs()) && Enabled(Abs(), WriteObj(f, len))
      modifies this
      ensures Inv(Abs()) && Abs() == Apply(old(Abs()), WriteObj(f, len))
      ensures (ok <==> old(objs[f].open)) && (!ok ==> unchanged(this))
      ensures unchanged(this`infos, this`files, this`objs, this`lost) && objs[f].owner < |old(queues)|
      ensures ok ==>
        var t := objs[f].owner;
        queues == old(queues)[t := old(queues)[t] + [Write(objs[f].info, len)]]
    {
      StepInv(Abs(), WriteObj(f, len));
      assert ObjOk(Abs(), f);
      if !objs[f].open {
        return false;
      }
      Enqueue(objs[f].owner, Write(objs[f].info, len));
      return true;
    }

    // hlt_file_close
    method CloseFile(f: Obj) returns (ok: bool)
      requires Inv(Abs()) && Enabled(Abs(), CloseObj(f))
      modifies this
      ensures Inv(Abs()) && Abs() == Apply(old(Abs()), CloseObj(f))
      ensures (ok <==> old(objs[f].open)) && (!ok ==> unchanged(this))
      ensures unchanged(this`infos, this`files, this`lost) && old(objs[f]).owner < |old(queues)|
      ensures ok ==>
        var file := old(objs[f]);
        && objs == old(objs)[f := file.(open := false)]
        && queues == old(queues)[file.owner := old(queues)[file.owner] + [Close(file.info)]]
    {
      StepInv(Abs(), CloseObj(f));
      assert ObjOk(Abs(), f);
      if !objs[f].open {
        return false;
      }
      Enqueue(objs[f].owner, Close(objs[f].info));
      objs := objs[f := objs[f].(open := false)];
      return true;
    }

    // The manager takes a command off a thread's queue and executes it. Reading the record is always possible;
    // `assert(cmd->info->writers)` holds, and so does the search for the record in the list succeed.
    method ExecuteNext(t: Thread, answer: Answer)
      requires Inv(Abs()) && Enabled(Abs(), Exec(t, answer))
      modifies this
      ensures Inv(Abs()) && Abs() == Apply(old(Abs()), Exec(t, answer))
      ensures queues == old(queues)[t := old(queues)[t][1..]] && objs == old(objs)
      ensures var r := old(queues)[t][0].rec; infos - {r} == old(infos) - {r}
    {
      hide Inv, Execute;
      StepInv(Abs(), Exec(t, answer));
      InvSafe(Abs(), Exec(t, answer));
      var c := queues[t][0];
      queues := queues[t := queues[t][1..]];
      match c {
        case Open(_) => ExecuteOpen(c, answer);
        case Write(_, _) => ExecuteWrite(c, answer);
        case Close(_) => ExecuteClose(c, answer);
      }
    }

    method ExecuteOpen(c: Cmd, answer: Answer)
      requires c.Open? && c.rec in infos
      modifies this
      ensures Abs() == Execute(old(Abs()), c, answer) && unchanged(this`files, this`objs, this`queues, this`lost)
      ensures var info := old(infos[c.rec]); infos == old(infos)[c.rec :=
        if info.error || info.fd >= 0 then info
        else match answer
          case Fd(fd) => info.(fd := fd)
          case Failed => info.(error := true)
          case NoName => info]
    {
      var r, info := c.rec, infos[c.rec];
      if info.error {
        return;
      }
      if info.fd < 0 {
        if answer.NoName? {
          return;
        }
        if answer.Failed? {
          infos := infos[r := info.(error := true)];
          return;
        }
        infos := infos[r := info.(fd := answer.fd)];
      }
    }

    method ExecuteWrite(c: Cmd, answer: Answer)
      requires c.Write? && c.rec in infos
      modifies this
      ensures Abs() == Execute(old(Abs()), c, answer) && unchanged(this`files, this`objs, this`queues, this`lost)
      ensures var info := old(infos[c.rec]); infos == old(infos)[c.rec :=
        info.(error := info.error || (info.fd >= 0 && c.len > 0 && !answer.Fd?))]
    {
      var r, info := c.rec, infos[c.rec];
      if info.fd < 0 {
        return;
      }
      if info.error {
        return;
      }
      if c.len > 0 {
        if !answer.Fd? {
          infos := infos[r := info.(error := true)];
        }
      }
    }

    method ExecuteClose(c: Cmd, answer: Answer)
      requires c.Close? && c.rec in infos
      requires infos[c.rec].fd >= 0 ==> infos[c.rec].writers > 0 && c.rec in files
      modifies this
      ensures Abs() == Execute(old(Abs()), c, answer) && unchanged(this`objs, this`queues)
      ensures var info := old(infos[c.rec]);
        if info.fd < 0 then
          infos == old(infos) && files == old(files) && Lost(Abs(), c.rec) == Lost(old(Abs()), c.rec) + 1
        else if info.writers > 1 then
          infos == old(infos)[c.rec := info.(writers := info.writers - 1)] && files == old(files) && lost == old(lost)
        else
          infos == old(infos) - {c.rec} && Cut(old(files), files, c.rec) && lost == old(lost)
    {
      var r, info := c.rec, infos[c.rec];
      if info.fd < 0 {
        lost := lost[r := Lost(Abs(), r) + 1];
        return;
      }
      assert info.writers > 0;
      if info.writers - 1 == 0 {
        DeleteRecord(r);
      } else {
        infos := infos[r := info.(writers := info.writers - 1)];
      }
    }

    method DeleteRecord(r: Rec)
      requires r in files
      modifies this`files, this`infos
      ensures Abs() == Delete(old(Abs()), r)
      ensures infos == old(infos) - {r} && Cut(old(files), files, r)
    {
      var i := 0;
      while files[i] != r
        invariant 0 <= i < |files| && r in files[i..] && r !in files[..i]
        decreases |files| - i
      {
        i := i + 1;
      }
      WithoutAt(files, r, i);
      files := files[..i] + files[i + 1..];
      infos := infos - {r};
    }
  }

  lemma OnePerPath(s: State, path: Path)
    requires Inv(s)
    ensures forall r | r in s.files :: r in s.infos
    ensures match Find(s.files, s.infos, path)
      case Some(r) =>
        r in s.infos && s.infos[r].path == path && forall x | x in s.infos && s.infos[x].path == path :: x == r
      case None => forall x | x in s.infos :: s.infos[x].path != path
  {
    forall x, r | x in s.infos && r in s.infos && s.infos[x].path == s.infos[r].path
      ensures x == r
    {
      assert PathsApart(s, r, x);
    }
  }

  // The list without its first entry of r.
  ghost predicate Cut(l: seq<Rec>, l': seq<Rec>, r: Rec) {
    exists i: nat | i < |l| :: l[i] == r && r !in l[..i] && l' == l[..i] + l[i + 1..]
  }

  lemma {:induction false} WithoutAt(l: seq<Rec>, r: Rec, i: nat)
    requires i < |l| && l[i] == r && r !in l[..i]
    ensures Without(l, r) == l[..i] + l[i + 1..]
  {
    if i > 0 {
      assert l[1..][..i - 1] == l[1..i];
      WithoutAt(l[1..], r, i - 1);
      assert l[..i] == [l[0]] + l[1..i] && l[1..][i..] == l[i + 1..];
    }
  }
}
