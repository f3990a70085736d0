/**
  The data flow of blocks (hilti/statement.cc): which variables a block defines, clears, modifies and reads, put
  together from what its statements do, and what the summary is good for.
*/
module Flow {
  import opened Wrappers

  // Variables are compared by name (hilti/flow-info.h).
  type Var = string
  type Value = int
  type Store = Var -> Value

  datatype FlowInfo = FlowInfo(defined: set<Var>, cleared: set<Var>, modified: set<Var>, read: set<Var>)

  const NOTHING := FlowInfo({}, {}, {}, {})

  // An instruction: what it does is left to `op`; its own flow information is given. Or a block; `id` is its address.
  datatype Stmt =
    | Instr(op: nat, nop: bool, terminator: bool, info: FlowInfo)
    | Block(id: nat, stmts: seq<Stmt>)

  // What the instructions do to the variables
  type Semantics = (nat, Store) -> Store

  // ----- Summaries

  // One round of the loop in Block::flowInfo
  function Then(f: FlowInfo, g: FlowInfo): FlowInfo {
    var killed := f.defined + f.cleared;
    FlowInfo(f.defined + g.defined, f.cleared + g.cleared, f.modified + (g.modified - killed), f.read + (g.read - killed))
  }

  function InfoOf(s: Stmt): FlowInfo {
    match s
    case Instr(_, _, _, info) => info
    case Block(_, stmts) => InfoOfAll(stmts)
  }

  function InfoOfAll(stmts: seq<Stmt>): FlowInfo {
    if stmts == [] then NOTHING else Then(InfoOf(stmts[0]), InfoOfAll(stmts[1..]))
  }

  lemma ThenAssociative(f: FlowInfo, g: FlowInfo, h: FlowInfo)
    ensures Then(Then(f, g), h) == Then(f, Then(g, h))
    ensures Then(NOTHING, f) == f && Then(f, NOTHING) == f
  {
  }

  lemma {:induction false} InfoOfJoined(a: seq<Stmt>, b: seq<Stmt>)
    ensures InfoOfAll(a + b) == Then(InfoOfAll(a), InfoOfAll(b))
  {
    if a == [] {
      assert a + b == b;
      ThenAssociative(InfoOfAll(b), NOTHING, NOTHING);
    } else {
      assert (a + b)[1..] == a[1..] + b;
      InfoOfJoined(a[1..], b);
      ThenAssociative(InfoOf(a[0]), InfoOfAll(a[1..]), InfoOfAll(b));
    }
  }

  // ----- Nesting does not matter

  // All instructions, in order
  function Flat(s: Stmt): seq<Stmt> {
    match s
    case Instr(_, _, _, _) => [s]
    case Block(_, stmts) => FlatAll(stmts)
  }

  function FlatAll(stmts: seq<Stmt>): seq<Stmt> {
    if stmts == [] then [] else Flat(stmts[0]) + FlatAll(stmts[1..])
  }

  // Nested blocks have the same summary as their instructions one after the other.
  lemma {:induction false} NestingIsInlining(stmts: seq<Stmt>)
    ensures InfoOfAll(FlatAll(stmts)) == InfoOfAll(stmts)
    decreases stmts
  {
    if stmts != [] {
      NestingIsInlining(stmts[1..]);
      InfoOfJoined(Flat(stmts[0]), FlatAll(stmts[1..]));
      match stmts[0]
      case Instr(_, _, _, info) =>
        assert Flat(stmts[0])[1..] == [];
        ThenAssociative(info, NOTHING, NOTHING);
      case Block(_, inner) => NestingIsInlining(inner);
    }
  }

  // ----- What is in a summary, and what is not

  ghost predicate Instrs(fl: seq<Stmt>) {
    forall i | 0 <= i < |fl| :: fl[i].Instr?
  }

  // A variable gets its value from before the i-th instruction: none before it defines or clears it.
  ghost predicate Open(fl: seq<Stmt>, i: nat, v: Var)
    requires i <= |fl| && Instrs(fl)
  {
    forall j | 0 <= j < i :: v !in fl[j].info.defined + fl[j].info.cleared
  }

  ghost predicate Defined(fl: seq<Stmt>, v: Var)
    requires Instrs(fl)
  {
    exists i | 0 <= i < |fl| :: v in fl[i].info.defined
  }

  ghost predicate Cleared(fl: seq<Stmt>, v: Var)
    requires Instrs(fl)
  {
    exists i | 0 <= i < |fl| :: v in fl[i].info.cleared
  }

  ghost predicate Modified(fl: seq<Stmt>, v: Var)
    requires Instrs(fl)
  {
    exists i | 0 <= i < |fl| :: v in fl[i].info.modified && Open(fl, i, v)
  }

  ghost predicate Read(fl: seq<Stmt>, v: Var)
    requires Instrs(fl)
  {
    exists i | 0 <= i < |fl| :: v in fl[i].info.read && Open(fl, i, v)
  }

  // The summary has exactly the variables that some instruction defines or clears, and those that some instruction
  // modifies or reads before any other has defined or cleared them.
  ghost predicate Exact(f: FlowInfo, fl: seq<Stmt>)
    requires Instrs(fl)
  {
    && (forall v :: v in f.defined <==> Defined(fl, v))
    && (forall v :: v in f.cleared <==> Cleared(fl, v))
    && (forall v :: v in f.modified <==> Modified(fl, v))
    && (forall v :: v in f.read <==> Read(fl, v))
  }

  lemma {:induction false} FlatInstrs(stmts: seq<Stmt>)
    ensures Instrs(FlatAll(stmts))
    decreases stmts
  {
    if stmts != [] {
      FlatInstrs(stmts[1..]);
      if stmts[0].Block? {
        FlatInstrs(stmts[0].stmts);
      }
    }
  }

  lemma {:induction false} InfoIsExact(fl: seq<Stmt>)
    requires Instrs(fl)
    ensures Exact(InfoOfAll(fl), fl)
  {
    if fl != [] {
      InfoIsExact(fl[1..]);
      forall v
        ensures v in InfoOfAll(fl).defined <==> Defined(fl, v)
        ensures v in InfoOfAll(fl).cleared <==> Cleared(fl, v)
        ensures v in InfoOfAll(fl).modified <==> Modified(fl, v)
        ensures v in InfoOfAll(fl).read <==> Read(fl, v)
      {
        OneMore(fl, v);
      }
    }
  }

  lemma OneMore(fl: seq<Stmt>, v: Var)
    requires Instrs(fl) && fl != []
    ensures var info, rest := fl[0].info, fl[1..];
      && (Defined(fl, v) <==> v in info.defined || Defined(rest, v))
      && (Cleared(fl, v) <==> v in info.cleared || Cleared(rest, v))
      && (Modified(fl, v) <==> v in info.modified || (v !in info.defined + info.cleared && Modified(rest, v)))
      && (Read(fl, v) <==> v in info.read || (v !in info.defined + info.cleared && Read(rest, v)))
  {
  }

  // Block::flowInfo
  method FlowInfoOf(stmts: seq<Stmt>) returns (fi: FlowInfo)
    ensures fi == InfoOfAll(stmts)
    ensures Instrs(FlatAll(stmts)) && Exact(fi, FlatAll(stmts))
    decreases stmts
  {
    fi := NOTHING;
    var i := 0;
    while i < |stmts|
      invariant 0 <= i <= |stmts| && fi == InfoOfAll(stmts[..i])
    {
      var sfi;
      match stmts[i] {
        case Instr(_, _, _, info) => sfi := info;
        case Block(_, inner) => sfi := FlowInfoOf(inner);
      }
      var killed := fi.defined + fi.cleared;
      var modified := sfi.modified - killed;
      var read := sfi.read - killed;
      InfoOfJoined(stmts[..i], [stmts[i]]);
      ThenAssociative(InfoOf(stmts[i]), NOTHING, NOTHING);
      assert [stmts[i]][1..] == [];
      assert stmts[..i + 1] == stmts[..i] + [stmts[i]];
      fi := FlowInfo(fi.defined + sfi.defined, fi.cleared + sfi.cleared, fi.modified + modified, fi.read + read);
      i := i + 1;
    }
    assert stmts[..i] == stmts;
    NestingIsInlining(stmts);
    FlatInstrs(stmts);
    InfoIsExact(FlatAll(stmts));
  }

  // ----- What a summary says about running the statements

  ghost predicate Agree(s: Store, t: Store, vars: set<Var>) {
    forall v | v in vars :: s(v) == t(v)
  }

  ghost predicate Same(s: Store, t: Store) {
    forall v :: s(v) == t(v)
  }

  function Touched(f: FlowInfo): set<Var> {
    f.defined + f.cleared + f.modified
  }

  // Nothing else changes,
  ghost predicate Kept(f: FlowInfo, s: Store, s': Store) {
    forall v | v !in Touched(f) :: s'(v) == s(v)
  }

  // and what changes depends on nothing else than what is read or modified.
  ghost predicate Determined(f: FlowInfo, s: Store, t: Store, s': Store, t': Store) {
    Agree(s, t, f.read + f.modified) ==> Agree(s', t', Touched(f))
  }

  // Straight-line execution
  function Run(sem: Semantics, s: Stmt, st: Store): Store
    decreases s
  {
    match s
    case Instr(op, _, _, _) => sem(op, st)
    case Block(_, stmts) => RunAll(sem, stmts, st)
  }

  function RunAll(sem: Semantics, stmts: seq<Stmt>, st: Store): Store
    decreases stmts
  {
    if stmts == [] then st else RunAll(sem, stmts[1..], Run(sem, stmts[0], st))
  }

  // Nested blocks do what their instructions do one after the other.
  lemma {:induction false} InliningRuns(sem: Semantics, stmts: seq<Stmt>, st: Store)
    ensures RunAll(sem, FlatAll(stmts), st) == RunAll(sem, stmts, st)
    decreases stmts
  {
    if stmts != [] {
      var s := stmts[0];
      RunJoined(sem, Flat(s), FlatAll(stmts[1..]), st);
      InliningRuns(sem, stmts[1..], Run(sem, s, st));
      if s.Block? {
        InliningRuns(sem, s.stmts, st);
      } else {
        assert RunAll(sem, [s], st) == Run(sem, s, st);
      }
    }
  }

  lemma {:induction false} RunJoined(sem: Semantics, a: seq<Stmt>, b: seq<Stmt>, st: Store)
    ensures RunAll(sem, a + b, st) == RunAll(sem, b, RunAll(sem, a, st))
  {
    if a == [] {
      assert a + b == b;
    } else {
      assert (a + b)[1..] == a[1..] + b;
      RunJoined(sem, a[1..], b, Run(sem, a[0], st));
    }
  }

  ghost predicate OpSound(sem: Semantics, op: nat, f: FlowInfo) {
    && (forall s: Store :: Kept(f, s, sem(op, s)))
    && (forall s: Store, t: Store :: Determined(f, s, t, sem(op, s), sem(op, t)))
  }

  // The summaries of all instructions are right.
  ghost predicate Right(sem: Semantics, s: Stmt) {
    match s
    case Instr(op, _, _, info) => OpSound(sem, op, info)
    case Block(_, stmts) => AllRight(sem, stmts)
  }

  ghost predicate AllRight(sem: Semantics, stmts: seq<Stmt>) {
    stmts == [] || (Right(sem, stmts[0]) && AllRight(sem, stmts[1..]))
  }

  // Two summaries that are right give one that is right.
  lemma ThenIsRight(f: FlowInfo, g: FlowInfo, s: Store, t: Store, s1: Store, t1: Store, s2: Store, t2: Store)
    requires Kept(f, s, s1) && Kept(f, t, t1) && Determined(f, s, t, s1, t1)
    requires Kept(g, s1, s2) && Kept(g, t1, t2) && Determined(g, s1, t1, s2, t2)
    ensures Kept(Then(f, g), s, s2) && Determined(Then(f, g), s, t, s2, t2)
  {
  }

  // A block's summary is right if those of its instructions are: two stores that agree on what it reads or
  // modifies lead to stores that agree on all it touches, and everything else stays the same.
  lemma {:induction false} BlockInfoIsRight(sem: Semantics, stmts: seq<Stmt>, s: Store, t: Store)
    requires AllRight(sem, stmts)
    ensures Kept(InfoOfAll(stmts), s, RunAll(sem, stmts, s))
    ensures Determined(InfoOfAll(stmts), s, t, RunAll(sem, stmts, s), RunAll(sem, stmts, t))
    decreases stmts
  {
    if stmts != [] {
      var s1, t1 := Run(sem, stmts[0], s), Run(sem, stmts[0], t);
      StmtInfoIsRight(sem, stmts[0], s, t);
      StmtInfoIsRight(sem, stmts[0], t, s);
      BlockInfoIsRight(sem, stmts[1..], s1, t1);
      BlockInfoIsRight(sem, stmts[1..], t1, s1);
      ThenIsRight(InfoOf(stmts[0]), InfoOfAll(stmts[1..]), s, t, s1, t1,
        RunAll(sem, stmts[1..], s1), RunAll(sem, stmts[1..], t1));
    }
  }

  lemma {:induction false} StmtInfoIsRight(sem: Semantics, x: Stmt, s: Store, t: Store)
    requires Right(sem, x)
    ensures Kept(InfoOf(x), s, Run(sem, x, s))
    ensures Determined(InfoOf(x), s, t, Run(sem, x, s), Run(sem, x, t))
    decreases x
  {
    if x.Block? {
      BlockInfoIsRight(sem, x.stmts, s, t);
    }
  }

  // What liveness relies on: a variable that a block overwrites, and neither reads nor modifies, is dead before it.
  // Whatever value it has there, the stores afterwards are the same.
  lemma DeadBefore(sem: Semantics, stmts: seq<Stmt>, s: Store, t: Store, v: Var)
    requires AllRight(sem, stmts) && forall w | w != v :: s(w) == t(w)
    requires var f := InfoOfAll(stmts); v !in f.read + f.modified && v in f.defined + f.cleared
    ensures Same(RunAll(sem, stmts, s), RunAll(sem, stmts, t))
  {
    var f := InfoOfAll(stmts);
    BlockInfoIsRight(sem, stmts, s, t);
    BlockInfoIsRight(sem, stmts, t, s);
    assert Agree(s, t, f.read + f.modified);
    forall w
      ensures RunAll(sem, stmts, s)(w) == RunAll(sem, stmts, t)(w)
    {
      if w !in Touched(f) {
        assert w != v;
      }
    }
  }

  // ----- Removing what is useless

  // Execution that ends with the first terminator, and says whether there was one
  function Exec(sem: Semantics, stmts: seq<Stmt>, st: Store): (Store, bool)
    decreases stmts
  {
    if stmts == [] then (st, false)
    else
      match stmts[0]
      case Instr(op, _, terminator, _) =>
        if terminator then (sem(op, st), true) else Exec(sem, stmts[1..], sem(op, st))
      case Block(_, inner) =>
        var (st1, over) := Exec(sem, inner, st);
        if over then (st1, true) else Exec(sem, stmts[1..], st1)
  }

  function Useful(stmts: seq<Stmt>): seq<Stmt> {
    if stmts == [] then []
    else if stmts[0].Instr? && stmts[0].nop then Useful(stmts[1..])
    else if stmts[0].Instr? && stmts[0].terminator then [stmts[0]]
    else [stmts[0]] + Useful(stmts[1..])
  }

  // Block::removeUseless
  method RemoveUseless(stmts: seq<Stmt>) returns (nstmts: seq<Stmt>)
    ensures nstmts == Useful(stmts)
  {
    nstmts := [];
    var i := 0;
    while i < |stmts|
      invariant 0 <= i <= |stmts| && Useful(stmts) == nstmts + Useful(stmts[i..])
    {
      var s := stmts[i];
      assert stmts[i..][1..] == stmts[i + 1..];
      i := i + 1;
      if s.Instr? && s.nop {
        continue;
      }
      nstmts := nstmts + [s];
      if s.Instr? && s.terminator {
        break;
      }
    }
  }

  ghost predicate NopDoesNothing(sem: Semantics, s: Stmt) {
    s.Instr? && s.nop ==> !s.terminator && forall st: Store :: sem(s.op, st) == st
  }

  ghost predicate NopsDoNothing(sem: Semantics, stmts: seq<Stmt>) {
    forall s | s in stmts :: NopDoesNothing(sem, s)
  }

  // The block does what it did before, and what is left is of use: no nops, and nothing after a terminator.
  lemma {:induction false} UselessIsUseless(sem: Semantics, stmts: seq<Stmt>, st: Store)
    requires NopsDoNothing(sem, stmts)
    ensures Exec(sem, Useful(stmts), st) == Exec(sem, stmts, st)
    decreases stmts
  {
    if stmts != [] {
      var s := stmts[0];
      assert NopDoesNothing(sem, s) && forall x | x in stmts[1..] :: x in stmts;
      if s.Instr? && s.nop {
        UselessIsUseless(sem, stmts[1..], st);
      } else if s.Instr? && !s.terminator {
        UselessIsUseless(sem, stmts[1..], sem(s.op, st));
        assert Useful(stmts)[1..] == Useful(stmts[1..]);
      } else if s.Block? {
        UselessIsUseless(sem, stmts[1..], Exec(sem, s.stmts, st).0);
        assert Useful(stmts)[1..] == Useful(stmts[1..]);
      }
    }
  }

  lemma {:induction false} NothingUselessLeft(stmts: seq<Stmt>)
    ensures var r := Useful(stmts);
      && (forall i | 0 <= i < |r| && r[i].Instr? :: !r[i].nop && (r[i].terminator ==> i == |r| - 1))
      && (forall x | x in r :: x in stmts)
      && Useful(r) == r
  {
    if stmts != [] {
      NothingUselessLeft(stmts[1..]);
      var r := Useful(stmts[1..]);
      if !(stmts[0].Instr? && (stmts[0].nop || stmts[0].terminator)) {
        assert ([stmts[0]] + r)[1..] == r;
      } else if !stmts[0].nop {
        assert [stmts[0]][1..] == [];
      }
    }
  }

  // ----- The end and the beginning of a block

  // Block::terminated
  predicate Terminated(stmts: seq<Stmt>) {
    if stmts == [] then false
    else
      match stmts[|stmts| - 1]
      case Block(_, inner) => Terminated(inner)
      case Instr(_, _, terminator, _) => terminator
  }

  // Following the last statements down does not lead to an empty block.
  predicate EndsInInstr(stmts: seq<Stmt>) {
    stmts != [] && match stmts[|stmts| - 1] case Block(_, inner) => EndsInInstr(inner) case Instr(_, _, _, _) => true
  }

  lemma {:induction false} FlatJoined(a: seq<Stmt>, b: seq<Stmt>)
    ensures FlatAll(a + b) == FlatAll(a) + FlatAll(b)
  {
    if a == [] {
      assert a + b == b;
    } else {
      assert (a + b)[1..] == a[1..] + b;
      FlatJoined(a[1..], b);
    }
  }

  lemma FlatLast(stmts: seq<Stmt>)
    requires stmts != []
    ensures FlatAll(stmts) == FlatAll(stmts[..|stmts| - 1]) + Flat(stmts[|stmts| - 1])
  {
    var last := [stmts[|stmts| - 1]];
    assert stmts == stmts[..|stmts| - 1] + last;
    FlatJoined(stmts[..|stmts| - 1], last);
    assert last[1..] == [] && FlatAll(last) == Flat(last[0]) + FlatAll(last[1..]);
  }

  // A block is terminated exactly if its last instruction is a terminator and no empty block comes after it.
  lemma {:induction false} TerminatedIff(stmts: seq<Stmt>)
    ensures Terminated(stmts) <==>
      var f := FlatAll(stmts); EndsInInstr(stmts) && f != [] && f[|f| - 1].Instr? && f[|f| - 1].terminator
    ensures EndsInInstr(stmts) ==> FlatAll(stmts) != []
    decreases stmts
  {
    if stmts != [] {
      FlatLast(stmts);
      if stmts[|stmts| - 1].Block? {
        TerminatedIff(stmts[|stmts| - 1].stmts);
      }
    }
  }

  // Block::_firstNonBlock, with the addresses of the blocks already looked into
  function FirstNonBlock(stmts: seq<Stmt>, done: set<nat>): (Option<Stmt>, set<nat>)
    decreases stmts
  {
    if stmts == [] then (None, done)
    else
      match stmts[0]
      case Instr(_, _, _, _) => (Some(stmts[0]), done)
      case Block(id, inner) =>
        if id in done then FirstNonBlock(stmts[1..], done)
        else
          var (first, done1) := FirstNonBlock(inner, done + {id});
          if first.Some? then (first, done1) else FirstNonBlock(stmts[1..], done1)
  }

  // The same, with the loop of the source
  method FirstNonBlockOf(stmts: seq<Stmt>, done: set<nat>) returns (first: Option<Stmt>, done': set<nat>)
    ensures (first, done') == FirstNonBlock(stmts, done)
    decreases stmts
  {
    done' := done;
    var i := 0;
    while i < |stmts|
      invariant 0 <= i <= |stmts| && FirstNonBlock(stmts, done) == FirstNonBlock(stmts[i..], done')
    {
      assert stmts[i..][1..] == stmts[i + 1..];
      match stmts[i] {
        case Instr(_, _, _, _) =>
          return Some(stmts[i]), done';
        case Block(id, inner) =>
          if id !in done' {
            first, done' := FirstNonBlockOf(inner, done' + {id});
            if first.Some? {
              return;
            }
          }
      }
      i := i + 1;
    }
    return None, done';
  }

  // Every address stands for one block.
  ghost predicate OneEach(s: Stmt, blocks: map<nat, seq<Stmt>>) {
    match s
    case Instr(_, _, _, _) => true
    case Block(id, stmts) => id in blocks && blocks[id] == stmts && AllOneEach(stmts, blocks)
  }

  ghost predicate AllOneEach(stmts: seq<Stmt>, blocks: map<nat, seq<Stmt>>) {
    stmts == [] || (OneEach(stmts[0], blocks) && AllOneEach(stmts[1..], blocks))
  }

  ghost function Size(s: Stmt): nat {
    match s
    case Instr(_, _, _, _) => 1
    case Block(_, stmts) => 1 + SizeAll(stmts)
  }

  ghost function SizeAll(stmts: seq<Stmt>): nat {
    if stmts == [] then 0 else Size(stmts[0]) + SizeAll(stmts[1..])
  }

  ghost predicate Empty(blocks: map<nat, seq<Stmt>>, id: nat) {
    id in blocks && FlatAll(blocks[id]) == []
  }

  // The blocks looked into have no instruction, or are too large to occur again: the search is inside of them.
  ghost predicate Known(blocks: map<nat, seq<Stmt>>, done: set<nat>, bound: nat) {
    forall id | id in done :: Empty(blocks, id) || (id in blocks && SizeAll(blocks[id]) >= bound)
  }

  lemma {:induction false} FirstIs(stmts: seq<Stmt>, done: set<nat>, blocks: map<nat, seq<Stmt>>, bound: nat)
    requires AllOneEach(stmts, blocks) && SizeAll(stmts) <= bound && Known(blocks, done, bound)
    ensures var (first, done') := FirstNonBlock(stmts, done);
      && first == (if FlatAll(stmts) == [] then None else Some(FlatAll(stmts)[0]))
      && done <= done'
      && (first.None? ==> forall id | id in done' - done :: Empty(blocks, id))
    decreases stmts
  {
    if stmts != [] && stmts[0].Block? {
      var id, inner := stmts[0].id, stmts[0].stmts;
      if id in done {
        FirstIs(stmts[1..], done, blocks, bound);
      } else {
        FirstIs(inner, done + {id}, blocks, SizeAll(inner));
        var (first, done1) := FirstNonBlock(inner, done + {id});
        if first.None? {
          FirstIs(stmts[1..], done1, blocks, bound);
        }
      }
    }
  }

  // Block::firstNonBlock finds the first instruction, however deep it is.
  lemma FirstNonBlockIs(block: Stmt, blocks: map<nat, seq<Stmt>>)
    requires block.Block? && OneEach(block, blocks)
    ensures FirstNonBlock(block.stmts, {}).0 == if Flat(block) == [] then None else Some(Flat(block)[0])
  {
    FirstIs(block.stmts, {}, blocks, SizeAll(block.stmts));
  }
}
