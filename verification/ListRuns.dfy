/**
  Runs of edits on a list (libhilti/list.c). What iterators rely on is proved of sequences of nodes first, and then of
  a method that performs any edits on a list.
*/
module ListRuns {
  import opened Sequences
  import opened Wrappers
  import opened List

  // ----- Sequences of nodes

  datatype Edit = Put(k: nat, n: Node) | Take(k: nat)

  // A list and all the nodes it has had
  datatype History = History(nodes: seq<Node>, ever: set<Node>)

  // A node put in is new; it may be put anywhere.
  ghost predicate Possible(h: History, e: Edit) {
    match e
    case Put(k, n) => k <= |h.nodes| && n !in h.ever
    case Take(k) => k < |h.nodes|
  }

  ghost function Edited(h: History, e: Edit): History {
    match e
    case Put(k, n) => if k <= |h.nodes| then History(Inserted(h.nodes, k, n), h.ever + {n}) else h
    case Take(k) => if k < |h.nodes| then h.(nodes := Dropped(h.nodes, k)) else h
  }

  ghost predicate PossibleRun(h: History, es: seq<Edit>)
    decreases |es|
  {
    es == [] || (Possible(h, es[0]) && PossibleRun(Edited(h, es[0]), es[1..]))
  }

  ghost function Run(h: History, es: seq<Edit>): History
    decreases |es|
  {
    if es == [] then h else Run(Edited(h, es[0]), es[1..])
  }

  ghost predicate Precedes(nodes: seq<Node>, a: Node, b: Node) {
    exists i, j :: 0 <= i < j < |nodes| && nodes[i] == a && nodes[j] == b
  }

  ghost predicate Consistent(h: History) {
    Distinct(h.nodes) && forall n | n in h.nodes :: n in h.ever
  }

  lemma EditKeepsOrder(h: History, e: Edit, a: Node, b: Node)
    requires Consistent(h) && Possible(h, e)
    ensures Consistent(Edited(h, e))
    ensures a in h.ever && a !in h.nodes ==> a !in Edited(h, e).nodes && a in Edited(h, e).ever
    ensures Precedes(h.nodes, a, b) && a in Edited(h, e).nodes && b in Edited(h, e).nodes ==>
      Precedes(Edited(h, e).nodes, a, b)
  {
    match e
    case Put(k, n) =>
      InsertedAt(h.nodes, k, n);
      PutKeepsOrder(h.nodes, k, n, a, b);
    case Take(k) =>
      DroppedAt(h.nodes, k);
      TakeKeepsOrder(h.nodes, k, a, b);
  }

  lemma PutKeepsOrder(nodes: seq<Node>, k: nat, n: Node, a: Node, b: Node)
    requires k <= |nodes|
    ensures Precedes(nodes, a, b) ==> Precedes(Inserted(nodes, k, n), a, b)
  {
    InsertedAt(nodes, k, n);
    hide Inserted;
    if Precedes(nodes, a, b) {
      var i, j :| 0 <= i < j < |nodes| && nodes[i] == a && nodes[j] == b;
      var s := Inserted(nodes, k, n);
      assert s[if i < k then i else i + 1] == a && s[if j < k then j else j + 1] == b;
    }
  }

  lemma TakeKeepsOrder(nodes: seq<Node>, k: nat, a: Node, b: Node)
    requires k < |nodes| && Distinct(nodes)
    ensures Precedes(nodes, a, b) && a in Dropped(nodes, k) && b in Dropped(nodes, k) ==>
      Precedes(Dropped(nodes, k), a, b)
  {
  }

  lemma {:induction false} GoneStaysGone(h: History, es: seq<Edit>, a: Node)
    requires Consistent(h) && PossibleRun(h, es) && a in h.ever && a !in h.nodes
    ensures a !in Run(h, es).nodes
    decreases |es|
  {
    if es != [] {
      EditKeepsOrder(h, es[0], a, a);
      GoneStaysGone(Edited(h, es[0]), es[1..], a);
    }
  }

  // Whatever edits there are: two nodes still in the list keep their order, so that an iterator denotes the same
  // element, between the same others, until its node is unlinked; and an unlinked node never comes back.
  lemma {:induction false} RunKeepsOrder(h: History, es: seq<Edit>, a: Node, b: Node)
    requires Consistent(h) && PossibleRun(h, es) && Precedes(h.nodes, a, b)
    requires a in Run(h, es).nodes && b in Run(h, es).nodes
    ensures Precedes(Run(h, es).nodes, a, b)
    decreases |es|
  {
    if es != [] {
      var h1 := Edited(h, es[0]);
      EditKeepsOrder(h, es[0], a, b);
      if a !in h1.nodes {
        EverGrows(h, es[0], a);
        GoneStaysGone(h1, es[1..], a);
      } else if b !in h1.nodes {
        EverGrows(h, es[0], b);
        GoneStaysGone(h1, es[1..], b);
      } else {
        RunKeepsOrder(h1, es[1..], a, b);
      }
    }
  }

  lemma EverGrows(h: History, e: Edit, a: Node)
    requires Consistent(h) && a in h.nodes
    ensures a in Edited(h, e).ever
  {
  }

  lemma {:induction false} RunJoin(h: History, a: seq<Edit>, b: seq<Edit>)
    requires PossibleRun(h, a) && PossibleRun(Run(h, a), b)
    ensures PossibleRun(h, a + b) && Run(h, a + b) == Run(Run(h, a), b)
    decreases |a|
  {
    if a == [] {
      assert a + b == b;
    } else {
      assert (a + b)[1..] == a[1..] + b;
      RunJoin(Edited(h, a[0]), a[1..], b);
    }
  }

  // ----- Edits of a list

  // Positions beyond the end are the end. ExpireAt is what the timer manager does, if there is a timer at k; and
  // Wait lets its time advance.
  datatype Op =
    | PushFront(val: Elem)
    | PushBack(val: Elem)
    | PopFront
    | PopBack
    | InsertAt(k: nat, val: Elem)
    | EraseAt(k: nat)
    | ExpireAt(k: nat)
    | Front
    | Back
    | DerefAt(k: nat)
    | Wait(d: nat)

  // An element of the list, and when its timer is due, if it has one
  datatype Cell = Cell(val: Elem, due: Option<nat>)

  ghost function CellsOf(nodes: seq<Node>, timers: map<Node, nat>): (cells: seq<Cell>)
    ensures |cells| == |nodes| && forall i | 0 <= i < |cells| :: cells[i] == CellOf(nodes[i], timers)
  {
    seq(|nodes|, i requires 0 <= i < |nodes| => CellOf(nodes[i], timers))
  }

  ghost function CellOf(n: Node, timers: map<Node, nat>): Cell {
    Cell(n.data, if n in timers then Some(timers[n]) else None)
  }

  // What a user knows of a list: its elements, and what time it is
  datatype Face = Face(cells: seq<Cell>, now: nat)

  ghost function FaceOf(l: List): Face
    reads l, l.Manager()
  {
    Face(CellsOf(l.nodes, l.Timers()), l.Now())
  }

  // What stays: whether there is a timer manager, after which time elements expire (never, if 0), and whether an access
  // starts that time again
  datatype Rules = Rules(managed: bool, timeout: nat, access: bool)

  ghost function RulesOf(l: List): Rules
    reads l
  {
    Rules(l.tmgr != null, l.timeout, l.strategy == Access)
  }

  function Min(a: nat, b: nat): nat {
    if a <= b then a else b
  }

  function Fresh(val: Elem, rules: Rules, now: nat): Cell {
    Cell(val, if rules.managed && rules.timeout != 0 then Some(now + rules.timeout) else None)
  }

  // What an access to element k does
  function Accessed(s: seq<Cell>, k: nat, rules: Rules, now: nat): seq<Cell> {
    if k < |s| && rules.managed && rules.access && rules.timeout != 0 && s[k].due.Some?
      then s[k := s[k].(due := Some(now + rules.timeout))]
      else s
  }

  // What an edit does to the elements
  function CellsAfter(op: Op, rules: Rules, f: Face): seq<Cell> {
    var s := f.cells;
    match op
    case PushFront(val) => [Fresh(val, rules, f.now)] + s
    case PushBack(val) => s + [Fresh(val, rules, f.now)]
    case PopFront => if s == [] then s else s[1..]
    case PopBack => if s == [] then s else s[..|s| - 1]
    case InsertAt(k, val) => var m := Min(k, |s|); s[..m] + [Fresh(val, rules, f.now)] + s[m..]
    case EraseAt(k) => if k < |s| then s[..k] + s[k + 1..] else s
    case ExpireAt(k) => if k < |s| && s[k].due.Some? then s[..k] + s[k + 1..] else s
    case Front => Accessed(s, 0, rules, f.now)
    case Back => if s == [] then s else Accessed(s, |s| - 1, rules, f.now)
    case DerefAt(k) => Accessed(s, k, rules, f.now)
    case Wait(_) => s
  }

  function Effect(op: Op, rules: Rules, f: Face): Face {
    Face(CellsAfter(op, rules, f), if op.Wait? && rules.managed then f.now + op.d else f.now)
  }

  function Effects(ops: seq<Op>, rules: Rules, f: Face): Face
    decreases |ops|
  {
    if ops == [] then f else Effects(ops[1..], rules, Effect(ops[0], rules, f))
  }

  ghost function HistoryOf(l: List): History
    reads l
  {
    History(l.nodes, l.ever)
  }

  // One edit that puts a node in or takes one out, in the history and in the elements
  lemma PutDone(h: History, k: nat, n: Node, was: map<Node, nat>, timers: map<Node, nat>)
    requires k <= |h.nodes| && n !in h.ever && forall m | m in h.nodes :: CellOf(m, timers) == CellOf(m, was)
    ensures var h' := History(Inserted(h.nodes, k, n), h.ever + {n});
      && PossibleRun(h, [Put(k, n)]) && Run(h, [Put(k, n)]) == h'
      && CellsOf(h'.nodes, timers) == Inserted(CellsOf(h.nodes, was), k, CellOf(n, timers))
  {
    assert [Put(k, n)][1..] == [];
    hide CellOf;
    assert CellsOf(Inserted(h.nodes, k, n), timers) == Inserted(CellsOf(h.nodes, was), k, CellOf(n, timers));
  }

  lemma TakeDone(h: History, k: nat, was: map<Node, nat>, timers: map<Node, nat>)
    requires k < |h.nodes| && forall m | m in Dropped(h.nodes, k) :: CellOf(m, timers) == CellOf(m, was)
    ensures var h' := h.(nodes := Dropped(h.nodes, k));
      && PossibleRun(h, [Take(k)]) && Run(h, [Take(k)]) == h'
      && CellsOf(h'.nodes, timers) == Dropped(CellsOf(h.nodes, was), k)
  {
    assert [Take(k)][1..] == [];
    var d := Dropped(h.nodes, k);
    assert forall i | 0 <= i < |d| :: d[i] in d;
    hide CellOf;
    assert CellsOf(d, timers) == Dropped(CellsOf(h.nodes, was), k);
  }

  lemma NoneDone(h: History, was: map<Node, nat>, timers: map<Node, nat>)
    requires forall m | m in h.nodes :: CellOf(m, timers) == CellOf(m, was)
    ensures PossibleRun(h, []) && Run(h, []) == h && CellsOf(h.nodes, timers) == CellsOf(h.nodes, was)
  {
  }

  lemma AtEnds<T>(s: seq<T>, x: T)
    ensures Inserted(s, 0, x) == [x] + s && Inserted(s, |s|, x) == s + [x]
    ensures s != [] ==> Dropped(s, 0) == s[1..] && Dropped(s, |s| - 1) == s[..|s| - 1]
  {
    if s != [] {
      DroppedEnds(s);
    }
  }

  // The iterator at position k, as a user gets it
  method IterAt(l: List, k: nat) returns (i: Iter)
    requires l.Valid()
    ensures Genuine(i) && Usable(i) && i.list == l && PosOf(l.nodes, i.node) == Min(k, |l.nodes|)
    ensures i.node == At(l.nodes, k)
  {
    i := Begin(l);
    var j := 0;
    while j < k
      invariant j <= k && Genuine(i) && Usable(i) && i.list == l && PosOf(l.nodes, i.node) == Min(j, |l.nodes|)
    {
      var r := Incr(i);
      i := r.value;
      j := j + 1;
    }
    Place(l, i.node, Min(k, |l.nodes|));
  }

  // Where an edit puts a node in, or takes one out: at the end of the list, there is none to take out.
  function PutPos(op: Op, len: nat): (k: nat)
    requires op.PushFront? || op.PushBack? || op.InsertAt?
    ensures k <= len
  {
    match op
    case PushFront(_) => 0
    case PushBack(_) => len
    case InsertAt(k, _) => Min(k, len)
  }

  function TakePos(op: Op, s: seq<Cell>): (k: nat)
    requires op.PopFront? || op.PopBack? || op.EraseAt? || op.ExpireAt?
    ensures k <= |s|
  {
    match op
    case PopFront => 0
    case PopBack => if |s| == 0 then 0 else |s| - 1
    case EraseAt(k) => Min(k, |s|)
    case ExpireAt(k) => if k < |s| && s[k].due.Some? then k else |s|
  }

  ghost predicate Puts(op: Op) {
    op.PushFront? || op.PushBack? || op.InsertAt?
  }

  ghost predicate Takes(op: Op) {
    op.PopFront? || op.PopBack? || op.EraseAt? || op.ExpireAt?
  }

  lemma EffectIs(op: Op, rules: Rules, f: Face)
    requires Puts(op) || Takes(op)
    ensures var s := f.cells; Effect(op, rules, f) == f.(cells :=
      if Puts(op) then Inserted(s, PutPos(op, |s|), Fresh(op.val, rules, f.now))
      else if TakePos(op, s) < |s| then Dropped(s, TakePos(op, s))
      else s)
  {
    hide Fresh;
    var s := f.cells;
    match op
    case PushFront(val) => AtEnds(s, Fresh(val, rules, f.now));
    case PushBack(val) => AtEnds(s, Fresh(val, rules, f.now));
    case PopFront => if s != [] { DroppedEnds(s); }
    case PopBack => if s != [] { DroppedEnds(s); }
    case _ =>
  }

  method PerformPut(l: List, op: Op) returns (ghost n: Node)
    requires l.Valid() && Puts(op)
    modifies l, l.ever, l.Manager()
    ensures l.Valid() && l.Settings() == old(l.Settings()) && l.Now() == old(l.Now())
    ensures fresh(n) && n.data == op.val && l.ever == old(l.ever) + {n}
    ensures l.nodes == Inserted(old(l.nodes), PutPos(op, |old(l.nodes)|), n)
    ensures l.Planned(old(l.Timers()), l.Timers(), n)
  {
    hide List.Shaped, List.Timed, List.Contents, List.Planned;
    match op {
      case PushFront(val) =>
        n := l.PushFront(val);
      case PushBack(val) =>
        n := l.PushBack(val);
      case InsertAt(k, val) =>
        var i := IterAt(l, k);
        var r;
        r, n := Insert(val, i);
    }
    AtEnds(old(l.nodes), n);
  }

  method PerformTake(l: List, op: Op)
    requires l.Valid() && Takes(op)
    modifies l, l.ever, l.Manager()
    ensures l.Valid() && l.Settings() == old(l.Settings()) && l.ever == old(l.ever) && l.Now() == old(l.Now())
    ensures var k := TakePos(op, old(FaceOf(l).cells));
      if k < |old(l.nodes)| then
        l.nodes == Dropped(old(l.nodes), k) && l.Timers() == old(l.Timers()) - {old(l.nodes)[k]}
      else l.nodes == old(l.nodes) && l.Timers() == old(l.Timers())
  {
    match op {
      case PopFront =>
        var r := l.PopFront();
      case PopBack =>
        var r := l.PopBack();
      case EraseAt(k) =>
        var i := IterAt(l, k);
        var r := Erase(i);
      case ExpireAt(k) =>
        var i := IterAt(l, k);
        if i.node != null && l.tmgr != null && i.node in l.tmgr.pending {
          l.Expire(i.node, k);
        }
    }
  }

  method PutOne(l: List, op: Op) returns (ghost es: seq<Edit>)
    requires l.Valid() && Puts(op)
    modifies l, l.ever, l.Manager()
    ensures l.Valid() && l.Settings() == old(l.Settings()) && fresh(l.ever - old(l.ever))
    ensures PossibleRun(old(HistoryOf(l)), es) && Run(old(HistoryOf(l)), es) == HistoryOf(l)
    ensures FaceOf(l) == Effect(op, RulesOf(l), old(FaceOf(l)))
  {
    ghost var h, was := HistoryOf(l), l.Timers();
    ListIsConsistent(l);
    EffectIs(op, RulesOf(l), FaceOf(l));
    hide List.Valid, Effect, Inserted, PossibleRun, Run, List.Planned, CellOf, Fresh, CellsOf;
    ghost var n := PerformPut(l, op);
    PlannedCells(l, h, was, n);
    PutDone(h, PutPos(op, |h.nodes|), n, was, l.Timers());
    es := [Put(PutPos(op, |h.nodes|), n)];
  }

  lemma PlannedCells(l: List, h: History, was: map<Node, nat>, n: Node)
    requires l.Planned(was, l.Timers(), n) && n !in was && n !in h.ever && forall m | m in h.nodes :: m in h.ever
    ensures forall m | m in h.nodes :: CellOf(m, l.Timers()) == CellOf(m, was)
    ensures CellOf(n, l.Timers()) == Fresh(n.data, RulesOf(l), l.Now())
  {
  }

  method TakeOne(l: List, op: Op) returns (ghost es: seq<Edit>)
    requires l.Valid() && Takes(op)
    modifies l, l.ever, l.Manager()
    ensures l.Valid() && l.Settings() == old(l.Settings()) && l.ever == old(l.ever)
    ensures PossibleRun(old(HistoryOf(l)), es) && Run(old(HistoryOf(l)), es) == HistoryOf(l)
    ensures FaceOf(l) == Effect(op, RulesOf(l), old(FaceOf(l)))
  {
    ghost var h, was := HistoryOf(l), l.Timers();
    ListIsConsistent(l);
    EffectIs(op, RulesOf(l), FaceOf(l));
    hide List.Valid, Effect, PossibleRun, Run, Dropped, TakePos;
    ghost var k := TakePos(op, CellsOf(h.nodes, was));
    PerformTake(l, op);
    if k < |h.nodes| {
      OthersTimed(h, k, was);
      TakeDone(h, k, was, l.Timers());
      es := [Take(k)];
    } else {
      NoneDone(h, was, l.Timers());
      es := [];
    }
  }

  // Looking at an element changes no more than its timer.
  method LookAt(l: List, op: Op)
    requires l.Valid() && (op.Front? || op.Back? || op.DerefAt?)
    modifies l.Manager()
    ensures l.Valid() && FaceOf(l) == Effect(op, RulesOf(l), old(FaceOf(l)))
  {
    ListIsConsistent(l);
    match op {
      case Front =>
        var r := l.Front();
        MovedAt(l, old(l.Timers()), 0);
      case Back =>
        var r := l.Back();
        MovedAt(l, old(l.Timers()), if l.nodes == [] then 0 else |l.nodes| - 1);
      case DerefAt(k) =>
        var i := IterAt(l, k);
        var r := Deref(i);
        MovedAt(l, old(l.Timers()), k);
    }
  }

  lemma MovedAt(l: List, was: map<Node, nat>, k: nat)
    requires Distinct(l.nodes)
    requires if k < |l.nodes| then l.Moved(was, l.Timers(), l.nodes[k]) else l.Timers() == was
    ensures CellsOf(l.nodes, l.Timers()) == Accessed(CellsOf(l.nodes, was), k, RulesOf(l), l.Now())
  {
  }

  // Time advances.
  method Pass(l: List, d: nat)
    requires l.Valid()
    modifies l.Manager()
    ensures l.Valid() && FaceOf(l) == Effect(Wait(d), RulesOf(l), old(FaceOf(l)))
  {
    hide List.Shaped;
    if l.tmgr != null {
      l.tmgr.now := l.tmgr.now + d;
    }
  }

  // One operation on the list is none or one of its history.
  method PerformOne(l: List, op: Op) returns (ghost es: seq<Edit>)
    requires l.Valid()
    modifies l, l.ever, l.Manager()
    ensures l.Valid() && l.Settings() == old(l.Settings()) && fresh(l.ever - old(l.ever))
    ensures PossibleRun(old(HistoryOf(l)), es) && Run(old(HistoryOf(l)), es) == HistoryOf(l)
    ensures FaceOf(l) == Effect(op, RulesOf(l), old(FaceOf(l)))
  {
    hide List.Valid, Effect, CellsOf;
    match op {
      case PushFront(_) => es := PutOne(l, op);
      case PushBack(_) => es := PutOne(l, op);
      case InsertAt(_, _) => es := PutOne(l, op);
      case PopFront => es := TakeOne(l, op);
      case PopBack => es := TakeOne(l, op);
      case EraseAt(_) => es := TakeOne(l, op);
      case ExpireAt(_) => es := TakeOne(l, op);
      case Front => LookAt(l, op); es := [];
      case Back => LookAt(l, op); es := [];
      case DerefAt(_) => LookAt(l, op); es := [];
      case Wait(d) => Pass(l, d); es := [];
    }
  }

  lemma OthersTimed(h: History, k: nat, was: map<Node, nat>)
    requires Consistent(h) && k < |h.nodes|
    ensures forall m | m in Dropped(h.nodes, k) :: CellOf(m, was - {h.nodes[k]}) == CellOf(m, was)
  {
    DroppedAt(h.nodes, k);
  }

  // Any edits, one after the other
  method PerformAll(l: List, ops: seq<Op>) returns (ghost es: seq<Edit>)
    requires l.Valid()
    modifies l, l.ever, l.Manager()
    ensures l.Valid() && l.Settings() == old(l.Settings()) && fresh(l.ever - old(l.ever))
    ensures PossibleRun(old(HistoryOf(l)), es) && Run(old(HistoryOf(l)), es) == HistoryOf(l)
    ensures FaceOf(l) == Effects(ops, RulesOf(l), old(FaceOf(l)))
    decreases |ops|
  {
    hide List.Valid, PossibleRun, Run, Effect;
    ghost var h := HistoryOf(l);
    if ops == [] {
      NoneDone(h, l.Timers(), l.Timers());
      return [];
    }
    ghost var e := PerformOne(l, ops[0]);
    ghost var es' := PerformAll(l, ops[1..]);
    RunJoin(h, e, es');
    es := e + es';
  }

  // The edits do to the elements and their timers what they say, one after the other. A node is invalid exactly if it
  // has left the list, and then for good. The nodes still linked are in the order they were in, so that their
  // iterators denote the elements they have always denoted.
  method Perform(l: List, ops: seq<Op>)
    requires l.Valid()
    modifies l, l.ever, l.Manager()
    ensures l.Valid() && old(l.ever) <= l.ever && fresh(l.ever - old(l.ever))
    ensures FaceOf(l) == Effects(ops, RulesOf(l), old(FaceOf(l)))
    ensures forall n | n in l.ever :: n.invalid <==> n !in l.nodes
    ensures forall n | n in old(l.ever) && old(n.invalid) :: n.invalid
    ensures forall a, b | Precedes(old(l.nodes), a, b) && !a.invalid && !b.invalid :: Precedes(l.nodes, a, b)
  {
    ghost var h := HistoryOf(l);
    ListIsConsistent(l);
    ghost var es := PerformAll(l, ops);
    ListIsConsistent(l);
    hide List.Valid, PossibleRun, Run;
    RunKeepsAll(h, es);
  }

  lemma ListIsConsistent(l: List)
    requires l.Valid()
    ensures Consistent(HistoryOf(l)) && forall n | n in l.ever :: n.invalid <==> n !in l.nodes
  {
    l.Ends();
    forall n | n in l.ever
      ensures n.invalid <==> n !in l.nodes
    {
      l.InvalidIff(n);
    }
  }

  lemma RunKeepsAll(h: History, es: seq<Edit>)
    requires Consistent(h) && PossibleRun(h, es)
    ensures var r := Run(h, es);
      && h.ever <= r.ever
      && (forall n | n in h.ever && n !in h.nodes :: n !in r.nodes)
      && (forall a, b | Precedes(h.nodes, a, b) && a in r.nodes && b in r.nodes :: Precedes(r.nodes, a, b))
  {
    EverStays(h, es);
    forall n | n in h.ever && n !in h.nodes
      ensures n !in Run(h, es).nodes
    {
      GoneStaysGone(h, es, n);
    }
    forall a, b | Precedes(h.nodes, a, b) && a in Run(h, es).nodes && b in Run(h, es).nodes
      ensures Precedes(Run(h, es).nodes, a, b)
    {
      RunKeepsOrder(h, es, a, b);
    }
  }

  lemma {:induction false} EverStays(h: History, es: seq<Edit>)
    requires PossibleRun(h, es)
    ensures h.ever <= Run(h, es).ever
    decreases |es|
  {
    if es != [] {
      EverStays(Edited(h, es[0]), es[1..]);
    }
  }
}
