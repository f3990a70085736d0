/**
  Runs of the operations on AST nodes (ast/node.cc): nodes are created, linked, taken out, replaced, and destroyed.
*/
module AstRuns {
  import opened Wrappers
  import opened Sequences
  import opened AstNode

  // Nodes are named by their positions in the list of those that exist.
  datatype Op =
    | Create
    | Add(p: nat, n: nat)
    | Take(p: nat, i: nat)
    | TakeAll(p: nat, n: nat)
    | Leave(n: nat)
    | Replace(o: nat, n: nat, parent: Option<nat>)
    | Destroy(n: nat)

  ghost function Set(live: seq<Node>): set<Node> {
    set n | n in live
  }

  datatype State = State(live: seq<Node>, view: View)

  ghost function Now(live: seq<Node>): State
    reads Set(live)
  {
    State(live, Of(Set(live)))
  }

  predicate Within(op: Op, count: nat) {
    match op
    case Create => true
    case Add(p, n) => p < count && n < count
    case Take(p, i) => p < count
    case TakeAll(p, n) => p < count && n < count
    case Leave(n) => n < count
    case Replace(o, n, parent) => o < count && n < count && (parent.Some? ==> parent.value < count)
    case Destroy(n) => n < count
  }

  // The operation's nodes exist, and so does the slot.
  ghost predicate Possible(op: Op, s: State) {
    && (forall n | n in s.live :: n in s.view.kids && n in s.view.parents)
    && Within(op, |s.live|) && (op.Take? ==> op.i < |s.view.kids[s.live[op.p]]|)
  }

  ghost predicate Stepped(op: Op, s: State, s': State)
    requires Possible(op, s)
  {
    var v, v' := s.view, s'.view;
    match op
    case Create =>
      |s'.live| == |s.live| + 1 && s'.live[..|s.live|] == s.live && v' == Joined(v, s'.live[|s.live|])
    case Add(p, n) =>
      s'.live == s.live && v' == Added(v, s.live[p], s.live[n])
    case Take(p, i) =>
      var n := v.kids[s.live[p]][i];
      && s'.live == s.live && n in v.parents
      && exists j: nat | j < |v.parents[n]| :: v.parents[n][j] == s.live[p] && v' == Removed(v, s.live[p], i, n, j)
    case TakeAll(p, n) =>
      s'.live == s.live && v' == Stripped(v, s.live[p], s.live[n])
    case Leave(n) =>
      s'.live == s.live && v' == Orphaned(v, s.live[n])
    case Replace(o, n, parent) =>
      && s'.live == s.live
      && Exchanged(v, v', s.live[o], s.live[n], if parent.Some? then s.live[parent.value] else null)
    case Destroy(n) =>
      s'.live == Drop(s.live, n) && v' == Gone(v, s.live[n])
  }

  ghost predicate Exchanged(v: View, v': View, o: Node, n: Node, only: Node?) {
    if o == n then
      v' == v
    else if only != null then
      v'.kids == AllSwapped(v.kids, o, n, only) && v'.parents - {o, n} == v.parents - {o, n}
    else
      && v'.kids == AllSwapped(v.kids, o, n, null)[o := []]
      && v'.parents - {o, n} == AllWithout(v.parents, o) - {o, n}
  }

  // Impossible operations, and only they, are left out.
  ghost predicate IsRun(ops: seq<Op>, states: seq<State>) {
    && |states| == |ops| + 1
    && forall k | 0 <= k < |ops| :: Follows(ops[k], states[k], states[k + 1])
  }

  ghost predicate Follows(op: Op, s: State, s': State) {
    if Possible(op, s) then Stepped(op, s, s') else s' == s
  }

  method Perform(op: Op, live: seq<Node>) returns (live': seq<Node>)
    requires Distinct(live) && Law(Of(Set(live)))
    modifies Set(live)
    ensures Distinct(live') && forall n | n in live' :: n in live || fresh(n)
    ensures Law(Of(Set(live'))) && Follows(op, old(Now(live)), Now(live'))
  {
    hide Law, Of, Joined, Gone, Distinct, Drop;
    live' := live;
    Domains(Set(live));
    if !Within(op, |live|) {
      return;
    }
    match op {
      case Create =>
        live' := CreateNode(live);
      case Add(_, _) =>
        PerformPut(op, live);
      case Take(_, _) =>
        PerformTake(op, live);
      case TakeAll(_, _) =>
        PerformTake(op, live);
      case Leave(_) =>
        PerformTake(op, live);
      case Replace(_, _, _) =>
        PerformPut(op, live);
      case Destroy(n) =>
        live' := DestroyNode(live, n);
    }
  }

  method PerformPut(op: Op, live: seq<Node>)
    requires Law(Of(Set(live))) && (op.Add? || op.Replace?) && Within(op, |live|)
    modifies Set(live)
    ensures Law(Of(Set(live))) && Follows(op, old(Now(live)), Now(live))
  {
    hide Law, Of, Added, AllSwapped, AllWithout, Without, Times;
    Domains(Set(live));
    match op {
      case Add(p, n) =>
        live[p].AddChild(live[n], Set(live));
      case Replace(o, n, parent) =>
        live[o].Replace(live[n], if parent.Some? then live[parent.value] else null, Set(live));
    }
  }

  method PerformTake(op: Op, live: seq<Node>)
    requires Law(Of(Set(live))) && (op.Take? || op.TakeAll? || op.Leave?) && Within(op, |live|)
    modifies Set(live)
    ensures Law(Of(Set(live))) && Follows(op, old(Now(live)), Now(live))
  {
    hide Law, Of, Removed, Stripped, Orphaned, Drop, Without;
    ghost var nodes, s := Set(live), Now(live);
    Domains(nodes);
    match op {
      case Take(p, i) =>
        Listed(nodes, live[p]);
        if i >= |live[p].childs| {
          return;
        }
        KnownChild(s.view, live[p], live[p].childs[i]);
        Listed(nodes, live[p].childs[i]);
        ghost var j := live[p].RemoveChildAt(i, nodes);
      case TakeAll(p, n) =>
        live[p].RemoveChild(live[n], nodes);
      case Leave(n) =>
        live[n].RemoveFromParents(nodes);
    }
  }

  lemma Domains(nodes: set<Node>)
    ensures Of(nodes).kids.Keys == nodes && Of(nodes).parents.Keys == nodes
  {
  }

  method CreateNode(live: seq<Node>) returns (live': seq<Node>)
    requires Distinct(live) && Law(Of(Set(live)))
    ensures Distinct(live') && |live'| == |live| + 1 && live'[..|live|] == live && fresh(live'[|live|])
    ensures Law(Of(Set(live'))) && Of(Set(live')) == Joined(Of(Set(live)), live'[|live|])
  {
    hide Law, Of, Joined;
    var n := new Node();
    Domains(Set(live));
    JoinedLaw(Of(Set(live)), n);
    OneMore(Set(live), n);
    live' := live + [n];
    assert Set(live') == Set(live) + {n};
  }

  lemma OneMore(nodes: set<Node>, n: Node)
    requires n !in nodes && n.childs == [] && n.parents == []
    ensures Of(nodes + {n}) == Joined(Of(nodes), n)
  {
  }

  method DestroyNode(live: seq<Node>, n: nat) returns (live': seq<Node>)
    requires Distinct(live) && Law(Of(Set(live))) && n < |live|
    modifies Set(live)
    ensures Distinct(live') && live' == Drop(live, n)
    ensures Law(Of(Set(live'))) && Of(Set(live')) == Gone(old(Of(Set(live))), live[n])
  {
    OneFewer(live, n);
    hide Law, Of, Gone, Distinct, Drop;
    live[n].Destroy(Set(live));
    live' := Drop(live, n);
  }

  lemma OneFewer(live: seq<Node>, n: nat)
    requires Distinct(live) && n < |live|
    ensures Distinct(Drop(live, n)) && Set(Drop(live, n)) == Set(live) - {live[n]}
  {
    assert live == live[..n] + [live[n]] + live[n + 1..];
  }

  // However nodes are created, linked, replaced and destroyed, each is listed among the parents of another as often as
  // that is among its children.
  method PerformAll(ops: seq<Op>) returns (live: seq<Node>, ghost states: seq<State>)
    ensures Distinct(live) && Law(Of(Set(live))) && fresh(Set(live))
    ensures IsRun(ops, states) && |states| == |ops| + 1
    ensures states[0] == State([], View(map[], map[])) && states[|ops|] == Now(live)
  {
    hide Law, Of, Follows, Distinct, IsRun;
    live := [];
    states := [Now(live)];
    Nothing(ops);
    var k := 0;
    while k < |ops|
      invariant k <= |ops| && Distinct(live) && Law(Of(Set(live))) && fresh(Set(live))
      invariant IsRun(ops[..k], states) && |states| == k + 1
      invariant states[0] == State([], View(map[], map[])) && states[k] == Now(live)
    {
      live := Perform(ops[k], live);
      RunLonger(ops, k, states, Now(live));
      states := states + [Now(live)];
      k := k + 1;
    }
    assert ops[..k] == ops;
  }

  lemma Nothing(ops: seq<Op>)
    ensures Distinct<Node>([]) && Law(Of(Set([]))) && Now([]) == State([], View(map[], map[]))
    ensures IsRun(ops[..0], [Now([])])
  {
    assert Of(Set([])) == View(map[], map[]);
  }

  lemma RunLonger(ops: seq<Op>, k: nat, states: seq<State>, s: State)
    requires k < |ops| && IsRun(ops[..k], states)
    requires Follows(ops[k], states[k], s)
    ensures IsRun(ops[..k + 1], states + [s])
  {
    assert ops[..k + 1] == ops[..k] + [ops[k]];
  }
}
