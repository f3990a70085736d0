/**
  Doubly linked lists (libhilti/list.c). A list stands for the sequence of its nodes; iterators point to nodes and
  survive all edits that do not unlink theirs. Nodes may have a timer that unlinks them when it expires.
*/
module List {
  import opened Sequences
  import opened Wrappers

  // The values of a list's elements; a list only copies them.
  type Elem

  datatype Strategy = Unset | Create | Access

  datatype Error = Underflow | InvalidIterator

  class Node {
    var next: Node?
    var prev: Node?
    var timer: bool       // has a timer scheduled with the list's timer manager
    var invalid: bool
    const data: Elem

    constructor (d: Elem)
      ensures next == null && prev == null && !timer && !invalid && data == d
    {
      next, prev, timer, invalid, data := null, null, false, false, d;
    }
  }

  // What a list needs to know of a timer manager: which nodes have a timer pending, and for when.
  class TimerMgr {
    var now: nat
    var pending: map<Node, nat>

    constructor (t: nat)
      ensures now == t && pending == map[]
    {
      now, pending := t, map[];
    }
  }

  // The node an iterator points to; null is the end.
  datatype Iter = Iter(list: List?, node: Node?)

  function Inserted<T>(s: seq<T>, k: nat, x: T): seq<T>
    requires k <= |s|
  {
    s[..k] + [x] + s[k..]
  }

  function Dropped<T>(s: seq<T>, k: nat): seq<T>
    requires k < |s|
  {
    s[..k] + s[k + 1..]
  }

  // The neighbours of position i: nodes in the middle, null at the ends.
  ghost function At(nodes: seq<Node>, i: int): Node? {
    if 0 <= i < |nodes| then nodes[i] else null
  }

  // The pointers and flags of a set of nodes.
  datatype Shape = Shape(next: map<Node, Node?>, prev: map<Node, Node?>, bad: map<Node, bool>)

  ghost function Of(ever: set<Node>): (sh: Shape)
    reads ever`next, ever`prev, ever`invalid
    ensures sh.next.Keys == sh.prev.Keys == sh.bad.Keys == ever
  {
    Shape(map n | n in ever :: n.next, map n | n in ever :: n.prev, map n | n in ever :: n.invalid)
  }

  // The pointers make the nodes a doubly linked list. All other nodes are invalid and lead nowhere; nodes in the
  // list are valid.
  ghost predicate Chain(sh: Shape, nodes: seq<Node>) {
    && sh.next.Keys == sh.prev.Keys == sh.bad.Keys && Distinct(nodes)
    && (forall i: nat :: Linked(sh, nodes, i))
    && (forall n {:trigger Sound(sh, nodes, n)} | n in sh.next :: Sound(sh, nodes, n))
  }

  ghost predicate Linked(sh: Shape, nodes: seq<Node>, i: nat) {
    i < |nodes| ==>
      && nodes[i] in sh.next && nodes[i] in sh.prev
      && sh.next[nodes[i]] == At(nodes, i + 1) && sh.prev[nodes[i]] == At(nodes, i - 1)
  }

  ghost predicate Sound(sh: Shape, nodes: seq<Node>, n: Node) {
    && n in sh.next && n in sh.prev && n in sh.bad && (sh.bad[n] <==> n !in nodes)
    && (n !in nodes ==> sh.next[n] == null && sh.prev[n] == null)
  }

  function Before(i: nat): nat {
    if i > 0 then i - 1 else 0
  }

  // From one shape to the next, n has been put between the neighbours of position k.
  ghost predicate Spliced(sh: Shape, sh': Shape, nodes: seq<Node>, k: nat, n: Node) {
    && (forall m | m in sh.next :: m in sh'.next && sh'.next[m] == (if m == At(nodes, k - 1) then n else sh.next[m]))
    && (forall m | m in sh.prev :: m in sh'.prev && sh'.prev[m] == (if m == At(nodes, k) then n else sh.prev[m]))
    && (forall m | m in sh.bad :: m in sh'.bad && sh'.bad[m] == sh.bad[m])
  }

  ghost predicate Joined(sh: Shape, sh': Shape, nodes: seq<Node>, k: nat, n: Node) {
    && Spliced(sh, sh', nodes, k, n)
    && sh'.next.Keys == sh'.prev.Keys == sh'.bad.Keys == sh.next.Keys + {n}
    && n in sh'.next && sh'.next[n] == At(nodes, k)
    && n in sh'.prev && sh'.prev[n] == At(nodes, k - 1)
    && n in sh'.bad && !sh'.bad[n]
  }

  lemma JoinedNow(sh: Shape, ever: set<Node>, nodes: seq<Node>, k: nat, n: Node)
    requires sh.next.Keys == sh.prev.Keys == sh.bad.Keys == ever && Spliced(sh, Of(ever), nodes, k, n)
    requires n !in ever && n.next == At(nodes, k) && n.prev == At(nodes, k - 1) && !n.invalid
    ensures Joined(sh, Of(ever + {n}), nodes, k, n)
  {
  }

  lemma InsertedAt<T>(s: seq<T>, k: nat, x: T)
    requires k <= |s|
    ensures |Inserted(s, k, x)| == |s| + 1
    ensures forall i | 0 <= i <= |s| :: Inserted(s, k, x)[i] == if i < k then s[i] else if i == k then x else s[i - 1]
    ensures forall y :: y in Inserted(s, k, x) <==> y == x || y in s
  {
  }

  lemma JoinedChain(sh: Shape, sh': Shape, nodes: seq<Node>, k: nat, n: Node)
    requires Chain(sh, nodes) && k <= |nodes| && n !in sh.next && Joined(sh, sh', nodes, k, n)
    ensures Chain(sh', Inserted(nodes, k, n))
  {
    var nodes' := Inserted(nodes, k, n);
    InsertedAt(nodes, k, n);
    forall i | 0 <= i < |nodes|
      ensures nodes[i] in sh.next && nodes[i] in sh.prev && nodes[i] in sh.bad
    {
      assert Linked(sh, nodes, i);
    }
    assert Distinct(nodes');
    forall i: nat
      ensures Linked(sh', nodes', i)
    {
      assert Linked(sh, nodes, i) && Linked(sh, nodes, Before(i));
    }
    forall m | m in sh'.next
      ensures Sound(sh', nodes', m)
    {
      assert m != n ==> Sound(sh, nodes, m);
    }
  }

  // From one shape to the next, the node at position k has been taken out.
  ghost predicate Cut(sh: Shape, sh': Shape, nodes: seq<Node>, k: nat)
    requires k < |nodes|
  {
    && sh'.next.Keys == sh'.prev.Keys == sh'.bad.Keys == sh.next.Keys
    && (forall m | m in sh.next :: m in sh'.next && sh'.next[m] == NextAfterCut(sh, nodes, k, m))
    && (forall m | m in sh.prev :: m in sh'.prev && sh'.prev[m] == PrevAfterCut(sh, nodes, k, m))
    && (forall m | m in sh.bad :: m in sh'.bad && sh'.bad[m] == (m == nodes[k] || sh.bad[m]))
  }

  ghost function NextAfterCut(sh: Shape, nodes: seq<Node>, k: nat, m: Node): Node?
    requires m in sh.next && k < |nodes|
  {
    if m == nodes[k] then null else if m == At(nodes, k - 1) then At(nodes, k + 1) else sh.next[m]
  }

  ghost function PrevAfterCut(sh: Shape, nodes: seq<Node>, k: nat, m: Node): Node?
    requires m in sh.prev && k < |nodes|
  {
    if m == nodes[k] then null else if m == At(nodes, k + 1) then At(nodes, k - 1) else sh.prev[m]
  }

  lemma DroppedAt<T>(s: seq<T>, k: nat)
    requires k < |s| && Distinct(s)
    ensures |Dropped(s, k)| == |s| - 1 && Distinct(Dropped(s, k))
    ensures forall i | 0 <= i < |s| - 1 :: Dropped(s, k)[i] == if i < k then s[i] else s[i + 1]
    ensures forall y :: y in Dropped(s, k) <==> y in s && y != s[k]
  {
  }

  lemma DroppedEnds<T>(s: seq<T>)
    requires s != []
    ensures Dropped(s, 0) == s[1..] && Dropped(s, |s| - 1) == s[..|s| - 1]
  {
  }

  lemma CutChain(sh: Shape, sh': Shape, nodes: seq<Node>, k: nat)
    requires Chain(sh, nodes) && k < |nodes| && Cut(sh, sh', nodes, k)
    ensures Chain(sh', Dropped(nodes, k))
  {
    var nodes' := Dropped(nodes, k);
    DroppedAt(nodes, k);
    forall i: nat
      ensures Linked(sh', nodes', i)
    {
      assert Linked(sh, nodes, i) && Linked(sh, nodes, i + 1);
    }
    forall m | m in sh'.next
      ensures Sound(sh', nodes', m)
    {
      assert Sound(sh, nodes, m);
    }
  }

  function Data(nodes: seq<Node>): (r: seq<Elem>)
    ensures |r| == |nodes| && forall i | 0 <= i < |nodes| :: r[i] == nodes[i].data
  {
    if nodes == [] then [] else [nodes[0].data] + Data(nodes[1..])
  }

  ghost function SetOf(nodes: seq<Node>): set<Node> {
    set n | n in nodes
  }

  ghost function TimersOf(ever: set<Node>): set<Node>
    reads ever`timer
  {
    set n | n in ever && n.timer
  }

  class List {
    var head: Node?
    var tail: Node?
    var size: int
    var tmgr: TimerMgr?
    var timeout: nat
    var strategy: Strategy
    ghost var nodes: seq<Node>
    ghost var ever: set<Node>     // all nodes that have been in the list

    ghost predicate Valid()
      reads this`nodes, this`ever, this`size, this`head, this`tail, this`tmgr, ever, tmgr
    {
      Shaped() && Timed()
    }

    ghost predicate Shaped()
      reads this`nodes, this`ever, this`size, this`head, this`tail, ever`next, ever`prev, ever`invalid
    {
      Chain(Of(ever), nodes) && size == |nodes| && head == At(nodes, 0) && tail == At(nodes, |nodes| - 1)
    }

    // The timers pending are the ones of nodes in the list.
    ghost predicate Timed()
      reads this`nodes, this`ever, this`tmgr, ever`timer, tmgr
    {
      && TimersOf(ever) == ever * Pending()
      && TimersOf(ever) <= SetOf(nodes)
    }

    ghost function Pending(): set<Node>
      reads this`tmgr, tmgr
    {
      if tmgr == null then {} else tmgr.pending.Keys
    }

    // For when the timers pending are
    ghost function Timers(): map<Node, nat>
      reads this`tmgr, tmgr
    {
      if tmgr == null then map[] else tmgr.pending
    }

    ghost function Now(): nat
      reads this`tmgr, tmgr
    {
      if tmgr == null then 0 else tmgr.now
    }

    // New nodes get a timer.
    ghost predicate Scheduled()
      reads this`tmgr, this`timeout
    {
      tmgr != null && timeout != 0
    }

    lemma TimerIff(n: Node)
      requires Valid() && n in ever
      ensures n.timer <==> n in Pending()
    {
      hide Shaped;
      assert n in TimersOf(ever) <==> n.timer;
    }

    ghost function Manager(): set<TimerMgr>
      reads this
    {
      if tmgr == null then {} else {tmgr}
    }

    ghost function Contents(): seq<Elem>
      reads this`nodes
    {
      Data(nodes)
    }

    constructor (mgr: TimerMgr?)
      ensures Valid() && nodes == [] && ever == {} && tmgr == mgr && timeout == 0 && strategy == Unset
    {
      head, tail, size, tmgr, timeout, strategy := null, null, 0, mgr, 0, Unset;
      nodes, ever := [], {};
    }

    // What a new node does to the timers: if there are a manager and a timeout, it gets one.
    ghost predicate Planned(timers: map<Node, nat>, timers': map<Node, nat>, n: Node)
      reads this, tmgr
    {
      timers' == if tmgr != null && timeout != 0 then timers[n := Now() + timeout] else timers
    }

    // _make_node
    method MakeNode(val: Elem) returns (n: Node)
      modifies Manager()
      ensures fresh(n) && n.data == val && n.next == null && n.prev == null && !n.invalid
      ensures n.timer <==> tmgr != null && timeout != 0
      ensures Now() == old(Now())
      ensures Planned(old(Timers()), Timers(), n)
    {
      n := new Node(val);
      if tmgr != null && timeout != 0 {
        n.timer := true;
        tmgr.pending := tmgr.pending[n := tmgr.now + timeout];
      }
    }

    // What an access does to the timers: with the strategy for it, the timer of n starts again.
    ghost predicate Moved(timers: map<Node, nat>, timers': map<Node, nat>, n: Node)
      reads this, tmgr
    {
      timers' ==
        if tmgr != null && strategy == Access && timeout != 0 && n in timers then timers[n := Now() + timeout]
        else timers
    }

    // _access
    method Touch(n: Node)
      requires Valid() && n in ever
      modifies Manager()
      ensures Valid() && Pending() == old(Pending()) && Now() == old(Now())
      ensures Moved(old(Timers()), Timers(), n)
    {
      TimerIff(n);
      hide Shaped;
      if tmgr == null || strategy != Access || timeout == 0 {
        return;
      }
      if !n.timer {
        return;
      }
      assert n in TimersOf(ever);
      tmgr.pending := tmgr.pending[n := tmgr.now + timeout];
      assert tmgr.pending.Keys == old(tmgr.pending.Keys);
    }

    // A new node at position k, after pos
    method PutAt(val: Elem, pos: Node?, ghost k: nat) returns (n: Node)
      requires Valid() && k <= |nodes| && pos == At(nodes, k - 1)
      modifies this`head, this`tail, this`size, this`nodes, this`ever, ever`next, ever`prev, Manager()
      ensures Valid() && fresh(n) && n.data == val && nodes == Inserted(old(nodes), k, n) && ever == old(ever) + {n}
      ensures (n.timer <==> tmgr != null && timeout != 0) && fresh(Pending() - old(Pending()))
      ensures old(Pending()) <= Pending() && Now() == old(Now())
      ensures Planned(old(Timers()), Timers(), n)
    {
      hide Shaped, Inserted, TimersOf, SetOf;
      ghost var was := ever;
      n := MakeNode(val);
      assert ever * Pending() == old(ever * Pending());
      InsertedMembers(nodes, k, n);
      Link(n, pos, k);
      OneTimer(was, n);
      assert ever * Pending() == was * Pending() + (if n.timer then {n} else {});
    }

    // _unlink, at position k; a node whose timer has just fired has no timer left to cancel.
    method Unlink(n: Node, cancel: bool, ghost k: nat)
      requires Shaped()
      requires k < |nodes| && nodes[k] == n && n in ever
      requires TimersOf(ever) - {n} == ever * Pending() - {n} && TimersOf(ever) <= SetOf(nodes)
      requires n in Pending() ==> n.timer && cancel
      requires n.timer ==> tmgr != null
      modifies this`head, this`tail, this`size, this`nodes, ever, Manager()
      ensures Valid() && nodes == Dropped(old(nodes), k) && n.invalid && !n.timer
      ensures Now() == old(Now()) && Timers() == old(Timers()) - {n}
    {
      hide Shaped, Dropped, TimersOf, SetOf;
      UnlinkNode(n, k);
      Cancel(n, cancel);
    }

    method UnlinkNode(n: Node, ghost k: nat)
      requires Shaped()
      requires k < |nodes| && nodes[k] == n && n in ever
      modifies this`head, this`tail, this`size, this`nodes, ever`next, ever`prev, n`invalid
      ensures Shaped()
      ensures nodes == Dropped(old(nodes), k) && n.invalid
      ensures SetOf(nodes) == SetOf(old(nodes)) - {n}
    {
      hide Chain, Of, Dropped, Cut, SetOf;
      ghost var sh := Of(ever);
      ChainDropped(sh, nodes, k);
      Unsplice(n, k);
      CutChain(sh, Of(ever), nodes, k);
      nodes := Dropped(nodes, k);
    }

    method Cancel(n: Node, cancel: bool)
      requires n in ever && TimersOf(ever) - {n} == ever * Pending() - {n} && (n.timer ==> tmgr != null)
      requires n in Pending() ==> n.timer && cancel
      requires TimersOf(ever) - {n} <= SetOf(nodes)
      modifies n`timer, Manager()
      ensures Timed() && !n.timer
      ensures Now() == old(Now()) && Timers() == old(Timers()) - {n}
    {
      if n.timer && cancel {
        tmgr.pending := tmgr.pending - {n};
      }
      n.timer := false;
      assert TimersOf(ever) == old(TimersOf(ever)) - {n};
      assert tmgr != null ==> tmgr.pending == old(tmgr.pending) - {n};
    }

    // hlt_list_push_front
    method PushFront(val: Elem) returns (ghost n: Node)
      requires Valid()
      modifies this, ever, Manager()
      ensures Valid() && Contents() == [val] + old(Contents())
      ensures Settings() == old(Settings())
      ensures fresh(n) && n.data == val && nodes == [n] + old(nodes) && ever == old(ever) + {n}
      ensures n.timer <==> Scheduled()
      ensures Planned(old(Timers()), Timers(), n)
      ensures Now() == old(Now()) && old(Pending()) <= Pending() && fresh(Pending() - old(Pending()))
    {
      hide Shaped, Timed, Inserted;
      n := PutAt(val, null, 0);
      InsertedFirst(old(nodes), n);
    }

    // hlt_list_push_back
    method PushBack(val: Elem) returns (ghost n: Node)
      requires Valid()
      modifies this, ever, Manager()
      ensures Valid() && Contents() == old(Contents()) + [val]
      ensures Settings() == old(Settings())
      ensures fresh(n) && n.data == val && nodes == old(nodes) + [n] && ever == old(ever) + {n}
      ensures n.timer <==> Scheduled()
      ensures Planned(old(Timers()), Timers(), n)
      ensures Now() == old(Now()) && old(Pending()) <= Pending() && fresh(Pending() - old(Pending()))
    {
      Ends();
      hide Shaped, Timed, Inserted, At, Data, SetOf, TimersOf, Planned;
      n := PutAt(val, tail, |nodes|);
      InsertedLast(old(nodes), n);
    }

    // hlt_list_pop_front
    method PopFront() returns (r: Result<(), Error>)
      requires Valid()
      modifies this, ever, Manager()
      ensures Valid() && Settings() == old(Settings()) && ever == old(ever)
      ensures Now() == old(Now())
      ensures old(nodes) == [] ==> r == Err(Underflow) && nodes == [] && Timers() == old(Timers())
      ensures old(nodes) != [] ==> r == Ok(()) && nodes == old(nodes)[1..] && old(nodes)[0].invalid
      ensures old(nodes) != [] ==> Timers() == old(Timers()) - {old(nodes)[0]}
    {
      Ends();
      if head == null {
        return Err(Underflow);
      }
      UnlinkReady(0);
      DroppedEnds(nodes);
      hide Shaped, Timed, TimersOf, SetOf, Dropped;
      Unlink(head, true, 0);
      return Ok(());
    }

    // hlt_list_pop_back
    method PopBack() returns (r: Result<(), Error>)
      requires Valid()
      modifies this, ever, Manager()
      ensures Valid() && Settings() == old(Settings()) && ever == old(ever)
      ensures Now() == old(Now())
      ensures old(nodes) == [] ==> r == Err(Underflow) && nodes == [] && Timers() == old(Timers())
      ensures old(nodes) != [] ==>
        r == Ok(()) && nodes == old(nodes)[..|old(nodes)| - 1] && old(nodes)[|old(nodes)| - 1].invalid
      ensures old(nodes) != [] ==> Timers() == old(Timers()) - {old(nodes)[|old(nodes)| - 1]}
    {
      Ends();
      if tail == null {
        return Err(Underflow);
      }
      UnlinkReady(|nodes| - 1);
      DroppedEnds(nodes);
      hide Shaped, Timed, TimersOf, SetOf, Dropped;
      Unlink(tail, true, |nodes| - 1);
      return Ok(());
    }

    // hlt_list_front
    method Front() returns (r: Result<Elem, Error>)
      requires Valid()
      modifies Manager()
      ensures Valid() && Pending() == old(Pending()) && Now() == old(Now())
      ensures r == if nodes == [] then Err(Underflow) else Ok(Contents()[0])
      ensures if nodes == [] then Timers() == old(Timers()) else Moved(old(Timers()), Timers(), nodes[0])
    {
      Ends();
      hide Shaped, Timed;
      if head == null {
        return Err(Underflow);
      }
      Touch(head);
      return Ok(head.data);
    }

    // hlt_list_back
    method Back() returns (r: Result<Elem, Error>)
      requires Valid()
      modifies Manager()
      ensures Valid() && Pending() == old(Pending()) && Now() == old(Now())
      ensures r == if nodes == [] then Err(Underflow) else Ok(Contents()[|nodes| - 1])
      ensures if nodes == [] then Timers() == old(Timers()) else Moved(old(Timers()), Timers(), nodes[|nodes| - 1])
    {
      Ends();
      hide Shaped, Timed;
      if tail == null {
        return Err(Underflow);
      }
      Touch(tail);
      return Ok(tail.data);
    }

    // hlt_list_size
    method Size() returns (n: int)
      requires Valid()
      ensures n == |Contents()|
    {
      return size;
    }

    // hlt_list_append, of another list
    method Append(other: List)
      requires Valid() && other.Valid() && other != this && ever !! other.ever
      modifies this, ever, Manager()
      ensures Valid() && other.Valid() && Contents() == old(Contents()) + other.Contents()
      ensures other.nodes == old(other.nodes) && Settings() == old(Settings())
      ensures old(nodes) <= nodes && old(ever) <= ever && fresh(ever - old(ever))
    {
      hide Valid, Appending, At, Data, Contents;
      ghost var done := Contents();
      NoneAppended(other);
      var n := other.head;
      ghost var i := 0;
      while n != null
        invariant i <= |other.nodes| && n == At(other.nodes, i) && other.nodes == old(other.nodes)
        invariant Appending(other, i, done) && Settings() == old(Settings())
        invariant old(nodes) <= nodes && old(ever) <= ever && fresh(ever - old(ever))
        decreases |other.nodes| - i
      {
        AtIs(other.nodes, i);
        n := AppendNext(other, n, i, done);
        i := i + 1;
      }
      AtIs(other.nodes, i);
      Appended(other, i, done);
    }

    // What `done` has become, with i of the other list's elements appended.
    ghost predicate Appending(other: List, i: nat, done: seq<Elem>)
      reads this, ever, tmgr, other, other.ever, other.tmgr
    {
      && Valid() && other.Valid() && other != this && ever !! other.ever
      && i <= |other.nodes| && Contents() == done + Data(other.nodes[..i])
    }

    lemma NoneAppended(other: List)
      requires Valid() && other.Valid() && other != this && ever !! other.ever
      ensures Appending(other, 0, Contents()) && other.head == At(other.nodes, 0)
    {
    }

    lemma Appended(other: List, i: nat, done: seq<Elem>)
      requires Appending(other, i, done) && i == |other.nodes|
      ensures Valid() && other.Valid() && Contents() == done + other.Contents()
    {
    }

    method AppendNext(other: List, n: Node, ghost i: nat, ghost done: seq<Elem>) returns (m: Node?)
      requires Appending(other, i, done) && i < |other.nodes| && n == other.nodes[i]
      modifies this, ever, Manager()
      ensures Appending(other, i + 1, done) && m == At(other.nodes, i + 1)
      ensures other.nodes == old(other.nodes) && Settings() == old(Settings())
      ensures old(nodes) <= nodes && old(ever) <= ever && fresh(ever - old(ever))
    {
      other.Follow(i);
      DataTake(other.nodes, i);
      hide Valid, Data;
      PushCopy(other, n.data);
      other.Follow(i);
      m := n.next;
      assert Contents() == done + Data(other.nodes[..i + 1]);
    }

    method PushCopy(other: List, val: Elem)
      requires Valid() && other.Valid() && other != this && ever !! other.ever
      modifies this, ever, Manager()
      ensures Valid() && other.Valid() && Contents() == old(Contents()) + [val] && Settings() == old(Settings())
      ensures old(nodes) <= nodes && old(ever) <= ever && fresh(ever - old(ever)) && ever !! other.ever
      ensures forall m | m in other.ever :: m.next == old(m.next)
    {
      hide Shaped, Data, TimersOf;
      ghost var n := PushBack(val);
      assert Settings().0 == old(Settings()).0;
      assert other.ever * other.Pending() == old(other.ever * other.Pending());
    }

    // The timer manager lets the timer of n fire: hlt_list_expire.
    method Expire(n: Node, ghost k: nat)
      requires Valid() && tmgr != null && n in ever && n in tmgr.pending && k < |nodes| && nodes[k] == n
      modifies this, ever, tmgr
      ensures Valid() && nodes == Dropped(old(nodes), k) && ever == old(ever) && n.invalid
      ensures Settings() == old(Settings())
      ensures Timers() == old(Timers()) - {n} && Now() == old(Now())
    {
      UnlinkReady(k);
      hide Shaped, Timed, TimersOf, SetOf, Dropped;
      tmgr.pending := tmgr.pending - {n};
      assert ever * Pending() == old(ever * Pending()) - {n};
      Unlink(n, false, k);
      assert old(tmgr.pending) - {n} - {n} == old(tmgr.pending) - {n};
    }

    // hlt_list_timeout
    method SetTimeout(strategy: Strategy, timeout: nat, mgr: TimerMgr)
      requires Valid() && (tmgr == null ==> mgr.pending.Keys !! ever)
      modifies this`timeout, this`strategy, this`tmgr
      ensures Valid() && nodes == old(nodes) && this.timeout == timeout && this.strategy == strategy
      ensures tmgr == if old(tmgr) == null then mgr else old(tmgr)
    {
      hide Shaped;
      this.timeout, this.strategy := timeout, strategy;
      if tmgr == null {
        tmgr := mgr;
      }
    }

    ghost function Settings(): (TimerMgr?, nat, Strategy)
      reads this
    {
      (tmgr, timeout, strategy)
    }

    // What the ends of a list are
    lemma Ends()
      requires Valid()
      ensures head == At(nodes, 0) && tail == At(nodes, |nodes| - 1) && size == |nodes|
      ensures forall n | n in nodes :: n in ever
    {
      forall i | 0 <= i < |nodes|
        ensures nodes[i] in ever
      {
        assert Linked(Of(ever), nodes, i);
      }
    }

    lemma Follow(i: nat)
      requires Valid() && i < |nodes|
      ensures nodes[i] in ever && nodes[i].next == At(nodes, i + 1) && nodes[i].prev == At(nodes, i - 1)
    {
      assert Linked(Of(ever), nodes, i);
      Pointers(ever, nodes[i]);
    }

    lemma UnlinkReady(k: nat)
      requires Valid() && k < |nodes|
      ensures Shaped() && nodes[k] in ever
      ensures TimersOf(ever) == ever * Pending() && TimersOf(ever) <= SetOf(nodes)
      ensures nodes[k].timer <==> nodes[k] in Pending()
      ensures nodes[k].timer ==> tmgr != null
    {
      Follow(k);
      assert nodes[k] in TimersOf(ever) <==> nodes[k].timer;
    }

    // A node is invalid exactly if it is not in the list (anymore).
    lemma InvalidIff(n: Node)
      requires Valid() && n in ever
      ensures n.invalid <==> n !in nodes
    {
      assert Sound(Of(ever), nodes, n);
    }

    // _link: k is the position after pos.
    method Link(n: Node, pos: Node?, ghost k: nat)
      requires Shaped()
      requires n !in ever && n.prev == null && !n.invalid
      requires k <= |nodes| && pos == At(nodes, k - 1)
      modifies this`head, this`tail, this`size, this`nodes, this`ever, ever`next, ever`prev, n`next, n`prev
      ensures nodes == Inserted(old(nodes), k, n) && ever == old(ever) + {n}
      ensures Shaped()
    {
      hide Chain, Inserted, Joined, Spliced, Of;
      ghost var sh := Of(ever);
      InsertedEnds(nodes, k, n);
      Splice(n, pos, k);
      JoinedNow(sh, ever, nodes, k, n);
      JoinedChain(sh, Of(ever + {n}), nodes, k, n);
      nodes, ever := Inserted(nodes, k, n), ever + {n};
    }

    // What _link does to the pointers
    method Splice(n: Node, pos: Node?, ghost k: nat)
      requires Chain(Of(ever), nodes) && n !in ever && k <= |nodes| && pos == At(nodes, k - 1)
      requires head == At(nodes, 0) && n.prev == null
      modifies this`head, this`tail, this`size, ever`next, ever`prev, n`next, n`prev
      ensures n.next == At(nodes, k) && n.prev == pos && size == old(size) + 1
      ensures head == (if k == 0 then n else old(head)) && tail == (if k == |nodes| then n else old(tail))
      ensures Spliced(old(Of(ever)), Of(ever), nodes, k, n)
    {
      hide Chain;
      if pos != null {
        LinkAfter(n, pos, k);
      } else {
        LinkFirst(n);
      }
      size := size + 1;
    }

    // What _unlink does to the pointers
    method Unsplice(n: Node, ghost k: nat)
      requires Chain(Of(ever), nodes) && k < |nodes| && n == nodes[k] && n in ever
      modifies this`head, this`tail, this`size, ever`next, ever`prev, n`invalid
      ensures Cut(old(Of(ever)), Of(ever), nodes, k) && n.invalid && size == old(size) - 1
      ensures head == if k == 0 then At(nodes, 1) else old(head)
      ensures tail == if k == |nodes| - 1 then At(nodes, k - 1) else old(tail)
    {
      hide Chain, Of, Cut;
      ghost var sh := Of(ever);
      CutFacts(sh, nodes, k);
      AllPointers(ever);
      Bypass(n, k);
      n.next := null;
      n.prev := null;
      n.invalid := true;
      size := size - 1;
      CutNow(sh, ever, nodes, k);
    }

    method Bypass(n: Node, ghost k: nat)
      requires k < |nodes| && n == nodes[k] && n in ever && n.next == At(nodes, k + 1) && n.prev == At(nodes, k - 1)
      requires (n.next != null ==> n.next in ever && n.next != n) && (n.prev != null ==> n.prev in ever && n.prev != n)
      modifies this`head, this`tail, ever`next, ever`prev
      ensures forall m | m in ever :: m.next == if m == At(nodes, k - 1) then At(nodes, k + 1) else old(m.next)
      ensures forall m | m in ever :: m.prev == if m == At(nodes, k + 1) then At(nodes, k - 1) else old(m.prev)
      ensures head == if k == 0 then At(nodes, 1) else old(head)
      ensures tail == if k == |nodes| - 1 then At(nodes, k - 1) else old(tail)
    {
      if n.next != null {
        n.next.prev := n.prev;
      } else {
        tail := n.prev;
      }
      if n.prev != null {
        n.prev.next := n.next;
      } else {
        head := n.next;
      }
    }

    method LinkAfter(n: Node, pos: Node, ghost k: nat)
      requires Chain(Of(ever), nodes) && n !in ever && 0 < k <= |nodes| && pos == nodes[k - 1]
      modifies this`tail, ever`next, ever`prev, n`next, n`prev
      ensures n.next == At(nodes, k) && n.prev == pos && tail == if k == |nodes| then n else old(tail)
      ensures forall m | m in ever :: m.next == if m == pos then n else old(m.next)
      ensures forall m | m in ever :: m.prev == if m == At(nodes, k) then n else old(m.prev)
    {
      Neighbours(Of(ever), nodes, k);
      Pointers(ever, pos);
      hide Chain;
      if pos.next != null {
        pos.next.prev := n;
      } else {
        tail := n;
      }
      n.next := pos.next;
      pos.next := n;
      n.prev := pos;
    }

    method LinkFirst(n: Node)
      requires Chain(Of(ever), nodes) && n !in ever && head == At(nodes, 0)
      modifies this`head, this`tail, ever`prev, n`next
      ensures n.next == At(nodes, 0) && head == n && tail == if |nodes| == 0 then n else old(tail)
      ensures forall m | m in ever :: m.prev == if m == At(nodes, 0) then n else old(m.prev)
    {
      Neighbours(Of(ever), nodes, 0);
      hide Chain;
      n.next := head;
      if head != null {
        head.prev := n;
      } else {
        tail := n;
      }
      head := n;
    }
  }

  lemma Pointers(ever: set<Node>, m: Node)
    requires m in ever
    ensures m.next == Of(ever).next[m] && m.prev == Of(ever).prev[m] && m.invalid == Of(ever).bad[m]
  {
  }

  lemma InsertedEnds(nodes: seq<Node>, k: nat, n: Node)
    requires k <= |nodes|
    ensures var s := Inserted(nodes, k, n);
      && |s| == |nodes| + 1
      && At(s, 0) == (if k == 0 then n else At(nodes, 0))
      && At(s, |nodes|) == (if k == |nodes| then n else At(nodes, |nodes| - 1))
  {
  }

  lemma InsertedFirst(nodes: seq<Node>, n: Node)
    ensures Inserted(nodes, 0, n) == [n] + nodes && Data([n] + nodes) == [n.data] + Data(nodes)
  {
  }

  lemma InsertedLast(nodes: seq<Node>, n: Node)
    ensures Inserted(nodes, |nodes|, n) == nodes + [n] && Data(nodes + [n]) == Data(nodes) + [n.data]
  {
    DataAppend(nodes, n);
    hide Data;
    assert nodes[..|nodes|] == nodes && nodes[|nodes|..] == [];
  }

  lemma DataAppend(nodes: seq<Node>, n: Node)
    ensures Data(nodes + [n]) == Data(nodes) + [n.data]
  {
  }

  lemma AtIs(nodes: seq<Node>, i: nat)
    ensures At(nodes, i) != null <==> i < |nodes|
    ensures i < |nodes| ==> At(nodes, i) == nodes[i]
  {
  }

  lemma DataTake(nodes: seq<Node>, i: nat)
    requires i <= |nodes|
    ensures i < |nodes| ==> Data(nodes[..i + 1]) == Data(nodes[..i]) + [nodes[i].data]
    ensures i == 0 ==> Data(nodes[..i]) == []
    ensures i == |nodes| ==> nodes[..i] == nodes
  {
  }

  lemma OneTimer(ever: set<Node>, n: Node)
    ensures TimersOf(ever + {n}) == TimersOf(ever) + if n.timer then {n} else {}
  {
  }

  lemma InsertedMembers(nodes: seq<Node>, k: nat, n: Node)
    requires k <= |nodes|
    ensures SetOf(Inserted(nodes, k, n)) == SetOf(nodes) + {n}
  {
  }

  lemma ChainDropped(sh: Shape, nodes: seq<Node>, k: nat)
    requires Chain(sh, nodes) && k < |nodes|
    ensures var s := Dropped(nodes, k);
      && |s| == |nodes| - 1
      && SetOf(s) == SetOf(nodes) - {nodes[k]}
      && At(s, 0) == (if k == 0 then At(nodes, 1) else At(nodes, 0))
      && At(s, |s| - 1) == (if k == |nodes| - 1 then At(nodes, k - 1) else At(nodes, |nodes| - 1))
  {
  }

  lemma AllPointers(ever: set<Node>)
    ensures var sh := Of(ever);
      forall m | m in ever :: m.next == sh.next[m] && m.prev == sh.prev[m] && m.invalid == sh.bad[m]
  {
  }

  lemma CutNow(sh: Shape, ever: set<Node>, nodes: seq<Node>, k: nat)
    requires sh.next.Keys == sh.prev.Keys == sh.bad.Keys == ever && k < |nodes|
    requires forall m | m in ever :: m.next == NextAfterCut(sh, nodes, k, m)
    requires forall m | m in ever :: m.prev == PrevAfterCut(sh, nodes, k, m)
    requires forall m | m in ever :: m.invalid == (m == nodes[k] || sh.bad[m])
    ensures Cut(sh, Of(ever), nodes, k)
  {
  }

  lemma CutFacts(sh: Shape, nodes: seq<Node>, k: nat)
    requires Chain(sh, nodes) && k < |nodes|
    ensures nodes[k] in sh.next && nodes[k] in sh.prev
    ensures sh.next[nodes[k]] == At(nodes, k + 1) && sh.prev[nodes[k]] == At(nodes, k - 1)
    ensures k > 0 ==> nodes[k - 1] in sh.next && nodes[k - 1] != nodes[k]
    ensures k + 1 < |nodes| ==> nodes[k + 1] in sh.next && nodes[k + 1] != nodes[k]
  {
    assert Linked(sh, nodes, k) && Linked(sh, nodes, k + 1) && Linked(sh, nodes, Before(k));
  }

  lemma Neighbours(sh: Shape, nodes: seq<Node>, k: nat)
    requires Chain(sh, nodes) && k <= |nodes|
    ensures k > 0 ==> nodes[k - 1] in sh.next && sh.next[nodes[k - 1]] == At(nodes, k)
    ensures k < |nodes| ==> nodes[k] in sh.prev && sh.prev[nodes[k]] == At(nodes, k - 1)
    ensures sh.next.Keys == sh.prev.Keys == sh.bad.Keys
    ensures 0 < k < |nodes| ==> nodes[k - 1] != nodes[k]
  {
    assert Linked(sh, nodes, k) && Linked(sh, nodes, Before(k));
  }

  // ----- Iterators

  // Where a node is in the list; the end for null.
  ghost function PosOf(nodes: seq<Node>, n: Node?): (k: nat)
    ensures k <= |nodes| && (k < |nodes| ==> nodes[k] == n) && forall i | 0 <= i < k :: nodes[i] != n
  {
    if nodes == [] || nodes[0] == n then 0 else 1 + PosOf(nodes[1..], n)
  }

  // The iterator has come from its list.
  ghost predicate Genuine(i: Iter)
    reads i.list, if i.list == null then {} else i.list.ever, if i.list == null then {} else i.list.Manager()
  {
    if i.list == null then i.node == null else i.list.Valid() && (i.node != null ==> i.node in i.list.ever)
  }

  // The iterator denotes an element, or the end.
  ghost predicate Usable(i: Iter)
    reads i.list
  {
    i.list != null && (i.node != null ==> i.node in i.list.nodes)
  }

  // The node at k, and where it is
  lemma Place(l: List, n: Node?, k: nat)
    requires l.Valid() && k == PosOf(l.nodes, n) && (n != null ==> n in l.ever)
    ensures n != null ==> (n.invalid <==> k == |l.nodes|)
    ensures n == null ==> k == |l.nodes|
    ensures k < |l.nodes| ==> n != null && n.next == At(l.nodes, k + 1) && n.prev == At(l.nodes, k - 1)
    ensures l.tail == At(l.nodes, |l.nodes| - 1) && l.head == At(l.nodes, 0)
  {
    if k < |l.nodes| {
      l.Follow(k);
    }
    if n != null {
      l.InvalidIff(n);
    }
    l.Ends();
  }

  // hlt_list_insert: before the iterator's node; the node stays what it is.
  method Insert(val: Elem, i: Iter) returns (r: Result<(), Error>, ghost n: Node?)
    requires Genuine(i)
    modifies i.list, if i.list == null then {} else i.list.ever, if i.list == null then {} else i.list.Manager()
    ensures Genuine(i) && (r.Ok? <==> old(Usable(i))) && (r.Err? ==> r.error == InvalidIterator)
    ensures i.list != null ==> i.list.Settings() == old(i.list.Settings())
    ensures i.list != null && r.Err? ==> i.list.nodes == old(i.list.nodes) && i.list.ever == old(i.list.ever)
    ensures r.Ok? ==>
      && n != null && fresh(n) && n.data == val && (n.timer <==> i.list.Scheduled())
      && i.list.nodes == Inserted(old(i.list.nodes), PosOf(old(i.list.nodes), i.node), n)
      && i.list.ever == old(i.list.ever) + {n}
      && i.list.Planned(old(i.list.Timers()), i.list.Timers(), n)
    ensures i.list != null && r.Err? ==> i.list.Timers() == old(i.list.Timers())
    ensures i.list != null ==>
      && old(i.list.Pending()) <= i.list.Pending() && fresh(i.list.Pending() - old(i.list.Pending()))
      && i.list.Now() == old(i.list.Now())
  {
    if i.list == null {
      return Err(InvalidIterator), null;
    }
    ghost var k := PosOf(i.list.nodes, i.node);
    Place(i.list, i.node, k);
    hide Chain, Of, Inserted, PosOf, SetOf, TimersOf, List.Contents, List.Planned;
    if i.node != null && i.node.invalid {
      return Err(InvalidIterator), null;
    }
    if i.node == null {
      n := i.list.PutAt(val, i.list.tail, k);
    } else {
      n := i.list.PutAt(val, i.node.prev, k);
    }
    return Ok(()), n;
  }

  // hlt_list_erase
  method Erase(i: Iter) returns (r: Result<(), Error>)
    requires Genuine(i)
    modifies i.list, if i.list == null then {} else i.list.ever, if i.list == null then {} else i.list.Manager()
    ensures Genuine(i) && (r.Ok? <==> old(Usable(i)) && i.node != null) && (r.Err? ==> r.error == InvalidIterator)
    ensures i.list != null ==> i.list.ever == old(i.list.ever) && i.list.Settings() == old(i.list.Settings())
    ensures i.list != null && r.Err? ==> i.list.nodes == old(i.list.nodes)
    ensures r.Ok? ==>
      && i.list.nodes == Dropped(old(i.list.nodes), PosOf(old(i.list.nodes), i.node))
      && i.node.invalid && !Usable(i)
    ensures i.list != null ==>
      && i.list.Timers() == (if r.Ok? then old(i.list.Timers()) - {i.node} else old(i.list.Timers()))
      && i.list.Now() == old(i.list.Now())
  {
    if i.list == null {
      return Err(InvalidIterator);
    }
    ghost var k := PosOf(i.list.nodes, i.node);
    Place(i.list, i.node, k);
    if i.node == null || i.node.invalid {
      return Err(InvalidIterator);
    }
    i.list.UnlinkReady(k);
    hide Chain, Of, PosOf;
    i.list.Unlink(i.node, true, k);
    i.list.InvalidIff(i.node);
    return Ok(());
  }

  // hlt_list_begin
  method Begin(l: List) returns (i: Iter)
    requires l.Valid()
    ensures Genuine(i) && Usable(i) && i.list == l && PosOf(l.nodes, i.node) == 0
  {
    l.Ends();
    return Iter(l, l.head);
  }

  // hlt_list_end
  method End(l: List) returns (i: Iter)
    requires l.Valid()
    ensures Genuine(i) && Usable(i) && i.list == l && PosOf(l.nodes, i.node) == |l.nodes|
  {
    Place(l, null, PosOf(l.nodes, null));
    return Iter(l, null);
  }

  // hlt_iterator_list_incr: the next position, and the end stays the end.
  method Incr(i: Iter) returns (r: Result<Iter, Error>)
    requires Genuine(i)
    ensures (r.Ok? <==> Usable(i)) && (r.Err? ==> r.error == InvalidIterator)
    ensures r.Ok? ==>
      && Genuine(r.value) && Usable(r.value) && r.value.list == i.list
      && var k := PosOf(i.list.nodes, i.node);
        PosOf(i.list.nodes, r.value.node) == if k < |i.list.nodes| then k + 1 else k
  {
    if i.list == null {
      return Err(InvalidIterator);
    }
    ghost var nodes, k := i.list.nodes, PosOf(i.list.nodes, i.node);
    Place(i.list, i.node, k);
    if i.node != null && i.node.invalid {
      return Err(InvalidIterator);
    }
    if i.node == null {
      return Ok(i);
    }
    i.list.Ends();
    NextPos(i.list, k);
    return Ok(Iter(i.list, i.node.next));
  }

  lemma NextPos(l: List, k: nat)
    requires l.Valid() && k < |l.nodes|
    ensures PosOf(l.nodes, At(l.nodes, k + 1)) == k + 1
  {
  }

  // hlt_iterator_list_deref
  method Deref(i: Iter) returns (r: Result<Elem, Error>)
    requires Genuine(i)
    modifies if i.list == null then {} else i.list.Manager()
    ensures Genuine(i) && (r.Ok? <==> Usable(i) && i.node != null) && (r.Err? ==> r.error == InvalidIterator)
    ensures r.Ok? ==> r.value == i.node.data == i.list.Contents()[PosOf(i.list.nodes, i.node)]
    ensures i.list != null ==>
      && i.list.Pending() == old(i.list.Pending()) && i.list.Now() == old(i.list.Now())
      && if r.Ok? then i.list.Moved(old(i.list.Timers()), i.list.Timers(), i.node)
         else i.list.Timers() == old(i.list.Timers())
  {
    if i.list == null || i.node == null {
      return Err(InvalidIterator);
    }
    Place(i.list, i.node, PosOf(i.list.nodes, i.node));
    if i.node.invalid {
      return Err(InvalidIterator);
    }
    hide List.Shaped, List.Timed;
    i.list.Touch(i.node);
    return Ok(i.node.data);
  }

  // hlt_iterator_list_eq, of any two iterators
  method Eq(i: Iter, j: Iter) returns (r: bool)
    requires Genuine(i) && Genuine(j)
    modifies if i.list == null then {} else i.list.Manager(), if j.list == null then {} else j.list.Manager()
    ensures Genuine(i) && Genuine(j) && (r <==> i == j)
    ensures Usable(i) && Usable(j) && i.list == j.list ==>
      (r <==> PosOf(i.list.nodes, i.node) == PosOf(i.list.nodes, j.node))
  {
    SamePlace(i, j);
    hide Genuine, Usable;
    TouchAt(i, j);
    TouchAt(j, i);
    return i.list == j.list && i.node == j.node;
  }

  lemma SamePlace(i: Iter, j: Iter)
    requires Genuine(i) && Genuine(j)
    ensures Usable(i) && Usable(j) && i.list == j.list ==>
      (i == j <==> PosOf(i.list.nodes, i.node) == PosOf(i.list.nodes, j.node))
  {
    if Usable(i) && Usable(j) && i.list == j.list {
      Place(i.list, i.node, PosOf(i.list.nodes, i.node));
      Place(i.list, j.node, PosOf(i.list.nodes, j.node));
    }
  }

  // The other iterator may belong to a list with the same timer manager.
  method TouchAt(i: Iter, other: Iter)
    requires Genuine(i) && Genuine(other)
    modifies if i.list == null then {} else i.list.Manager()
    ensures Genuine(i) && Genuine(other)
  {
    hide List.Shaped;
    if i.node != null {
      i.list.Touch(i.node);
    }
  }
}
