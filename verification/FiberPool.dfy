/**
  The pools of libhilti/fiber.c as singly linked lists: what the loops over them do to the lists that the protocol
  of module Fiber works with.
*/
module FiberPool {
  import opened Sequences
  import opened Wrappers
  import opened Fiber

  class Node {
    const id: Fid
    var next: Node?

    constructor (id: Fid)
      ensures this.id == id && next == null
    {
      this.id, next := id, null;
    }
  }

  ghost function At(nodes: seq<Node>, i: int): Node? {
    if 0 <= i < |nodes| then nodes[i] else null
  }

  ghost predicate Linked(nodes: seq<Node>)
    reads nodes
  {
    forall i | 0 <= i < |nodes| :: nodes[i].next == At(nodes, i + 1)
  }

  ghost predicate Unique(nodes: seq<Node>) {
    forall i, j | 0 <= i < j < |nodes| :: nodes[i] != nodes[j]
  }

  ghost function IdsOf(nodes: seq<Node>): (ids: seq<Fid>)
    ensures |ids| == |nodes| && forall i | 0 <= i < |ids| :: ids[i] == nodes[i].id
  {
    if nodes == [] then [] else [nodes[0].id] + IdsOf(nodes[1..])
  }

  class LinkedPool {
    var head: Node?
    var size: int
    ghost var nodes: seq<Node>

    ghost predicate Valid()
      reads this, nodes
    {
      Linked(nodes) && Unique(nodes) && head == At(nodes, 0) && size == |nodes|
    }

    // What the protocol knows of the pool
    ghost function Abs(): Pool
      reads this
    {
      Pool(IdsOf(nodes), size)
    }

    // __hlt_fiber_pool_new
    constructor ()
      ensures Valid() && nodes == [] && Abs() == Pool([], 0)
    {
      head, size, nodes := null, 0, [];
    }

    // The end of hlt_fiber_delete: a fiber that is in no list goes to the front.
    method Push(f: Node)
      requires Valid() && f !in nodes
      modifies this, f
      ensures Valid() && nodes == [f] + old(nodes)
      ensures Abs() == Pool([f.id] + old(Abs()).list, old(Abs()).size + 1)
    {
      hide IdsOf;
      ghost var was := nodes;
      f.next := head;
      head := f;
      size := size + 1;
      nodes := [f] + nodes;
      assert forall i | 0 < i < |nodes| :: nodes[i] == was[i - 1];
      assert IdsOf(nodes) == [f.id] + IdsOf(was);
    }

    // hlt_fiber_create, for a pool that is not empty
    method Pop() returns (f: Node)
      requires Valid() && head != null
      modifies this, head
      ensures Valid() && old(nodes) == [f] + nodes && f.next == null
      ensures Abs() == Pool(old(Abs()).list[1..], old(Abs()).size - 1) && f.id == old(Abs()).list[0]
    {
      f := Unhook();
      f.next := null;
    }

    method Unhook() returns (f: Node)
      requires Valid() && head != null
      modifies this
      ensures Valid() && old(nodes) == [f] + nodes
      ensures Abs() == Pool(old(Abs()).list[1..], old(Abs()).size - 1) && f.id == old(Abs()).list[0]
    {
      hide IdsOf;
      ghost var was := nodes;
      f := head;
      head := f.next;
      size := size - 1;
      nodes := nodes[1..];
      assert forall i | 0 <= i < |nodes| :: nodes[i] == was[i + 1];
      assert IdsOf(nodes) == IdsOf(was)[1..];
    }

    // The loop of hlt_fiber_create under the lock
    method TakeFrom(global: LinkedPool, max: nat)
      requires Valid() && global.Valid() && global != this && forall f | f in nodes :: f !in global.nodes
      modifies this, global, global.nodes
      ensures Valid() && global.Valid() && forall f | f in nodes :: f !in global.nodes
      ensures var k := Refill(max, |old(global.nodes)|);
        && Abs() == Pool(Reversed(old(global.Abs()).list[..k]) + old(Abs()).list, old(Abs()).size + k)
        && global.Abs() == Pool(old(global.Abs()).list[k..], old(global.Abs()).size - k)
        && nodes == Reversed(old(global.nodes)[..k]) + old(nodes) && global.nodes == old(global.nodes)[k..]
    {
      hide IdsOf, Valid, Abs, Reversed;
      global.Facts();
      ghost var was, ids, mine := global.nodes, global.Abs().list, Abs().list;
      ghost var k := 0;
      var n := max / 5;
      ReversedNone(ids, mine);
      ReversedNone(was, nodes);
      Facts();
      while global.head != null && n > 0
        invariant 0 <= k <= |was| == |ids| && k + n == max / 5 && n >= 0
        invariant Valid() && global.Valid()
        invariant nodes == Reversed(was[..k]) + old(nodes) && global.nodes == was[k..]
        invariant forall f | f in nodes :: f !in global.nodes
        invariant Abs() == Pool(Reversed(ids[..k]) + mine, old(Abs()).size + k)
        invariant global.Abs() == Pool(ids[k..], old(global.Abs()).size - k)
        decreases n
      {
        n := n - 1;
        global.Facts();
        MoveOne(global);
        ReversedStep(ids, k, mine);
        ReversedStep(was, k, old(nodes));
        k := k + 1;
      }
      global.Facts();
    }

    lemma Facts()
      requires Valid()
      ensures (head == null <==> nodes == []) && |Abs().list| == |nodes| && Abs().size == |nodes|
      ensures head != null ==> head == nodes[0] && head !in nodes[1..]
    {
    }

    method MoveOne(global: LinkedPool)
      requires Valid() && global.Valid() && global != this && global.head != null
      requires forall f | f in nodes :: f !in global.nodes
      modifies this, global, global.nodes
      ensures Valid() && global.Valid()
      ensures global.nodes == old(global.nodes)[1..] && nodes == [old(global.nodes)[0]] + old(nodes)
      ensures forall f | f in nodes :: f !in global.nodes
      ensures Abs() == Pool([old(global.Abs()).list[0]] + old(Abs()).list, old(Abs()).size + 1)
      ensures global.Abs() == Pool(old(global.Abs()).list[1..], old(global.Abs()).size - 1)
    {
      hide IdsOf;
      ghost var was := global.nodes;
      var f := global.Unhook();
      assert f == was[0] && f !in global.nodes;
      Push(f);
    }

    // The splice of hlt_fiber_delete: the whole local pool goes to the end of the global one.
    method HandOver(global: LinkedPool)
      requires Valid() && global.Valid() && global != this && forall f | f in nodes :: f !in global.nodes
      modifies this, global, global.nodes
      ensures Valid() && global.Valid() && Abs() == Pool([], 0)
      ensures nodes == [] && global.nodes == old(global.nodes) + old(nodes)
      ensures global.Abs() == Pool(old(global.Abs()).list + old(Abs()).list, old(global.Abs()).size + old(Abs()).size)
    {
      hide IdsOf, Linked, Unique, At;
      Attach(global);
      ghost var was, mine := global.nodes, nodes;
      global.size := global.size + size;
      global.nodes := was + mine;
      head, size, nodes := null, 0, [];
      NoNodes();
      Joined(was, mine);
      JoinLinked(was, mine);
    }

    // The global pool's last fiber, if there is any, is followed by this pool's first.
    method Attach(global: LinkedPool)
      requires Valid() && global.Valid() && global != this && forall f | f in nodes :: f !in global.nodes
      modifies global`head, global.nodes`next
      ensures forall i | 0 <= i < |global.nodes| - 1 :: global.nodes[i].next == global.nodes[i + 1]
      ensures global.nodes != [] ==> global.nodes[|global.nodes| - 1].next == At(nodes, 0)
      ensures Linked(nodes) && Unique(nodes) && Unique(global.nodes)
      ensures global.head == if global.nodes != [] then global.nodes[0] else At(nodes, 0)
    {
      ghost var was, mine := global.nodes, nodes;
      var tail := global.Last();
      assert tail != null ==> tail in was && tail !in mine;
      if tail != null {
        tail.next := head;
      } else {
        global.head := head;
      }
    }

    // The search for the tail of the global pool
    method Last() returns (tail: Node?)
      requires Valid()
      ensures tail == At(nodes, |nodes| - 1)
    {
      tail := head;
      ghost var i := 0;
      while tail != null && tail.next != null
        invariant 0 <= i <= |nodes| && tail == At(nodes, i) && (nodes != [] ==> i < |nodes|)
        decreases |nodes| - i
      {
        tail := tail.next;
        i := i + 1;
      }
    }
  }

  lemma NoNodes()
    ensures Linked([]) && Unique([]) && At([], 0) == null && IdsOf([]) == []
  {
  }

  lemma JoinLinked(a: seq<Node>, b: seq<Node>)
    requires forall i | 0 <= i < |a| - 1 :: a[i].next == a[i + 1]
    requires a != [] ==> a[|a| - 1].next == At(b, 0)
    requires Linked(b) && Unique(a) && Unique(b) && forall n | n in b :: n !in a
    ensures Linked(a + b) && Unique(a + b)
    ensures At(a + b, 0) == if a != [] then a[0] else At(b, 0)
  {
    forall i | 0 <= i < |a| + |b|
      ensures (a + b)[i].next == At(a + b, i + 1)
    {
      assert i >= |a| ==> (a + b)[i] == b[i - |a|];
    }
    forall i, j | 0 <= i < j < |a| + |b|
      ensures (a + b)[i] != (a + b)[j]
    {
      assert j >= |a| ==> (a + b)[j] == b[j - |a|] && b[j - |a|] in b;
      assert i < |a| ==> (a + b)[i] in a;
    }
  }

  lemma Joined(a: seq<Node>, b: seq<Node>)
    ensures IdsOf(a + b) == IdsOf(a) + IdsOf(b)
  {
    hide IdsOf;
  }

  lemma ReversedNone<T>(s: seq<T>, mine: seq<T>)
    ensures Reversed(s[..0]) + mine == mine && s[0..] == s
  {
  }

  lemma ReversedStep<T>(s: seq<T>, k: nat, mine: seq<T>)
    requires k < |s|
    ensures Reversed(s[..k + 1]) + mine == [s[k]] + (Reversed(s[..k]) + mine)
  {
    assert s[..k + 1] == s[..k] + [s[k]];
    assert Reversed(s[..k + 1]) == [s[k]] + Reversed(s[..k]);
  }

  // ----- hlt_fiber_create and hlt_fiber_delete as a whole

  ghost predicate Disjoint(local: LinkedPool, global: LinkedPool)
    reads local, global
  {
    local != global && forall f | f in local.nodes :: f !in global.nodes
  }

  // The two pools are the protocol's pools of thread t.
  ghost predicate Mirrors(s: Sys, t: Tid, local: LinkedPool, global: LinkedPool)
    reads local, global
  {
    && t in s.local && s.local[t] == local.Abs() && s.global == global.Abs()
    && (forall f | f in s.local[t].list :: f in s.fibers) && forall f | f in s.global.list :: f in s.fibers
  }

  // The nodes that both pools hold
  ghost function NodesOf(local: LinkedPool, global: LinkedPool): set<Node>
    reads local, global
  {
    (set f | f in local.nodes) + (set f | f in global.nodes)
  }

  lemma RefilledMirrors(s: Sys, t: Tid)
    requires t in s.local && (forall f | f in s.local[t].list :: f in s.fibers)
    requires forall f | f in s.global.list :: f in s.fibers
    ensures var s' := Refilled(s, t);
      s'.fibers.Keys == s.fibers.Keys && (forall f | f in s'.local[t].list :: f in s.fibers)
      && forall f | f in s'.global.list :: f in s.fibers
  {
    ReversedMembers(s.global.list[..Refill(s.max, |s.global.list|)]);
  }

  // How many fibers an empty pool is given: a fifth of the maximum, or all there are.
  function Wanted(mine: nat, available: nat, multi: bool, seen: bool, max: nat): (k: nat)
    ensures k <= available && 5 * k <= max
    ensures k > 0 ==> mine == 0 && multi && seen
    ensures mine == 0 && multi && seen ==> k == available || max < 5 * (k + 1)
  {
    if mine > 0 || !multi || !seen then 0 else if max / 5 <= available then max / 5 else available
  }

  // The first half of hlt_fiber_create: an empty local pool is refilled. `seen` is what the check without the lock has
  // found.
  method RefillPool(local: LinkedPool, global: LinkedPool, multi: bool, seen: bool, max: nat,
      ghost s: Sys, ghost t: Tid)
    returns (ghost s': Sys)
    requires local.Valid() && global.Valid() && Disjoint(local, global) && Mirrors(s, t, local, global)
    requires s.multi == multi && s.max == max
    modifies local, global, global.nodes
    ensures local.Valid() && global.Valid() && Disjoint(local, global) && Mirrors(s', t, local, global)
    ensures s' == if s.local[t].list == [] && multi && seen then Refilled(s, t) else s
    ensures var k := Wanted(|old(local.nodes)|, |old(global.nodes)|, multi, seen, max);
      local.nodes == Reversed(old(global.nodes)[..k]) + old(local.nodes) && global.nodes == old(global.nodes)[k..]
    ensures NodesOf(local, global) <= old(NodesOf(local, global))
  {
    hide IdsOf, Reversed, LinkedPool.Valid;
    s' := s;
    local.Facts();
    global.Facts();
    if local.head == null && multi && seen {
      RefilledMirrors(s, t);
      ReversedMembers(global.nodes[..Refill(max, |global.nodes|)]);
      local.TakeFrom(global, max);
      s' := Refilled(s, t);
    }
  }

  // hlt_fiber_create; a fiber from the pool is used again, with the new job, and otherwise there is a new one.
  method CreateFiber(local: LinkedPool, global: LinkedPool, multi: bool, seen: bool, max: nat, fid: Fid,
      ghost s: Sys, ghost t: Tid, ghost job: Job, ghost cookie: Cookie)
    returns (f: Node)
    requires local.Valid() && global.Valid() && Disjoint(local, global) && Mirrors(s, t, local, global)
    requires s.multi == multi && s.max == max && fid !in s.fibers
    modifies local, global, NodesOf(local, global)
    ensures local.Valid() && global.Valid() && Disjoint(local, global)
    ensures Mirrors(Created(s, t, seen, fid, job, cookie), t, local, global)
    ensures NodesOf(local, global) <= old(NodesOf(local, global))
    ensures f !in NodesOf(local, global) && (fresh(f) || f in old(NodesOf(local, global))) && f.next == null
    ensures var fibers := Created(s, t, seen, fid, job, cookie).fibers;
      f.id in fibers && fibers[f.id].place == InUse && fibers[f.id].run == Some(job) && fibers[f.id].cookie == cookie
    ensures var k := Wanted(|old(local.nodes)|, |old(global.nodes)|, multi, seen, max);
      && Served(old(local.nodes), old(global.nodes), k, f, local.nodes, global.nodes)
      && (old(local.nodes) == [] && k == 0 ==> fresh(f) && f.id == fid)
  {
    hide IdsOf, Reversed, Refilled, Created, Wanted, NodesOf, Disjoint, LinkedPool.Valid;
    local.Facts();
    OnlyInGlobal(local, global);
    ghost var s1 := RefillPool(local, global, multi, seen, max, s, t);
    ghost var pool, shared := local.nodes, global.nodes;
    local.Facts();
    CreatedPools(s, t, seen, fid, job, cookie, s1);
    f := TakeOrMake(local, global, fid);
    assert Served(old(local.nodes), old(global.nodes),
      Wanted(|old(local.nodes)|, |old(global.nodes)|, multi, seen, max), f, local.nodes, global.nodes);
  }

  // A fiber is taken from the front of the pool, after k have been moved to it one by one; if there is none, it is
  // made.
  ghost predicate Served(mine: seq<Node>, shared: seq<Node>, k: nat, f: Node, mine': seq<Node>, shared': seq<Node>)
    requires k <= |shared|
  {
    var pool := Reversed(shared[..k]) + mine;
    shared' == shared[k..] && if pool == [] then mine' == [] else f == pool[0] && mine' == pool[1..]
  }

  lemma CreatedPools(s: Sys, t: Tid, seen: bool, fid: Fid, job: Job, cookie: Cookie, s1: Sys)
    requires t in s.local && fid !in s.fibers
    requires s1 == if s.local[t].list == [] && s.multi && seen then Refilled(s, t) else s
    requires t in s1.local && (forall f | f in s1.local[t].list :: f in s1.fibers)
    requires forall f | f in s1.global.list :: f in s1.fibers
    ensures var s', l := Created(s, t, seen, fid, job, cookie), s1.local[t];
      && t in s'.local && s'.global == s1.global
      && s'.local[t] == (if l.list == [] then l else Pool(l.list[1..], l.size - 1))
      && (forall f | f in s1.fibers :: f in s'.fibers)
      && var f := if l.list == [] then fid else l.list[0];
        f in s'.fibers && s'.fibers[f].place == InUse && s'.fibers[f].run == Some(job) && s'.fibers[f].cookie == cookie
  {
    hide Refilled;
  }

  // The second half: the first fiber of the pool, or a new one
  method TakeOrMake(local: LinkedPool, global: LinkedPool, fid: Fid) returns (f: Node)
    requires local.Valid() && global.Valid() && Disjoint(local, global)
    modifies local, NodesOf(local, global)
    ensures local.Valid() && global.Valid() && Disjoint(local, global) && global.Abs() == old(global.Abs())
    ensures NodesOf(local, global) <= old(NodesOf(local, global)) && f !in NodesOf(local, global) && f.next == null
    ensures global.nodes == old(global.nodes)
    ensures old(local.nodes) == [] ==> fresh(f) && f.id == fid && local.nodes == [] && local.Abs() == old(local.Abs())
    ensures old(local.nodes) != [] ==>
      && f == old(local.nodes)[0] && f in old(NodesOf(local, global)) && local.nodes == old(local.nodes)[1..]
      && old(local.Abs()).list != [] && f.id == old(local.Abs()).list[0]
      && local.Abs() == Pool(old(local.Abs()).list[1..], old(local.Abs()).size - 1)
  {
    hide IdsOf, LinkedPool.Valid;
    local.Facts();
    if local.head != null {
      assert local.nodes[0] in local.nodes && local.head !in global.nodes;
      f := local.Pop();
    } else {
      f := new Node(fid);
    }
  }

  method HandOverPool(local: LinkedPool, global: LinkedPool, ghost s: Sys, ghost t: Tid)
    requires local.Valid() && global.Valid() && Disjoint(local, global) && Mirrors(s, t, local, global)
    modifies local, global, global.nodes
    ensures local.Valid() && global.Valid() && Disjoint(local, global) && Mirrors(HandedOver(s, t), t, local, global)
    ensures NodesOf(local, global) == old(NodesOf(local, global)) && HandedOver(s, t).fibers.Keys == s.fibers.Keys
    ensures forall f | f in HandedOver(s, t).global.list :: f in s.local[t].list || f in s.global.list
    ensures local.nodes == [] && global.nodes == old(global.nodes) + old(local.nodes)
  {
    hide IdsOf, LinkedPool.Valid;
    local.HandOver(global);
  }

  method PushPool(local: LinkedPool, global: LinkedPool, f: Node, ghost s: Sys, ghost t: Tid)
    requires local.Valid() && global.Valid() && Disjoint(local, global) && Mirrors(s, t, local, global)
    requires f !in NodesOf(local, global) && f.id in s.fibers
    modifies local, f
    ensures local.Valid() && global.Valid() && Disjoint(local, global) && Mirrors(Pushed(s, t, f.id), t, local, global)
    ensures NodesOf(local, global) == old(NodesOf(local, global)) + {f}
    ensures local.nodes == [f] + old(local.nodes)
  {
    hide IdsOf, LinkedPool.Valid;
    local.Push(f);
  }

  // A full pool is handed over, and f is the only one in it.
  method MakeRoom(local: LinkedPool, global: LinkedPool, f: Node, ghost s: Sys, ghost t: Tid)
    requires local.Valid() && global.Valid() && Disjoint(local, global) && Mirrors(s, t, local, global)
    requires f !in NodesOf(local, global) && f.id in s.fibers
    modifies local, global, NodesOf(local, global), f
    ensures local.Valid() && global.Valid() && Disjoint(local, global)
    ensures HandedOver(s, t).fibers.Keys == s.fibers.Keys && t in HandedOver(s, t).local
    ensures Mirrors(Pushed(HandedOver(s, t), t, f.id), t, local, global)
    ensures NodesOf(local, global) == old(NodesOf(local, global)) + {f}
    ensures local.nodes == [f] && global.nodes == old(global.nodes) + old(local.nodes)
  {
    assert local != global;
    OnlyInGlobal(local, global);
    hide IdsOf, LinkedPool.Valid, NodesOf, Disjoint, Mirrors;
    HandOverPool(local, global, s, t);
    PushPool(local, global, f, HandedOver(s, t), t);
  }

  lemma OnlyInGlobal(local: LinkedPool, global: LinkedPool)
    ensures forall f | f in global.nodes :: f in NodesOf(local, global)
  {
  }

  lemma RecycledIs(s: Sys, t: Tid, f: Fid, seen: bool)
    requires t in s.local && f in s.fibers
    ensures HandedOver(s, t).fibers.Keys == s.fibers.Keys && t in HandedOver(s, t).local
    ensures Recycled(s, t, f, seen) ==
      if s.local[t].size < s.max then Pushed(s, t, f)
      else if s.multi && seen && s.global.size <= 10 * s.max then Pushed(HandedOver(s, t), t, f)
      else s.(fibers := s.fibers - {f})
    ensures f in Pushed(s, t, f).fibers && f in Pushed(HandedOver(s, t), t, f).fibers
  {
  }

  lemma FreedMirrors(s: Sys, t: Tid, f: Fid, local: LinkedPool, global: LinkedPool)
    requires Mirrors(s, t, local, global) && f !in s.local[t].list && f !in s.global.list
    ensures Mirrors(s.(fibers := s.fibers - {f}), t, local, global)
  {
  }

  // A fiber that is kept comes first in the pool; if that is full, all others go to the end of the global one.
  ghost predicate Returned(mine: seq<Node>, shared: seq<Node>, max: nat, kept: bool, f: Node,
      mine': seq<Node>, shared': seq<Node>) {
    if !kept then mine' == mine && shared' == shared
    else if |mine| < max then mine' == [f] + mine && shared' == shared
    else mine' == [f] && shared' == shared + mine
  }

  // hlt_fiber_delete with a context, for a fiber that is in no pool; the result says whether it is kept, and `seen` is
  // what the check without the lock has found.
  method DeleteFiber(local: LinkedPool, global: LinkedPool, f: Node, multi: bool, seen: bool, max: nat,
      ghost s: Sys, ghost t: Tid)
    returns (kept: bool)
    requires local.Valid() && global.Valid() && Disjoint(local, global) && Mirrors(s, t, local, global)
    requires s.multi == multi && s.max == max && f !in NodesOf(local, global) && f.next == null
    requires f.id in s.fibers && f.id !in s.local[t].list && f.id !in s.global.list
    modifies local, global, NodesOf(local, global), f
    ensures local.Valid() && global.Valid() && Disjoint(local, global)
    ensures Mirrors(Recycled(s, t, f.id, seen), t, local, global)
    ensures NodesOf(local, global) == old(NodesOf(local, global)) + if kept then {f} else {}
    ensures kept <==> f.id in Recycled(s, t, f.id, seen).fibers
    ensures kept <==> |old(local.nodes)| < max || (multi && seen && |old(global.nodes)| <= 10 * max)
    ensures Returned(old(local.nodes), old(global.nodes), max, kept, f, local.nodes, global.nodes)
  {
    local.Facts();
    global.Facts();
    assert local != global;
    hide IdsOf, LinkedPool.Valid, NodesOf, Disjoint;
    RecycledIs(s, t, f.id, seen);
    assert s.local[t].size == local.size == |local.nodes| && s.global.size == global.size == |global.nodes|;
    hide Pushed, HandedOver, Mirrors, Recycled;
    if local.size >= max {
      if !(multi && seen && global.size <= 10 * max) {
        FreedMirrors(s, t, f.id, local, global);
        return false;
      }
      MakeRoom(local, global, f, s, t);
      return true;
    }
    PushPool(local, global, f, s, t);
    return true;
  }
}
