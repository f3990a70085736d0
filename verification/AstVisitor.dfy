/**
  The traversals of ast/visitor.h, for visitors that do not change the graph.
*/
module AstVisitor {
  import opened Sequences
  import opened AstNode
  import opened AstSearch

  // The graph as a traversal from the node sees it: only the node's own list of children is reversed.
  ghost function SeenFrom(g: Graph, n: Node, reverse: bool): Graph {
    if reverse && n in g then g[n := Reversed(g[n])] else g
  }

  ghost function AllReversed(g: Graph): Graph {
    map n | n in g :: Reversed(g[n])
  }

  // The list of a node already seen does not matter.
  lemma {:induction false} ListIrrelevant(g: Graph, n: Node, s: seq<Node>, done: set<Node>, ns: seq<Node>)
    requires n in done && n in g
    ensures Dfs(g[n := s], done, ns) == Dfs(g, done, ns)
    decreases |g.Keys - done|, |ns|
  {
    if ns == [] {
    } else if ns[0] in done || ns[0] !in g {
      ListIrrelevant(g, n, s, done, ns[1..]);
    } else {
      Smaller(g.Keys - (done + {ns[0]}), g.Keys - done, ns[0]);
      var t := Dfs(g, done + {ns[0]}, g[ns[0]]);
      SmallerOrSame(g.Keys - t.done, g.Keys - done);
      ListIrrelevant(g, n, s, done + {ns[0]}, g[ns[0]]);
      ListIrrelevant(g, n, s, t.done, ns[1..]);
      assert g[n := s].Keys == g.Keys;
    }
  }

  // A traversal that enters a new node first.
  lemma EntersNode(g: Graph, done: set<Node>, n: Node, reverse: bool)
    requires n in g && n !in done
    ensures var cs := if reverse then Reversed(g[n]) else g[n];
      var t := Dfs(g, done + {n}, cs);
      Dfs(SeenFrom(g, n, reverse), done, [n]) == Trace(t.done, [n] + t.pre, t.post + [n])
  {
    var h := SeenFrom(g, n, reverse);
    var cs := if reverse then Reversed(g[n]) else g[n];
    assert h[n] == cs && [n][1..] == [] && h.Keys == g.Keys;
    if reverse {
      ListIrrelevant(g, n, cs, done + {n}, cs);
    }
    var t := Dfs(h, done + {n}, cs);
    assert Dfs(h, t.done, []) == Trace(t.done, [], []);
    assert [n] + t.pre + [] == [n] + t.pre && t.post + [n] + [] == t.post + [n];
  }

  lemma KnownNode(g: Graph, done: set<Node>, n: Node)
    requires n in done
    ensures Dfs(g, done, [n]) == Trace(done, [], [])
  {
  }

  // One element of a list.
  lemma OneOf(g: Graph, done: set<Node>, cs: seq<Node>, i: nat)
    requires i < |cs| && cs[i] in g
    ensures var t := Dfs(g, done, [cs[i]]);
      var u := Dfs(g, t.done, cs[i + 1..]);
      Dfs(g, done, cs[i..]) == Trace(u.done, t.pre + u.pre, t.post + u.post)
  {
  }

  // What a loop over the children has done, and u is what is left of t.
  ghost predicate Rest(t: Trace, pre: seq<Node>, post: seq<Node>, u: Trace) {
    t == Trace(u.done, pre + u.pre, post + u.post)
  }

  lemma OneMore(g: Graph, done: set<Node>, cs: seq<Node>, i: nat, t: Trace, pre: seq<Node>, post: seq<Node>)
    returns (pre': seq<Node>, post': seq<Node>)
    requires i < |cs| && (forall c | c in cs :: c in g) && Rest(t, pre, post, Dfs(g, done, cs[i..]))
    ensures cs[i] in g && done <= Dfs(g, done, [cs[i]]).done
    ensures pre' == pre + Dfs(g, done, [cs[i]]).pre && post' == post + Dfs(g, done, [cs[i]]).post
    ensures Rest(t, pre', post', Dfs(g, Dfs(g, done, [cs[i]]).done, cs[i + 1..]))
  {
    OneOf(g, done, cs, i);
    var s := Dfs(g, done, [cs[i]]);
    var u := Dfs(g, s.done, cs[i + 1..]);
    pre', post' := pre + s.pre, post + s.post;
    assert pre + (s.pre + u.pre) == pre + s.pre + u.pre;
    assert post + (s.post + u.post) == post + s.post + u.post;
  }

  lemma AllDone(g: Graph, done: set<Node>, cs: seq<Node>, t: Trace, pre: seq<Node>, post: seq<Node>)
    requires Rest(t, pre, post, Dfs(g, done, cs[|cs|..]))
    ensures t == Trace(done, pre, post)
  {
  }

  lemma ChildsKnown(g: Graph, n: Node, reverse: bool, done: set<Node>)
    requires Complete(g) && n in g
    ensures var cs := if reverse then Reversed(g[n]) else g[n];
      forall c | c in cs :: c in g
  {
    ReversedMembers(g[n]);
  }

  lemma AllLeft(g: Graph, done: set<Node>, cs: seq<Node>)
    ensures Rest(Dfs(g, done, cs), [], [], Dfs(g, done, cs[0..]))
  {
    assert cs[0..] == cs;
  }

  lemma AllVisited(s: seq<Node>, d: set<Node>, faulty: set<Node>)
    requires multiset(s) == multiset(d)
    ensures Filter(s, faulty) == [] <==> forall n | n in d :: n !in faulty
  {
    NoFaults(s, faulty);
    forall n
      ensures n in s <==> n in d
    {
      assert n in s <==> n in multiset(s);
    }
  }

  lemma AreKids(nodes: set<Node>, n: Node)
    requires n in nodes
    ensures Kids(nodes).Keys == nodes && n.childs == Kids(nodes)[n]
  {
  }

  lemma Forward(g: Graph, n: Node)
    ensures SeenFrom(g, n, false) == g
  {
  }

  // ----- What the traversals visit

  ghost predicate Covers(g: Graph, h: Graph) {
    forall n, k | n in g && k in g[n] :: n in h && k in h[n]
  }

  ghost predicate SameEdges(g: Graph, h: Graph) {
    g.Keys == h.Keys && Covers(g, h) && Covers(h, g)
  }

  lemma SameReach(g: Graph, h: Graph, a: Node, b: Node)
    requires SameEdges(g, h) && Reaches(g, a, b)
    ensures Reaches(h, a, b)
  {
  }

  lemma SeenFromSame(g: Graph, n: Node, reverse: bool)
    requires Complete(g)
    ensures SameEdges(g, SeenFrom(g, n, reverse)) && Complete(SeenFrom(g, n, reverse))
  {
    if n in g {
      ReversedMembers(g[n]);
    }
  }

  // In pre-order, each node that can be reached is visited once: the root first, each other node after a parent.
  lemma PreOrderVisits(g: Graph, root: Node, reverse: bool)
    requires Complete(g) && root in g
    ensures var pre := Dfs(SeenFrom(g, root, reverse), {}, [root]).pre;
      && multiset(pre) == multiset(Below(g, root) + {root})
      && pre[0] == root
      && forall i | 0 < i < |pre| :: Follows(g, pre, i)
  {
    var h := SeenFrom(g, root, reverse);
    SeenFromSame(g, root, reverse);
    AstSearch.PreOrder(h, root);
    SameBelow(g, h, root);
    var pre := Dfs(h, {}, [root]).pre;
    forall i | 0 < i < |pre|
      ensures Follows(g, pre, i)
    {
      assert Follows(h, pre, i);
      var j :| 0 <= j < i && pre[j] in h && pre[i] in h[pre[j]];
      assert pre[i] in g[pre[j]];
    }
  }

  lemma SameBelow(g: Graph, h: Graph, n: Node)
    requires SameEdges(g, h)
    ensures Below(g, n) == Below(h, n)
  {
  }

  // In post-order, too; and each node is visited after all its descendants exactly if no node visited is on a
  // cycle.
  lemma PostOrderVisits(g: Graph, root: Node, reverse: bool)
    requires Complete(g) && root in g
    ensures var post := Dfs(SeenFrom(g, root, reverse), {}, [root]).post;
      && multiset(post) == multiset(Below(g, root) + {root})
      && (DescendantsFirst(g, post) <==> forall n | n in Below(g, root) + {root} :: !Reaches(g, n, n))
  {
    var h := SeenFrom(g, root, reverse);
    SeenFromSame(g, root, reverse);
    DfsOnce(h, {}, [root]);
    RootAndBelow(h, root);
    SameBelow(g, h, root);
    PostOrderIff(h, root);
    var t := Dfs(h, {}, [root]);
    assert t.done - {} == t.done == Below(g, root) + {root};
    forall a, b
      ensures Reaches(g, a, b) <==> Reaches(h, a, b)
    {
      if Reaches(g, a, b) {
        SameReach(g, h, a, b);
      }
      if Reaches(h, a, b) {
        SameReach(h, g, a, b);
      }
    }
    assert DescendantsFirst(g, t.post) <==> DescendantsFirst(h, t.post);
  }

  // Siblings further down are not visited in reverse order: below a single child, the argument has no effect.
  lemma ReverseNeedsSiblings(g: Graph, root: Node, child: Node)
    requires root in g && g[root] == [child]
    ensures SeenFrom(g, root, true) == g
  {
    assert Reversed([child][1..]) == [];
    assert Reversed([child]) == [child];
  }

  // If all lists were reversed, as the argument promises, such a graph could well be visited in another order.
  lemma ReverseExample(r: Node, a: Node, b: Node, c: Node)
    requires r != a && r != b && r != c && a != b && a != c && b != c
    ensures var g: Graph := map[r := [a], a := [b, c], b := [], c := []];
      && Dfs(SeenFrom(g, r, true), {}, [r]).pre == [r, a, b, c]
      && Dfs(AllReversed(g), {}, [r]).pre == [r, a, c, b]
  {
    var g: Graph := map[r := [a], a := [b, c], b := [], c := []];
    ReverseNeedsSiblings(g, r, a);
    Chain(g, r, a, b, c);
    var h := AllReversed(g);
    assert h[r] == [a] && h[a] == [c, b] && h[b] == [] && h[c] == [];
    Chain(h, r, a, c, b);
  }

  lemma Chain(g: Graph, r: Node, a: Node, x: Node, y: Node)
    requires r != a && r != x && r != y && a != x && a != y && x != y
    requires g.Keys == {r, a, x, y} && g[r] == [a] && g[a] == [x, y] && g[x] == [] && g[y] == []
    ensures Dfs(g, {}, [r]).pre == [r, a, x, y]
  {
    var xy := [x, y];
    var none: seq<Node> := [];
    assert xy[0..] == xy && xy[1..] == [y] && xy[2..] == none && [a][1..] == none && [r][1..] == none;
    Leaf(g, {} + {r} + {a}, x);
    Leaf(g, {} + {r} + {a} + {x}, y);
    OneOf(g, {} + {r} + {a}, xy, 0);
    assert Dfs(g, {} + {r} + {a}, xy).pre == [x, y];
    EntersNode(g, {} + {r}, a, false);
    EntersNode(g, {}, r, false);
  }

  lemma Leaf(g: Graph, done: set<Node>, n: Node)
    requires n in g && g[n] == [] && n !in done
    ensures Dfs(g, done, [n]) == Trace(done + {n}, [n], [n])
  {
  }

  // A seen prefix and what a loop has still to see
  lemma TallyAppend(s: seq<Node>, from: nat, n: Node, faulty: set<Node>)
    requires from <= |s|
    ensures |Filter((s + [n])[from..], faulty)| == |Filter(s[from..], faulty)| + if n in faulty then 1 else 0
  {
    assert (s + [n])[from..] == s[from..] + [n];
    FilterJoin(s[from..], [n], faulty);
    assert [n][1..] == [];
  }

  lemma {:induction false} NoFaults(s: seq<Node>, faulty: set<Node>)
    ensures Filter(s, faulty) == [] <==> forall n | n in s :: n !in faulty
  {
    if s != [] {
      NoFaults(s[1..], faulty);
    }
  }

  class Visitor {
    var visited: set<Node>
    var current: seq<Node>
    var level: int
    var errors: nat
    const faulty: set<Node>         // the nodes for which a visit reports an error
    ghost var accepted: seq<Node>   // what callAccept() has been called for
    ghost var since: nat            // how many of them before the last reset()

    constructor (faulty: set<Node>)
      ensures visited == {} && current == [] && level == 0 && accepted == [] && Tallied() && this.faulty == faulty
    {
      this.faulty := faulty;
      visited, current, level, errors, accepted, since := {}, [], 0, 0, [], 0;
    }

    // The errors are those reported since the last reset.
    ghost predicate Tallied()
      reads this`errors, this`accepted, this`since
    {
      since <= |accepted| && errors == |Filter(accepted[since..], faulty)|
    }

    method Reset()
      modifies this`visited, this`errors, this`since
      ensures visited == {} && since == |accepted| && Tallied()
    {
      visited, errors, since := {}, 0, |accepted|;
    }

    method PushCurrent(node: Node)
      modifies this`current, this`level
      ensures current == old(current) + [node] && level == old(level) + 1
    {
      current, level := current + [node], level + 1;
    }

    method PopCurrent()
      requires current != []
      modifies this`current, this`level
      ensures current == old(current)[..|old(current)| - 1] && level == old(level) - 1
    {
      current, level := current[..|current| - 1], level - 1;
    }

    method CallAccept(node: Node)
      requires Tallied()
      modifies this`errors, this`accepted
      ensures Tallied() && accepted == old(accepted) + [node]
    {
      TallyAppend(accepted, since, node, faulty);
      accepted := accepted + [node];
      if node in faulty {
        errors := errors + 1;
      }
    }

    lemma Outcome(was: seq<Node>, run: seq<Node>, seen: set<Node>)
      requires Tallied() && accepted == was + run && since == |was| && multiset(run) == multiset(seen)
      ensures errors == 0 <==> forall n | n in seen :: n !in faulty
    {
      assert accepted[since..] == run;
      AllVisited(run, seen, faulty);
    }

    // processAllPreOrder: fine if no node visited has reported an error
    method ProcessAllPreOrder(node: Node, reverse: bool, ghost nodes: set<Node>) returns (ok: bool)
      requires node in nodes && Complete(Kids(nodes))
      modifies this
      ensures accepted == old(accepted) + Dfs(SeenFrom(Kids(nodes), node, reverse), {}, [node]).pre
      ensures current == old(current) && level == old(level)
      ensures ok <==> forall n | n in Below(Kids(nodes), node) + {node} :: n !in faulty
    {
      hide Dfs, SeenFrom, Of, Kids, Complete, Below, Tallied;
      ghost var was, seen := accepted, Below(Kids(nodes), node) + {node};
      ghost var run := Dfs(SeenFrom(Kids(nodes), node, reverse), {}, [node]).pre;
      assert multiset(run) == multiset(seen) by {
        AreKids(nodes, node);
        PreOrderVisits(Kids(nodes), node, reverse);
      }
      Reset();
      PreOrder(node, reverse, nodes);
      Outcome(was, run, seen);
      return errors == 0;
    }

    // processAllPostOrder
    method ProcessAllPostOrder(node: Node, reverse: bool, ghost nodes: set<Node>) returns (ok: bool)
      requires node in nodes && Complete(Kids(nodes))
      modifies this
      ensures accepted == old(accepted) + Dfs(SeenFrom(Kids(nodes), node, reverse), {}, [node]).post
      ensures current == old(current) && level == old(level)
      ensures ok <==> forall n | n in Below(Kids(nodes), node) + {node} :: n !in faulty
    {
      hide Dfs, SeenFrom, Of, Kids, Complete, Below, Tallied;
      ghost var was, seen := accepted, Below(Kids(nodes), node) + {node};
      ghost var run := Dfs(SeenFrom(Kids(nodes), node, reverse), {}, [node]).post;
      assert multiset(run) == multiset(seen) by {
        AreKids(nodes, node);
        PostOrderVisits(Kids(nodes), node, reverse);
      }
      Reset();
      PostOrder(node, reverse, nodes);
      Outcome(was, run, seen);
      return errors == 0;
    }

    method PreOrder(node: Node, reverse: bool, ghost nodes: set<Node>)
      requires node in nodes && Complete(Kids(nodes)) && Tallied()
      modifies this`visited, this`current, this`level, this`errors, this`accepted
      ensures var t := Dfs(SeenFrom(Kids(nodes), node, reverse), old(visited), [node]);
        visited == t.done && accepted == old(accepted) + t.pre
      ensures current == old(current) && level == old(level) && Tallied()
      decreases nodes - visited, 0
    {
      hide Dfs, SeenFrom, Of, Kids, Complete, Reversed, Tallied;
      ghost var g := Kids(nodes);
      if node in visited {
        KnownNode(SeenFrom(g, node, reverse), visited, node);
        return;
      }
      AreKids(nodes, node);
      EntersNode(g, visited, node, reverse);
      visited := visited + {node};
      PushCurrent(node);
      CallAccept(node);
      var cs := if reverse then Reversed(node.childs) else node.childs;
      ChildsKnown(g, node, reverse, visited);
      PreOrderChilds(cs, nodes);
      PopCurrent();
    }

    // The loop of preOrder()
    method PreOrderChilds(cs: seq<Node>, ghost nodes: set<Node>)
      requires (forall c | c in cs :: c in nodes) && Complete(Kids(nodes)) && Tallied()
      modifies this`visited, this`current, this`level, this`errors, this`accepted
      ensures var t := Dfs(Kids(nodes), old(visited), cs); visited == t.done && accepted == old(accepted) + t.pre
      ensures current == old(current) && level == old(level) && Tallied()
      decreases nodes - visited, 1
    {
      hide Dfs, SeenFrom, Of, Kids, Complete, Rest, Tallied;
      ghost var g, t := Kids(nodes), Dfs(Kids(nodes), visited, cs);
      ghost var pre, post := [], [];
      AllLeft(g, visited, cs);
      var i := 0;
      while i < |cs|
        invariant 0 <= i <= |cs| && old(visited) <= visited && Kids(nodes) == g
        invariant Rest(t, pre, post, Dfs(g, visited, cs[i..]))
        invariant accepted == old(accepted) + pre && current == old(current) && level == old(level) && Tallied()
      {
        AreKids(nodes, cs[i]);
        pre, post := OneMore(g, visited, cs, i, t, pre, post);
        Forward(g, cs[i]);
        PreOrder(cs[i], false, nodes);
        i := i + 1;
      }
      AllDone(g, visited, cs, t, pre, post);
    }

    method PostOrder(node: Node, reverse: bool, ghost nodes: set<Node>)
      requires node in nodes && Complete(Kids(nodes)) && Tallied()
      modifies this`visited, this`current, this`level, this`errors, this`accepted
      ensures var t := Dfs(SeenFrom(Kids(nodes), node, reverse), old(visited), [node]);
        visited == t.done && accepted == old(accepted) + t.post
      ensures current == old(current) && level == old(level) && Tallied()
      decreases nodes - visited, 0
    {
      hide Dfs, SeenFrom, Of, Kids, Complete, Reversed, Tallied;
      ghost var g := Kids(nodes);
      if node in visited {
        KnownNode(SeenFrom(g, node, reverse), visited, node);
        return;
      }
      AreKids(nodes, node);
      EntersNode(g, visited, node, reverse);
      visited := visited + {node};
      PushCurrent(node);
      var cs := if reverse then Reversed(node.childs) else node.childs;
      ChildsKnown(g, node, reverse, visited);
      PostOrderChilds(cs, nodes);
      CallAccept(node);
      PopCurrent();
    }

    // The loop of postOrder()
    method PostOrderChilds(cs: seq<Node>, ghost nodes: set<Node>)
      requires (forall c | c in cs :: c in nodes) && Complete(Kids(nodes)) && Tallied()
      modifies this`visited, this`current, this`level, this`errors, this`accepted
      ensures var t := Dfs(Kids(nodes), old(visited), cs); visited == t.done && accepted == old(accepted) + t.post
      ensures current == old(current) && level == old(level) && Tallied()
      decreases nodes - visited, 1
    {
      hide Dfs, SeenFrom, Of, Kids, Complete, Rest, Tallied;
      ghost var g, t := Kids(nodes), Dfs(Kids(nodes), visited, cs);
      ghost var pre, post := [], [];
      AllLeft(g, visited, cs);
      var i := 0;
      while i < |cs|
        invariant 0 <= i <= |cs| && old(visited) <= visited && Kids(nodes) == g
        invariant Rest(t, pre, post, Dfs(g, visited, cs[i..]))
        invariant accepted == old(accepted) + post && current == old(current) && level == old(level) && Tallied()
      {
        AreKids(nodes, cs[i]);
        pre, post := OneMore(g, visited, cs, i, t, pre, post);
        Forward(g, cs[i]);
        PostOrder(cs[i], false, nodes);
        i := i + 1;
      }
      AllDone(g, visited, cs, t, pre, post);
    }
  }
}
