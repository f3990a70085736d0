/**
  When the visitor's argument `reverse` keeps its promise (ast/visitor.h): visiting all siblings in reverse order. The
  code reverses the children of the start node only.
*/
module AstReverse {
  import opened Sequences
  import opened AstNode
  import opened AstSearch
  import opened AstVisitor

  ghost function Reached(g: Graph, root: Node): set<Node> {
    Below(g, root) + {root}
  }

  ghost predicate Promised(g: Graph, root: Node) {
    Dfs(SeenFrom(g, root, true), {}, [root]) == Dfs(AllReversed(g), {}, [root])
  }

  // ----- Where lists read the same in both directions, the promise is kept.

  lemma {:induction false} SameLists(g: Graph, h: Graph, d: set<Node>, done: set<Node>, ns: seq<Node>)
    requires g.Keys == h.Keys && Closed(g, d) && All(ns, d) && forall n | n in d && n in g :: g[n] == h[n]
    ensures Dfs(g, done, ns) == Dfs(h, done, ns)
    decreases |g.Keys - done|, |ns|
  {
    if ns == [] {
    } else if ns[0] in done || ns[0] !in g {
      SameLists(g, h, d, done, ns[1..]);
    } else {
      Smaller(g.Keys - (done + {ns[0]}), g.Keys - done, ns[0]);
      var t := Dfs(g, done + {ns[0]}, g[ns[0]]);
      SmallerOrSame(g.Keys - t.done, g.Keys - done);
      SameLists(g, h, d, done + {ns[0]}, g[ns[0]]);
      SameLists(g, h, d, t.done, ns[1..]);
    }
  }

  lemma ReachedClosed(g: Graph, root: Node)
    requires Complete(g) && root in g
    ensures Closed(g, Reached(g, root)) && Reached(g, root) <= g.Keys
  {
    forall n, k | n in Reached(g, root) && k in g[n]
      ensures k in Reached(g, root)
    {
      EdgeReaches(g, n, k);
      if n != root {
        ReachesOn(g, root, n, k);
      }
    }
  }

  // On any graph: if below the root each list is the same in reverse, the promise is kept.
  lemma PalindromesSuffice(g: Graph, root: Node)
    requires Complete(g) && root in g
    requires forall n | n in Below(g, root) && n != root :: Reversed(g[n]) == g[n]
    ensures Promised(g, root)
  {
    var d, h, all := Reached(g, root), SeenFrom(g, root, true), AllReversed(g);
    ReachedClosed(g, root);
    forall n | n in d
      ensures h[n] == all[n] && All(h[n], d)
    {
      ReversedMembers(g[n]);
    }
    SameLists(h, all, d, {}, [root]);
  }

  // ----- In a tree, siblings are visited in the order of their list.

  ghost predicate Before(s: seq<Node>, x: Node, y: Node) {
    exists i, j :: 0 <= i < j < |s| && s[i] == x && s[j] == y
  }

  // Within d, only n has x among its children.
  ghost predicate OnlyParent(g: Graph, d: set<Node>, n: Node, x: Node) {
    forall a | a in d && a in g && x in g[a] :: a == n
  }

  // What has one parent is not seen before that parent is.
  lemma {:induction false} NotSeen(g: Graph, d: set<Node>, done: set<Node>, ns: seq<Node>, n: Node, x: Node)
    requires Closed(g, d) && All(ns, d) && OnlyParent(g, d, n, x) && x !in done && x !in ns
    requires n in done || n !in Dfs(g, done, ns).done
    ensures x !in Dfs(g, done, ns).done
    decreases |g.Keys - done|, |ns|
  {
    if ns == [] {
    } else if ns[0] in done || ns[0] !in g {
      NotSeen(g, d, done, ns[1..], n, x);
    } else {
      Smaller(g.Keys - (done + {ns[0]}), g.Keys - done, ns[0]);
      var t := Dfs(g, done + {ns[0]}, g[ns[0]]);
      SmallerOrSame(g.Keys - t.done, g.Keys - done);
      NotSeen(g, d, done + {ns[0]}, g[ns[0]], n, x);
      NotSeen(g, d, t.done, ns[1..], n, x);
    }
  }

  ghost predicate InOrder(t: Trace, x: Node, y: Node) {
    Before(t.pre, x, y) && Before(t.post, x, y)
  }

  lemma Inside(a: seq<Node>, s: seq<Node>, b: seq<Node>, x: Node, y: Node)
    requires Before(s, x, y)
    ensures Before(a + s + b, x, y)
  {
    var i, j :| 0 <= i < j < |s| && s[i] == x && s[j] == y;
    var r := a + s + b;
    assert r[|a| + i] == x && r[|a| + j] == y;
  }

  lemma Later(a: seq<Node>, x: Node, b: seq<Node>, y: Node)
    requires y in b
    ensures Before(a + [x] + b, x, y)
  {
    var j :| 0 <= j < |b| && b[j] == y;
    var r := a + [x] + b;
    assert r[|a|] == x && r[|a| + 1 + j] == y;
  }

  lemma SeenInBoth(g: Graph, done: set<Node>, ns: seq<Node>, k: Node)
    requires k in Dfs(g, done, ns).done - done
    ensures k in Dfs(g, done, ns).pre && k in Dfs(g, done, ns).post
  {
    DfsOnce(g, done, ns);
    var t := Dfs(g, done, ns);
    assert k in multiset(t.pre) && k in multiset(t.post);
  }

  // A search that enters c, sees t below it, and then u.
  ghost function Whole(c: Node, t: Trace, u: Trace): Trace {
    Trace(u.done, [c] + t.pre + u.pre, t.post + [c] + u.post)
  }

  lemma Unfolded(g: Graph, done: set<Node>, ns: seq<Node>) returns (t: Trace, u: Trace)
    requires ns != [] && ns[0] !in done && ns[0] in g
    ensures t == Dfs(g, done + {ns[0]}, g[ns[0]]) && u == Dfs(g, t.done, ns[1..])
    ensures Dfs(g, done, ns) == Whole(ns[0], t, u) && done + {ns[0]} <= t.done <= u.done
    ensures |g.Keys - (done + {ns[0]})| < |g.Keys - done| && |g.Keys - t.done| <= |g.Keys - done|
  {
    Smaller(g.Keys - (done + {ns[0]}), g.Keys - done, ns[0]);
    t := Dfs(g, done + {ns[0]}, g[ns[0]]);
    SmallerOrSame(g.Keys - t.done, g.Keys - done);
    u := Dfs(g, t.done, ns[1..]);
  }

  lemma FromFirst(c: Node, t: Trace, u: Trace, x: Node, y: Node)
    requires InOrder(t, x, y)
    ensures InOrder(Whole(c, t, u), x, y)
  {
    hide Before;
    Inside([c], t.pre, u.pre, x, y);
    Inside([], t.post, [c] + u.post, x, y);
    assert [] + t.post + ([c] + u.post) == t.post + [c] + u.post;
  }

  lemma FromRest(c: Node, t: Trace, u: Trace, x: Node, y: Node)
    requires InOrder(u, x, y)
    ensures InOrder(Whole(c, t, u), x, y)
  {
    hide Before;
    Inside([c] + t.pre, u.pre, [], x, y);
    assert [c] + t.pre + u.pre + [] == [c] + t.pre + u.pre;
    Inside(t.post + [c], u.post, [], x, y);
    assert t.post + [c] + u.post + [] == t.post + [c] + u.post;
  }

  lemma FirstThenRest(c: Node, t: Trace, u: Trace, y: Node)
    requires y in u.pre && y in u.post
    ensures InOrder(Whole(c, t, u), c, y)
  {
    hide Before;
    Later([], c, t.pre + u.pre, y);
    assert [] + [c] + (t.pre + u.pre) == [c] + t.pre + u.pre;
    Later(t.post, c, u.post, y);
  }

  lemma BeforeInTail(s: seq<Node>, x: Node, y: Node)
    requires Before(s, x, y) && Distinct(s)
    ensures s != [] && y in s[1..] && y != s[0] && Distinct(s[1..]) && (s[0] != x ==> Before(s[1..], x, y))
  {
    var i, j :| 0 <= i < j < |s| && s[i] == x && s[j] == y;
    assert s[1..][j - 1] == y;
    if s[0] != x {
      assert s[1..][i - 1] == x;
    }
  }

  // The search has entered n and goes through its children, x before y.
  lemma {:induction false} ListOrder(g: Graph, d: set<Node>, done: set<Node>, ns: seq<Node>, n: Node, x: Node, y: Node)
    requires Complete(g) && Closed(g, d) && All(ns, d) && d <= g.Keys && n in done
    requires OnlyParent(g, d, n, x) && OnlyParent(g, d, n, y) && x !in done && y !in done
    requires Before(ns, x, y) && Distinct(ns)
    ensures InOrder(Dfs(g, done, ns), x, y)
    decreases |g.Keys - done|, |ns|
  {
    BeforeInTail(ns, x, y);
    hide Before, Distinct;
    var c, rest := ns[0], ns[1..];
    if c in done {
      ListOrder(g, d, done, rest, n, x, y);
      return;
    }
    var t, u := Unfolded(g, done, ns);
    hide Dfs;
    NotSeen(g, d, done + {c}, g[c], n, y);
    if c == x {
      DfsCloses(g, t.done, rest);
      SeenInBoth(g, t.done, rest, y);
      FirstThenRest(x, t, u, y);
    } else {
      NotSeen(g, d, done + {c}, g[c], n, x);
      ListOrder(g, d, t.done, rest, n, x, y);
      FromRest(c, t, u, x, y);
    }
  }

  // The search will enter n, or has not come to x and y yet.
  lemma {:induction false} SiblingOrder(g: Graph, d: set<Node>, done: set<Node>, ns: seq<Node>,
      n: Node, x: Node, y: Node)
    requires Complete(g) && Closed(g, d) && All(ns, d) && d <= g.Keys && n in g && n in Dfs(g, done, ns).done - done
    requires OnlyParent(g, d, n, x) && x !in done + {n} && x !in ns
    requires OnlyParent(g, d, n, y) && y !in done + {n} && y !in ns
    requires Before(g[n], x, y) && Distinct(g[n])
    ensures InOrder(Dfs(g, done, ns), x, y)
    decreases |g.Keys - done|, |ns|
  {
    hide Before, Distinct;
    var c, rest := ns[0], ns[1..];
    if c in done {
      SiblingOrder(g, d, done, rest, n, x, y);
      return;
    }
    var t, u := Unfolded(g, done, ns);
    hide Dfs;
    if c == n {
      ListOrder(g, d, done + {n}, g[n], n, x, y);
      FromFirst(c, t, u, x, y);
    } else if n in t.done {
      SiblingOrder(g, d, done + {c}, g[c], n, x, y);
      FromFirst(c, t, u, x, y);
    } else {
      NotSeen(g, d, done + {c}, g[c], n, x);
      NotSeen(g, d, done + {c}, g[c], n, y);
      SiblingOrder(g, d, t.done, rest, n, x, y);
      FromRest(c, t, u, x, y);
    }
  }

  // ----- The exact condition for trees

  // Below the root, there are no cycles, and each node is in one list, once.
  ghost predicate Tree(g: Graph, root: Node) {
    && Complete(g) && root in g
    && (forall n | n in Reached(g, root) :: !Reaches(g, n, n))
    && (forall a, b, k | a in Reached(g, root) && b in Reached(g, root) && a in g && b in g && k in g[a] && k in g[b] ::
      a == b)
    && (forall a | a in Reached(g, root) && a in g :: Distinct(g[a]))
  }

  // The same tree with lists in another order
  ghost predicate Rearranged(g: Graph, h: Graph) {
    SameEdges(g, h) && Complete(h) && forall n | n in g && n in h && Distinct(g[n]) :: Distinct(h[n])
  }

  lemma BothRearranged(g: Graph, root: Node)
    requires Complete(g)
    ensures Rearranged(g, SeenFrom(g, root, true)) && Rearranged(g, AllReversed(g))
  {
    SeenFromSame(g, root, true);
    forall n | n in g
      ensures (forall k :: k in Reversed(g[n]) <==> k in g[n]) && (Distinct(g[n]) ==> Distinct(Reversed(g[n])))
    {
      ReversedMembers(g[n]);
    }
  }

  lemma OneParent(g: Graph, h: Graph, root: Node, n: Node, k: Node)
    requires Tree(g, root) && Rearranged(g, h) && n in Below(g, root) && k in h[n]
    ensures OnlyParent(h, Reached(g, root), n, k) && k != root && k != n
  {
    assert k in g[n];
    EdgeReaches(g, n, k);
    ReachesOn(g, root, n, k);
    hide Reaches;
    assert root in Reached(g, root) && n in Reached(g, root);
  }

  lemma BeforeMembers(s: seq<Node>, x: Node, y: Node)
    requires Before(s, x, y)
    ensures x in s && y in s
  {
  }

  lemma TreeOrder(g: Graph, h: Graph, root: Node, n: Node, x: Node, y: Node)
    requires Tree(g, root) && Rearranged(g, h) && n in Below(g, root) && Before(h[n], x, y)
    ensures InOrder(Dfs(h, {}, [root]), x, y)
  {
    BeforeMembers(h[n], x, y);
    OneParent(g, h, root, n, x);
    OneParent(g, h, root, n, y);
    SearchFromRoot(g, h, root, n);
    hide *;
    SiblingOrder(h, Reached(g, root), {}, [root], n, x, y);
  }

  lemma SearchFromRoot(g: Graph, h: Graph, root: Node, n: Node)
    requires Tree(g, root) && Rearranged(g, h) && n in Below(g, root)
    ensures var d := Reached(g, root);
      && Closed(h, d) && All([root], d) && d <= h.Keys && n in Dfs(h, {}, [root]).done - {}
    ensures n in h && Distinct(h[n]) && Complete(h)
    ensures forall k | k in h[n] && k != root && k != n :: k !in {} + {n} && k !in [root]
  {
    hide Dfs, Reaches, Closed, Covers, Distinct;
    assert n in Reached(g, root) && n in g && root in h && Complete(h);
    assert Distinct(g[n]);
    hide Tree;
    ReachedClosed(h, root);
    RootAndBelow(h, root);
    SameBelow(g, h, root);
  }

  lemma OnlyOnce(s: seq<Node>, d: set<Node>)
    requires multiset(s) == multiset(d)
    ensures Distinct(s)
  {
    forall i, j | 0 <= i < j < |s|
      ensures s[i] != s[j]
    {
      assert multiset(s)[s[j]] <= 1;
      OncePlace(s, j);
      assert s[..j][i] == s[i];
    }
  }

  lemma OneWay(s: seq<Node>, d: set<Node>, x: Node, y: Node)
    requires multiset(s) == multiset(d) && Before(s, x, y)
    ensures !Before(s, y, x)
  {
    OnlyOnce(s, d);
  }

  // Two siblings below the root are visited in one order by the code, and in the other one as promised.
  lemma SiblingsDiffer(g: Graph, root: Node, n: Node)
    requires Tree(g, root) && n in Below(g, root) && |g[n]| >= 2
    ensures var t, u := Dfs(SeenFrom(g, root, true), {}, [root]), Dfs(AllReversed(g), {}, [root]);
      t.pre != u.pre && t.post != u.post
  {
    var x, y, h, all := g[n][0], g[n][1], SeenFrom(g, root, true), AllReversed(g);
    BothRearranged(g, root);
    var r := Reversed(g[n]);
    assert n != root && h[n] == g[n] && all[n] == r;
    assert r[|r| - 1] == x && r[|r| - 2] == y;
    assert Before(g[n], x, y) && Before(r, y, x);
    TreeOrder(g, h, root, n, x, y);
    TreeOrder(g, all, root, n, y, x);
    DfsOnce(h, {}, [root]);
    var t := Dfs(h, {}, [root]);
    OneWay(t.pre, t.done - {}, x, y);
    OneWay(t.post, t.done - {}, x, y);
  }

  // In a tree, the promise is kept exactly if no node below the root has siblings to reverse, and else neither in
  // pre-order nor in post-order.
  lemma ReverseIff(g: Graph, root: Node)
    requires Tree(g, root)
    ensures var t, u := Dfs(SeenFrom(g, root, true), {}, [root]), Dfs(AllReversed(g), {}, [root]);
      && (t.pre == u.pre <==> forall n | n in Below(g, root) :: |g[n]| <= 1)
      && (t.post == u.post <==> forall n | n in Below(g, root) :: |g[n]| <= 1)
  {
    if n :| n in Below(g, root) && |g[n]| > 1 {
      SiblingsDiffer(g, root, n);
    } else {
      forall n | n in Below(g, root)
        ensures Reversed(g[n]) == g[n]
      {
        assert |g[n]| <= 1;
      }
      PalindromesSuffice(g, root);
    }
  }
}
