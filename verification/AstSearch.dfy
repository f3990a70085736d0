/**
  Searches over the graph of AST nodes (ast/node.cc, ast/node.h) and the visitor's traversals (ast/visitor.h). All of
  them are depth-first with a set of nodes already seen, so that they end on cyclic graphs.
*/
module AstSearch {
  import opened AstNode

  // The children, or the parents, of each node.
  type Graph = map<Node, seq<Node>>

  ghost predicate Complete(g: Graph) {
    forall n, k | n in g && k in g[n] :: k in g
  }

  // ----- Reachability

  ghost predicate All(ns: seq<Node>, d: set<Node>) {
    forall n | n in ns :: n in d
  }

  ghost predicate Closed(g: Graph, d: set<Node>) {
    forall n | n in d && n in g :: All(g[n], d)
  }

  // There are one or more edges from a to b: b is in each closed set with a's children.
  ghost predicate Reaches(g: Graph, a: Node, b: Node) {
    a in g && forall d: set<Node> | d <= g.Keys && All(g[a], d) && Closed(g, d) :: b in d
  }

  ghost function Below(g: Graph, a: Node): set<Node> {
    set b | b in g && Reaches(g, a, b)
  }

  lemma EdgeReaches(g: Graph, a: Node, b: Node)
    requires a in g && b in g[a]
    ensures Reaches(g, a, b)
  {
  }

  lemma ReachesOn(g: Graph, a: Node, b: Node, c: Node)
    requires Complete(g) && Reaches(g, a, b) && b in g && c in g[b]
    ensures Reaches(g, a, c)
  {
  }

  // Upwards and downwards are the same relation.
  lemma Upwards(v: View, a: Node, b: Node)
    requires Law(v) && b in v.kids && Reaches(v.kids, a, b)
    ensures Reaches(v.parents, b, a)
  {
    var up := set x | x in v.kids && Reaches(v.parents, x, a);
    forall k | k in v.kids[a]
      ensures k in up
    {
      KnownChild(v, a, k);
      ChildHasParent(v, a, k);
      EdgeReaches(v.parents, k, a);
    }
    forall x, k | x in up && k in v.kids[x]
      ensures k in up
    {
      KnownChild(v, x, k);
      ChildHasParent(v, x, k);
      forall d: set<Node> | d <= v.parents.Keys && All(v.parents[k], d) && Closed(v.parents, d)
        ensures a in d
      {
        assert x in d && All(v.parents[x], d);
      }
    }
    assert b in up;
  }

  lemma Downwards(v: View, a: Node, b: Node)
    requires Law(v) && a in v.kids && Reaches(v.parents, b, a)
    ensures Reaches(v.kids, a, b)
  {
    var w := View(v.parents, v.kids);
    forall n | n in w.kids
      ensures Exist(w, n)
    {
      assert Exist(v, n);
    }
    forall p, n | p in w.kids && n in w.kids
      ensures Balanced(w, p, n)
    {
      assert Balanced(v, n, p);
    }
    Upwards(w, b, a);
  }

  // ----- Depth first

  // The nodes seen afterwards, and the new ones in the order of entering and of leaving them.
  datatype Trace = Trace(done: set<Node>, pre: seq<Node>, post: seq<Node>)

  ghost function Dfs(g: Graph, done: set<Node>, ns: seq<Node>): (t: Trace)
    ensures done <= t.done
    decreases |g.Keys - done|, |ns|
  {
    if ns == [] then Trace(done, [], [])
    else if ns[0] in done || ns[0] !in g then Dfs(g, done, ns[1..])
    else
      Smaller(g.Keys - (done + {ns[0]}), g.Keys - done, ns[0]);
      var t := Dfs(g, done + {ns[0]}, g[ns[0]]);
      SmallerOrSame(g.Keys - t.done, g.Keys - done);
      var u := Dfs(g, t.done, ns[1..]);
      Trace(u.done, [ns[0]] + t.pre + u.pre, t.post + [ns[0]] + u.post)
  }

  lemma Smaller(a: set<Node>, b: set<Node>, n: Node)
    requires a <= b && n in b && n !in a
    ensures |a| < |b|
  {
    SmallerOrSame(a, b - {n});
  }

  lemma {:induction false} SmallerOrSame(a: set<Node>, b: set<Node>)
    requires a <= b
    ensures |a| <= |b|
  {
    if a != {} {
      var x :| x in a;
      SmallerOrSame(a - {x}, b - {x});
    }
  }

  // The search sees what it starts from, and all children of what it sees first.
  lemma {:induction false} DfsCloses(g: Graph, done: set<Node>, ns: seq<Node>)
    requires Complete(g) && All(ns, g.Keys)
    ensures var t := Dfs(g, done, ns);
      All(ns, t.done) && t.done - done <= g.Keys && forall n | n in t.done - done :: All(g[n], t.done)
    decreases |g.Keys - done|, |ns|
  {
    if ns == [] {
    } else if ns[0] in done {
      DfsCloses(g, done, ns[1..]);
    } else {
      Smaller(g.Keys - (done + {ns[0]}), g.Keys - done, ns[0]);
      var t := Dfs(g, done + {ns[0]}, g[ns[0]]);
      DfsCloses(g, done + {ns[0]}, g[ns[0]]);
      SmallerOrSame(g.Keys - t.done, g.Keys - done);
      DfsCloses(g, t.done, ns[1..]);
    }
  }

  // It sees nothing outside of a closed set that it starts in.
  lemma {:induction false} DfsStays(g: Graph, done: set<Node>, ns: seq<Node>, d: set<Node>)
    requires All(ns, d) && Closed(g, d)
    ensures Dfs(g, done, ns).done - done <= d
    decreases |g.Keys - done|, |ns|
  {
    if ns == [] {
    } else if ns[0] in done || ns[0] !in g {
      DfsStays(g, done, ns[1..], d);
    } else {
      Smaller(g.Keys - (done + {ns[0]}), g.Keys - done, ns[0]);
      var t := Dfs(g, done + {ns[0]}, g[ns[0]]);
      DfsStays(g, done + {ns[0]}, g[ns[0]], d);
      SmallerOrSame(g.Keys - t.done, g.Keys - done);
      DfsStays(g, t.done, ns[1..], d);
    }
  }

  // Each node it sees it enters once and leaves once.
  lemma {:induction false} DfsOnce(g: Graph, done: set<Node>, ns: seq<Node>)
    ensures var t := Dfs(g, done, ns);
      multiset(t.pre) == multiset(t.post) == multiset(t.done - done)
    decreases |g.Keys - done|, |ns|
  {
    if ns == [] {
      assert Dfs(g, done, ns).done - done == {};
    } else if ns[0] in done || ns[0] !in g {
      DfsOnce(g, done, ns[1..]);
    } else {
      Smaller(g.Keys - (done + {ns[0]}), g.Keys - done, ns[0]);
      var t := Dfs(g, done + {ns[0]}, g[ns[0]]);
      DfsOnce(g, done + {ns[0]}, g[ns[0]]);
      SmallerOrSame(g.Keys - t.done, g.Keys - done);
      DfsOnce(g, t.done, ns[1..]);
      OnceJoin(done, ns[0], t, Dfs(g, t.done, ns[1..]));
    }
  }

  lemma OnceJoin(done: set<Node>, n: Node, t: Trace, u: Trace)
    requires n !in done && done + {n} <= t.done <= u.done
    requires multiset(t.pre) == multiset(t.post) == multiset(t.done - (done + {n}))
    requires multiset(u.pre) == multiset(u.post) == multiset(u.done - t.done)
    ensures multiset([n] + t.pre + u.pre) == multiset(t.post + [n] + u.post) == multiset(u.done - done)
  {
  }

  // From nothing seen, a search from a's children sees exactly what a reaches.
  lemma DfsIsBelow(g: Graph, a: Node)
    requires Complete(g) && a in g
    ensures Dfs(g, {}, g[a]).done == Below(g, a)
  {
    DfsCloses(g, {}, g[a]);
    var d := Dfs(g, {}, g[a]).done;
    assert Closed(g, d);
    forall e: set<Node> | e <= g.Keys && All(g[a], e) && Closed(g, e)
      ensures d <= e
    {
      DfsStays(g, {}, g[a], e);
    }
  }

  // ----- The order of the visits

  ghost predicate Follows(g: Graph, pre: seq<Node>, i: nat)
    requires i < |pre|
  {
    exists j :: 0 <= j < i && pre[j] in g && pre[i] in g[pre[j]]
  }

  ghost predicate Entered(g: Graph, ns: seq<Node>, pre: seq<Node>, i: nat) {
    i < |pre| ==> pre[i] in ns || Follows(g, pre, i)
  }

  // Each node entered is one of those to start from, or a child of one entered before.
  lemma {:induction false} DfsEnters(g: Graph, done: set<Node>, ns: seq<Node>, i: nat)
    ensures Entered(g, ns, Dfs(g, done, ns).pre, i)
    decreases |g.Keys - done|, |ns|
  {
    if ns == [] {
    } else if ns[0] in done || ns[0] !in g {
      DfsEnters(g, done, ns[1..], i);
    } else {
      Smaller(g.Keys - (done + {ns[0]}), g.Keys - done, ns[0]);
      var t := Dfs(g, done + {ns[0]}, g[ns[0]]);
      SmallerOrSame(g.Keys - t.done, g.Keys - done);
      var u := Dfs(g, t.done, ns[1..]);
      if 0 < i <= |t.pre| {
        DfsEnters(g, done + {ns[0]}, g[ns[0]], i - 1);
        EntersSub(g, ns, t.pre, u.pre, i - 1);
      } else if |t.pre| < i {
        DfsEnters(g, t.done, ns[1..], i - 1 - |t.pre|);
        EntersRest(g, ns, t.pre, u.pre, i - 1 - |t.pre|);
      }
    }
  }

  lemma EntersSub(g: Graph, ns: seq<Node>, s: seq<Node>, r: seq<Node>, i: nat)
    requires ns != [] && ns[0] in g && i < |s| && Entered(g, g[ns[0]], s, i)
    ensures Entered(g, ns, [ns[0]] + s + r, i + 1)
  {
    var pre := [ns[0]] + s + r;
    assert pre[i + 1] == s[i] && pre[0] == ns[0];
    if Follows(g, s, i) {
      var j :| 0 <= j < i && s[j] in g && s[i] in g[s[j]];
      assert pre[j + 1] == s[j];
    }
    assert Follows(g, pre, i + 1);
  }

  lemma EntersRest(g: Graph, ns: seq<Node>, s: seq<Node>, r: seq<Node>, i: nat)
    requires ns != [] && Entered(g, ns[1..], r, i)
    ensures Entered(g, ns, [ns[0]] + s + r, i + 1 + |s|)
  {
    var pre := [ns[0]] + s + r;
    if i < |r| {
      assert pre[i + 1 + |s|] == r[i];
      if Follows(g, r, i) {
        var j :| 0 <= j < i && r[j] in g && r[i] in g[r[j]];
        assert pre[j + 1 + |s|] == r[j];
        assert Follows(g, pre, i + 1 + |s|);
      }
    }
  }

  // The children of each node come before it, unless they are in the set.
  ghost predicate Ordered(g: Graph, post: seq<Node>, base: set<Node>) {
    forall i, k {:trigger k in g[post[i]]} | 0 <= i < |post| && post[i] in g && k in g[post[i]] ::
      k in post[..i] || k in base
  }

  lemma OrderedJoin(g: Graph, s: seq<Node>, n: Node, r: seq<Node>, base: set<Node>, base': set<Node>)
    requires Ordered(g, s, base) && (n in g ==> forall k | k in g[n] :: k in s || k in base) && Ordered(g, r, base')
    requires forall k | k in base' :: k in s || k == n || k in base
    ensures Ordered(g, s + [n] + r, base)
  {
    var post := s + [n] + r;
    forall i, k | 0 <= i < |post| && post[i] in g && k in g[post[i]]
      ensures k in post[..i] || k in base
    {
      if i < |s| {
        assert post[..i] == s[..i];
      } else if i == |s| {
        assert post[..i] == s;
      } else {
        assert post[..i] == s + [n] + r[..i - |s| - 1];
      }
    }
  }

  lemma ReachesFrom(g: Graph, a: Node, b: Node, c: Node)
    requires Complete(g) && a in g && b in g[a] && Reaches(g, b, c)
    ensures Reaches(g, a, c)
  {
  }

  // The nodes of the set, still to be left, reach what the search goes on from.
  ghost predicate Leads(g: Graph, open: set<Node>, ns: seq<Node>) {
    forall o, n | o in open && n in ns :: Reaches(g, o, n)
  }

  lemma LeadsOn(g: Graph, open: set<Node>, n: Node)
    requires Complete(g) && n in g && Leads(g, open, [n])
    ensures Leads(g, open + {n}, g[n])
  {
    forall o, k | o in open + {n} && k in g[n]
      ensures Reaches(g, o, k)
    {
      EdgeReaches(g, n, k);
      if o in open {
        assert n in [n];
        ReachesOn(g, o, n, k);
      }
    }
  }

  lemma {:induction false} DfsLeaves(g: Graph, done: set<Node>, ns: seq<Node>, open: set<Node>)
    requires Complete(g) && All(ns, g.Keys) && Leads(g, open, ns)
    requires forall n | n in Dfs(g, done, ns).done - done :: !Reaches(g, n, n)
    ensures Ordered(g, Dfs(g, done, ns).post, done - open)
    decreases |g.Keys - done|, |ns|
  {
    if ns == [] {
    } else if ns[0] in done {
      DfsLeaves(g, done, ns[1..], open);
    } else {
      var n := ns[0];
      Smaller(g.Keys - (done + {n}), g.Keys - done, n);
      var t := Dfs(g, done + {n}, g[n]);
      SmallerOrSame(g.Keys - t.done, g.Keys - done);
      var u := Dfs(g, t.done, ns[1..]);
      LeadsOn(g, open, n);
      DfsLeaves(g, done + {n}, g[n], open + {n});
      DfsLeaves(g, t.done, ns[1..], open);
      forall k | k in g[n]
        ensures k in t.post || k in done - open
      {
        ChildLeft(g, done, n, open, k);
      }
      forall k | k in t.done - open
        ensures k in t.post || k == n || k in done - open
      {
        Left(g, done + {n}, g[n], k);
      }
      OrderedBase(g, t.post, done + {n} - (open + {n}), done - open);
      OrderedJoin(g, t.post, n, u.post, done - open, t.done - open);
    }
  }

  lemma OrderedBase(g: Graph, post: seq<Node>, base: set<Node>, base': set<Node>)
    requires Ordered(g, post, base) && base <= base'
    ensures Ordered(g, post, base')
  {
  }

  lemma Left(g: Graph, done: set<Node>, ns: seq<Node>, k: Node)
    ensures k in Dfs(g, done, ns).post <==> k in Dfs(g, done, ns).done - done
  {
    DfsOnce(g, done, ns);
    var t := Dfs(g, done, ns);
    assert k in t.post <==> k in multiset(t.post);
  }

  // Before n is left, its children have been, or else there would be a cycle through n.
  lemma ChildLeft(g: Graph, done: set<Node>, n: Node, open: set<Node>, k: Node)
    requires Complete(g) && n in g && k in g[n] && Leads(g, open, [n]) && !Reaches(g, n, n)
    ensures k in Dfs(g, done + {n}, g[n]).post || k in done - open
  {
    DfsCloses(g, done + {n}, g[n]);
    Left(g, done + {n}, g[n], k);
    EdgeReaches(g, n, k);
    if k in open {
      assert n in [n];
      ReachesFrom(g, n, k, n);
    }
  }

  // All that a node reaches comes before it.
  ghost predicate DescendantsFirst(g: Graph, post: seq<Node>) {
    forall i, b | 0 <= i < |post| && b in g && Reaches(g, post[i], b) :: b in post[..i]
  }

  lemma OrderedDescendants(g: Graph, post: seq<Node>)
    requires Complete(g) && Ordered(g, post, {}) && forall n | n in post :: n in g
    ensures DescendantsFirst(g, post)
  {
    forall i, b | 0 <= i < |post| && b in g && Reaches(g, post[i], b)
      ensures b in post[..i]
    {
      var d := set n | n in post[..i];
      forall n, k | n in d && k in g[n]
        ensures k in d
      {
        var j :| 0 <= j < i && post[..i][j] == n;
        assert post[j] == n && post[j] in post && k in g[post[j]];
        assert k in post[..j] && post[..j] <= post[..i];
      }
      assert Closed(g, d);
      assert post[i] in post;
      assert All(g[post[i]], d);
      assert d <= g.Keys;
    }
  }

  // A post-order search leaves each node after all its descendants exactly if no node it sees is on a cycle.
  lemma PostOrderIff(g: Graph, root: Node)
    requires Complete(g) && root in g
    ensures var t := Dfs(g, {}, [root]);
      DescendantsFirst(g, t.post) <==> forall n | n in t.done :: !Reaches(g, n, n)
  {
    var t := Dfs(g, {}, [root]);
    DfsCloses(g, {}, [root]);
    if forall n | n in t.done :: !Reaches(g, n, n) {
      DfsLeaves(g, {}, [root], {});
      OrderedBase(g, t.post, {} - {}, {});
      forall n | n in t.post
        ensures n in g
      {
        Left(g, {}, [root], n);
      }
      OrderedDescendants(g, t.post);
    } else {
      var n :| n in t.done && Reaches(g, n, n);
      CycleBreaksOrder(g, root, n);
    }
  }

  lemma CycleBreaksOrder(g: Graph, root: Node, n: Node)
    requires n in Dfs(g, {}, [root]).done && n in g && Reaches(g, n, n)
    ensures !DescendantsFirst(g, Dfs(g, {}, [root]).post)
  {
    var post := Dfs(g, {}, [root]).post;
    Left(g, {}, [root], n);
    var i :| 0 <= i < |post| && post[i] == n;
    DfsOnce(g, {}, [root]);
    assert multiset(post)[n] <= 1;
    OncePlace(post, i);
  }

  lemma OncePlace(s: seq<Node>, i: nat)
    requires i < |s| && multiset(s)[s[i]] <= 1
    ensures s[i] !in s[..i]
  {
    assert s == s[..i] + [s[i]] + s[i + 1..];
    assert s[i] !in multiset(s[..i]);
  }

  // A pre-order search from the root enters it first, and then each other node after one of its parents.
  lemma PreOrder(g: Graph, root: Node)
    requires Complete(g) && root in g
    ensures var t := Dfs(g, {}, [root]);
      && t.pre != [] && t.pre[0] == root
      && (forall i | 0 < i < |t.pre| :: Follows(g, t.pre, i))
      && multiset(t.pre) == multiset(Below(g, root) + {root})
  {
    var t := Dfs(g, {}, [root]);
    DfsOnce(g, {}, [root]);
    assert t.done - {} == t.done;
    assert [root][1..] == [];
    forall i | 0 < i < |t.pre|
      ensures Follows(g, t.pre, i)
    {
      DfsEnters(g, {}, [root], i);
      OncePlace(t.pre, i);
      assert t.pre[..i][0] == root;
    }
    RootAndBelow(g, root);
  }

  lemma RootAndBelow(g: Graph, root: Node)
    requires Complete(g) && root in g
    ensures Dfs(g, {}, [root]).done == Below(g, root) + {root}
  {
    var d := Dfs(g, {}, [root]).done;
    DfsCloses(g, {}, [root]);
    assert root in [root] && Closed(g, d);
    forall e: set<Node> | e <= g.Keys && All(g[root], e) && Closed(g, e)
      ensures d <= e + {root}
    {
      DfsStays(g, {}, [root], e + {root});
    }
    var e := Below(g, root);
    forall n, k | n in e && k in g[n]
      ensures k in e
    {
      ReachesOn(g, root, n, k);
    }
    forall k | k in g[root]
      ensures k in e
    {
      EdgeReaches(g, root, k);
    }
  }

  // ----- The searches of node.cc and node.h

  ghost function Kids(nodes: set<Node>): Graph
    reads nodes
  {
    Of(nodes).kids
  }

  ghost function Elders(nodes: set<Node>): Graph
    reads nodes
  {
    Of(nodes).parents
  }

  lemma LawComplete(v: View)
    requires Law(v)
    ensures Complete(v.kids) && Complete(v.parents)
  {
    forall n, k | n in v.kids && k in v.kids[n]
      ensures k in v.kids
    {
      KnownChild(v, n, k);
    }
    forall n, k | n in v.parents && k in v.parents[n]
      ensures k in v.parents
    {
      KnownParent(v, k, n);
    }
  }

  // One more node of a list that is searched one after the other.
  lemma DfsStep(g: Graph, done: set<Node>, cs: seq<Node>, i: nat)
    requires i < |cs| && cs[i] in g
    ensures var rest := Dfs(g, done, cs[i..]);
      if cs[i] in done then rest == Dfs(g, done, cs[i + 1..])
      else
        var t := Dfs(g, done + {cs[i]}, g[cs[i]]);
        var u := Dfs(g, t.done, cs[i + 1..]);
        rest == Trace(u.done, [cs[i]] + t.pre + u.pre, t.post + [cs[i]] + u.post)
  {
  }

  // childsInternal
  method ChildsInternal(node: Node, childs: set<Node>, ghost nodes: set<Node>) returns (r: set<Node>)
    requires node in nodes && Complete(Kids(nodes))
    ensures r == Dfs(Kids(nodes), childs, Kids(nodes)[node]).done && childs <= r
    decreases nodes - childs
  {
    ghost var g := Kids(nodes);
    var cs := node.childs;
    r := childs;
    var i := 0;
    while i < |cs|
      invariant 0 <= i <= |cs| && childs <= r && cs == g[node]
      invariant Dfs(g, r, cs[i..]).done == Dfs(g, childs, cs).done
    {
      DfsStep(g, r, cs, i);
      if cs[i] !in r {
        r := ChildsInternal(cs[i], r + {cs[i]}, nodes);
      }
      i := i + 1;
    }
  }

  // childs(true): exactly the nodes that can be reached.
  method Childs(node: Node, ghost nodes: set<Node>) returns (r: set<Node>)
    requires node in nodes && Law(Of(nodes))
    ensures r == Below(Kids(nodes), node)
  {
    LawComplete(Of(nodes));
    r := ChildsInternal(node, {}, nodes);
    DfsIsBelow(Kids(nodes), node);
  }

  // hasChildInternal, as the public functions call it
  method HasChildInternal(self: Node, node: Node, recursive: bool, done: set<Node>, ghost nodes: set<Node>)
    returns (found: bool, r: set<Node>)
    requires self in nodes && Complete(Kids(nodes))
    ensures var g := Kids(nodes);
      var reach := if recursive then Dfs(g, done, g[self]).done else done + (set c | c in g[self]);
      && done <= r && (found <==> node in reach - done) && (!found ==> r == reach)
    decreases nodes - done
  {
    ghost var g := Kids(nodes);
    var cs := self.childs;
    r := done;
    var i := 0;
    while i < |cs|
      invariant 0 <= i <= |cs| && done <= r && cs == g[self] && node !in r - done
      invariant recursive ==> Dfs(g, r, cs[i..]).done == Dfs(g, done, cs).done
      invariant !recursive ==> r == done + set c | c in cs[..i]
    {
      DfsStep(g, r, cs, i);
      if cs[i] !in r {
        r := r + {cs[i]};
        if cs[i] == node {
          return true, r;
        }
        if recursive {
          found, r := HasChildInternal(cs[i], node, true, r, nodes);
          if found {
            return true, r;
          }
        }
      }
      i := i + 1;
    }
    assert cs[..i] == cs;
    return false, r;
  }

  method HasChild(self: Node, node: Node, recursive: bool, ghost nodes: set<Node>) returns (found: bool)
    requires self in nodes && Law(Of(nodes))
    ensures recursive ==> (found <==> Reaches(Kids(nodes), self, node))
    ensures !recursive ==> (found <==> node in self.childs)
  {
    LawComplete(Of(nodes));
    ghost var g := Kids(nodes);
    var done;
    found, done := HasChildInternal(self, node, recursive, {}, nodes);
    DfsIsBelow(g, self);
    if recursive && Reaches(g, self, node) {
      ReachesKnown(g, self, node);
    }
  }

  lemma ReachesKnown(g: Graph, a: Node, b: Node)
    requires Complete(g) && Reaches(g, a, b)
    ensures b in g
  {
  }

  ghost function Count(s: seq<Node>, n: Node): nat {
    multiset(s)[n]
  }

  function Filter(s: seq<Node>, keep: set<Node>): seq<Node> {
    if s == [] then [] else if s[0] in keep then [s[0]] + Filter(s[1..], keep) else Filter(s[1..], keep)
  }

  lemma {:induction false} FilterJoin(s: seq<Node>, r: seq<Node>, keep: set<Node>)
    ensures Filter(s + r, keep) == Filter(s, keep) + Filter(r, keep)
  {
    if s == [] {
      assert s + r == r;
    } else {
      assert (s + r)[1..] == s[1..] + r;
      FilterJoin(s[1..], r, keep);
      assert [s[0]] + (Filter(s[1..], keep) + Filter(r, keep)) == [s[0]] + Filter(s[1..], keep) + Filter(r, keep);
    }
  }

  lemma {:induction false} FilterCounts(s: seq<Node>, keep: set<Node>)
    ensures forall n :: Count(Filter(s, keep), n) == if n in keep then Count(s, n) else 0
  {
    if s != [] {
      FilterCounts(s[1..], keep);
      assert s == [s[0]] + s[1..];
    }
  }

  lemma DfsNone(g: Graph, done: set<Node>)
    ensures Dfs(g, done, []) == Trace(done, [], [])
  {
  }

  lemma FilterNone(keep: set<Node>)
    ensures Filter([], keep) == []
  {
  }

  lemma Visited(pre: seq<Node>, p: Node, s: seq<Node>, rest: seq<Node>, keep: set<Node>)
    ensures pre + ([p] + s + rest) == pre + [p] + s + rest
    ensures Filter(pre + [p] + s, keep) == Filter(pre, keep) + (if p in keep then [p] else []) + Filter(s, keep)
  {
    FilterJoin(pre, [p], keep);
    FilterJoin(pre + [p], s, keep);
  }

  // _parentsInternal, where `ofType` are the instances of the type asked for
  method ParentsInternal(n: Node, ofType: set<Node>, dst: seq<Node>, done: set<Node>, ghost nodes: set<Node>)
    returns (r: seq<Node>, seen: set<Node>)
    requires n in nodes && Complete(Elders(nodes))
    ensures var t := Dfs(Elders(nodes), done, Elders(nodes)[n]);
      seen == t.done && r == dst + Filter(t.pre, ofType)
    decreases nodes - done
  {
    hide Filter, Dfs, Of;
    ghost var g := Elders(nodes);
    ghost var pre := [];
    FilterNone(ofType);
    Listed(nodes, n);
    var ps := n.parents;
    r, seen := dst, done;
    var i := 0;
    while i < |ps|
      invariant 0 <= i <= |ps| && done <= seen && ps == g[n] && r == dst + Filter(pre, ofType)
      invariant var t, u := Dfs(g, done, ps), Dfs(g, seen, ps[i..]); t.done == u.done && t.pre == pre + u.pre
    {
      DfsStep(g, seen, ps, i);
      var p := ps[i];
      if p !in seen {
        ghost var t := Dfs(g, seen + {p}, g[p]);
        Visited(pre, p, t.pre, Dfs(g, t.done, ps[i + 1..]).pre, ofType);
        if p in ofType {
          r := r + [p];
        }
        r, seen := ParentsInternal(p, ofType, r, seen + {p}, nodes);
        pre := pre + [p] + t.pre;
      }
      i := i + 1;
    }
    DfsNone(g, seen);
    assert ps[i..] == [];
    assert Dfs(g, done, ps).pre == pre;
  }

  // parents<T>(): the nodes of the type from which the node can be reached, each once.
  method Parents(n: Node, ofType: set<Node>, ghost nodes: set<Node>) returns (r: seq<Node>)
    requires n in nodes && Law(Of(nodes))
    ensures forall p: Node :: p in r ==> p in nodes
    ensures forall p | p in nodes :: Count(r, p) == if p in ofType && Reaches(Kids(nodes), p, n) then 1 else 0
  {
    LawComplete(Of(nodes));
    var done;
    r, done := ParentsInternal(n, ofType, [], {}, nodes);
    SameNodes(Of(nodes));
    AreElders(Of(nodes), n, ofType);
  }

  lemma AreElders(v: View, n: Node, ofType: set<Node>)
    requires Law(v) && n in v.kids && n in v.parents
    ensures var r := Filter(Dfs(v.parents, {}, v.parents[n]).pre, ofType);
      && (forall p: Node :: p in r ==> p in v.kids)
      && (forall p | p in v.kids :: Count(r, p) == if p in ofType && Reaches(v.kids, p, n) then 1 else 0)
  {
    hide Reaches, Law, Dfs, Filter, Complete, Below;
    LawComplete(v);
    var t := Dfs(v.parents, {}, v.parents[n]);
    var r := Filter(t.pre, ofType);
    DfsOnce(v.parents, {}, v.parents[n]);
    DfsIsBelow(v.parents, n);
    FilterCounts(t.pre, ofType);
    assert t.done - {} == t.done;
    forall p: Node
      ensures Count(r, p) == if p in v.kids && p in ofType && Reaches(v.kids, p, n) then 1 else 0
    {
      IsElder(v, n, p);
      assert Count(t.pre, p) == if p in t.done then 1 else 0;
    }
    forall p: Node | p in r
      ensures p in v.kids
    {
      assert Count(r, p) > 0;
    }
  }

  lemma IsElder(v: View, n: Node, p: Node)
    requires Law(v) && n in v.kids
    ensures p in Below(v.parents, n) <==> p in v.kids && Reaches(v.kids, p, n)
  {
    hide Reaches, Law;
    SameNodes(v);
    if p in v.parents && Reaches(v.parents, n, p) {
      Downwards(v, p, n);
    }
    if p in v.kids && Reaches(v.kids, p, n) {
      Upwards(v, p, n);
    }
  }

  lemma SameNodes(v: View)
    requires Law(v)
    ensures v.kids.Keys == v.parents.Keys
  {
  }
}
