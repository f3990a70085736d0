/**
  The graph of AST nodes (ast/node.cc, ast/node.h): each node lists its children and its parents, each as often as
  there are edges. Nodes may have several parents, and the graph may be cyclic.
*/
module AstNode {

  // Who is listed where. All nodes that exist make up the domain of both maps.
  datatype View = View(kids: map<Node, seq<Node>>, parents: map<Node, seq<Node>>)

  ghost function Of(nodes: set<Node>): (v: View)
    reads nodes
    ensures v.kids.Keys == nodes && v.parents.Keys == nodes
  {
    View(map n | n in nodes :: n.childs, map n | n in nodes :: n.parents)
  }

  // Nobody refers to a node that does not exist, and a node is among the parents of another as often as that is
  // among its children.
  ghost predicate Law(v: View) {
    && v.kids.Keys == v.parents.Keys
    && (forall n {:trigger Exist(v, n)} | n in v.kids :: Exist(v, n))
    && (forall p, n {:trigger Balanced(v, p, n)} | p in v.kids && n in v.kids :: Balanced(v, p, n))
  }

  ghost predicate Exist(v: View, n: Node) {
    && (n in v.kids ==> forall k | k in v.kids[n] :: k in v.kids)
    && (n in v.parents ==> forall p | p in v.parents[n] :: p in v.kids)
  }

  ghost predicate Balanced(v: View, p: Node, n: Node) {
    p in v.kids && n in v.parents ==> multiset(v.parents[n])[p] == multiset(v.kids[p])[n]
  }

  // ----- Sequences

  function Drop<T>(s: seq<T>, i: nat): (r: seq<T>)
    requires i < |s|
    ensures forall x | x in r :: x in s
  {
    s[..i] + s[i + 1..]
  }

  lemma DropCounts<T>(s: seq<T>, i: nat)
    requires i < |s|
    ensures multiset(s) == multiset(Drop(s, i)) + multiset{s[i]}
  {
    assert s == s[..i] + [s[i]] + s[i + 1..];
  }

  // std::list::remove
  function Without<T(==)>(s: seq<T>, x: T): (r: seq<T>)
    ensures multiset(r) == multiset(s)[x := 0]
  {
    if s == [] then []
    else
      assert s == [s[0]] + s[1..];
      if s[0] == x then Without(s[1..], x) else [s[0]] + Without(s[1..], x)
  }

  lemma {:induction false} WithoutNone<T>(s: seq<T>, x: T)
    requires x !in s
    ensures Without(s, x) == s
  {
    if s != [] {
      WithoutNone(s[1..], x);
    }
  }

  lemma WithoutTwice<T>(s: seq<T>, x: T)
    ensures Without(Without(s, x), x) == Without(s, x)
  {
  }

  lemma {:induction false} WithoutDrop<T>(s: seq<T>, x: T, i: nat)
    requires i < |s| && s[i] == x
    ensures Without(Drop(s, i), x) == Without(s, x)
  {
    if i > 0 {
      assert Drop(s, i)[1..] == Drop(s[1..], i - 1);
      WithoutDrop(s[1..], x, i - 1);
    } else {
      assert Drop(s, 0) == s[1..];
    }
  }

  // ----- The operations

  // A node without relatives comes into being.
  ghost function Joined(v: View, n: Node): View {
    View(v.kids[n := []], v.parents[n := []])
  }

  lemma JoinedLaw(v: View, n: Node)
    requires Law(v) && n !in v.kids
    ensures Law(Joined(v, n))
  {
    var v' := Joined(v, n);
    forall m | m in v'.kids
      ensures Exist(v', m)
    {
      assert m != n ==> Exist(v, m);
    }
    forall q, m | q in v'.kids && m in v'.kids
      ensures Balanced(v', q, m)
    {
      assert q != n && m != n ==> Balanced(v, q, m);
      assert q != n && m == n ==> Exist(v, q);
      assert q == n && m != n ==> Exist(v, m);
    }
  }

  ghost function Added(v: View, p: Node, n: Node): View
    requires p in v.kids && n in v.parents
  {
    View(v.kids[p := v.kids[p] + [n]], v.parents[n := v.parents[n] + [p]])
  }

  lemma AddedLaw(v: View, p: Node, n: Node)
    requires Law(v) && p in v.kids && n in v.parents
    ensures Law(Added(v, p, n))
  {
    var v' := Added(v, p, n);
    forall m | m in v'.kids
      ensures Exist(v', m)
    {
      assert Exist(v, m);
    }
    forall q, m | q in v'.kids && m in v'.kids
      ensures Balanced(v', q, m)
    {
      assert Balanced(v, q, m);
    }
  }

  // Child i of p goes, and so does occurrence j of p among its parents.
  ghost function Removed(v: View, p: Node, i: nat, n: Node, j: nat): View
    requires p in v.kids && n in v.parents && i < |v.kids[p]| && j < |v.parents[n]|
  {
    View(v.kids[p := Drop(v.kids[p], i)], v.parents[n := Drop(v.parents[n], j)])
  }

  lemma RemovedLaw(v: View, p: Node, i: nat, n: Node, j: nat)
    requires Law(v) && p in v.kids && n in v.parents && i < |v.kids[p]| && j < |v.parents[n]|
    requires v.kids[p][i] == n && v.parents[n][j] == p
    ensures Law(Removed(v, p, i, n, j))
  {
    var v' := Removed(v, p, i, n, j);
    DropCounts(v.kids[p], i);
    DropCounts(v.parents[n], j);
    forall m | m in v'.kids
      ensures Exist(v', m)
    {
      assert Exist(v, m);
    }
    forall q, m | q in v'.kids && m in v'.kids
      ensures Balanced(v', q, m)
    {
      assert Balanced(v, q, m);
    }
  }

  lemma ChildHasParent(v: View, p: Node, n: Node)
    requires Law(v) && p in v.kids && n in v.kids
    ensures n in v.kids[p] <==> p in v.parents[n]
  {
    assert Balanced(v, p, n);
    assert n in v.kids[p] <==> multiset(v.kids[p])[n] > 0;
    assert p in v.parents[n] <==> multiset(v.parents[n])[p] > 0;
  }

  ghost function Stripped(v: View, p: Node, n: Node): View
    requires p in v.kids && n in v.parents
  {
    View(v.kids[p := Without(v.kids[p], n)], v.parents[n := Without(v.parents[n], p)])
  }

  lemma StrippedStep(v: View, p: Node, i: nat, n: Node, j: nat)
    requires p in v.kids && n in v.parents && i < |v.kids[p]| && j < |v.parents[n]|
    requires v.kids[p][i] == n && v.parents[n][j] == p
    ensures Stripped(Removed(v, p, i, n, j), p, n) == Stripped(v, p, n)
    ensures |Removed(v, p, i, n, j).kids[p]| < |v.kids[p]|
  {
    hide Without, Drop;
    WithoutDrop(v.kids[p], n, i);
    WithoutDrop(v.parents[n], p, j);
    UpdateTwice(v.kids, p, Drop(v.kids[p], i), Without(v.kids[p], n));
    UpdateTwice(v.parents, n, Drop(v.parents[n], j), Without(v.parents[n], p));
    DropLength(v.kids[p], i);
  }

  lemma UpdateTwice<K, T>(m: map<K, T>, k: K, x: T, y: T)
    ensures m[k := x][k := y] == m[k := y]
  {
  }

  lemma DropLength<T>(s: seq<T>, i: nat)
    requires i < |s|
    ensures |Drop(s, i)| == |s| - 1
  {
  }

  lemma StrippedDone(v: View, p: Node, n: Node)
    requires Law(v) && p in v.kids && n in v.kids && n !in v.kids[p]
    ensures Stripped(v, p, n) == v
  {
    ChildHasParent(v, p, n);
    hide Law, Without;
    WithoutNone(v.kids[p], n);
    WithoutNone(v.parents[n], p);
  }

  // n is nobody's child anymore.
  ghost function AllWithout(lists: map<Node, seq<Node>>, n: Node): map<Node, seq<Node>> {
    map p | p in lists :: Without(lists[p], n)
  }

  ghost function Orphaned(v: View, n: Node): View {
    View(AllWithout(v.kids, n), v.parents[n := []])
  }

  lemma OrphanedStep(v: View, p: Node, i: nat, n: Node, j: nat)
    requires p in v.kids && n in v.parents && i < |v.kids[p]| && j < |v.parents[n]| && v.kids[p][i] == n
    ensures Orphaned(Removed(v, p, i, n, j), n) == Orphaned(v, n)
    ensures |Removed(v, p, i, n, j).parents[n]| < |v.parents[n]|
  {
    hide Without, Drop;
    WithoutDrop(v.kids[p], n, i);
    UpdateTwice(v.parents, n, Drop(v.parents[n], j), []);
    DropLength(v.parents[n], j);
    WithoutUpdate(v.kids, p, Drop(v.kids[p], i), n);
  }

  lemma WithoutUpdate(kids: map<Node, seq<Node>>, p: Node, s: seq<Node>, n: Node)
    requires p in kids && Without(s, n) == Without(kids[p], n)
    ensures AllWithout(kids[p := s], n) == AllWithout(kids, n)
  {
  }

  lemma OrphanedDone(v: View, n: Node)
    requires Law(v) && n in v.kids && v.parents[n] == []
    ensures Orphaned(v, n) == v
  {
    forall p | p in v.kids
      ensures Without(v.kids[p], n) == v.kids[p]
    {
      hide Law, Without;
      ChildHasParent(v, p, n);
      WithoutNone(v.kids[p], n);
    }
    hide Law, Without;
    assert AllWithout(v.kids, n) == v.kids;
  }

  // n has no children anymore.
  ghost function Emptied(v: View, n: Node): View {
    View(v.kids[n := []], AllWithout(v.parents, n))
  }

  lemma EmptiedLaw(v: View, n: Node)
    requires Law(v) && n in v.kids
    ensures Law(Emptied(v, n))
  {
    var v' := Emptied(v, n);
    forall m | m in v'.kids
      ensures Exist(v', m)
    {
      assert Exist(v, m);
      assert forall p | p in v'.parents[m] :: p in multiset(v'.parents[m]);
    }
    forall q, m | q in v'.kids && m in v'.kids
      ensures Balanced(v', q, m)
    {
      assert Balanced(v, q, m);
      assert q == n ==> multiset(v'.kids[q]) == multiset{};
    }
  }

  function Times<T>(x: T, k: nat): (s: seq<T>)
    ensures |s| == k && forall y | y in s :: y == x
  {
    if k == 0 then [] else [x] + Times(x, k - 1)
  }

  // Every x taken out, and as many y put at the end.
  function Swapped<T(==)>(s: seq<T>, x: T, y: T): seq<T> {
    Without(s, x) + Times(y, multiset(s)[x])
  }

  // Entry by entry, and in the same order
  lemma {:induction false} WithoutAppend<T>(s: seq<T>, x: T, y: T)
    ensures Without([], x) == []
    ensures Without(s + [y], x) == if y == x then Without(s, x) else Without(s, x) + [y]
  {
    if s != [] {
      assert (s + [y])[1..] == s[1..] + [y];
      WithoutAppend(s[1..], x, y);
    }
  }

  lemma SwappedStep<T>(s: seq<T>, x: T, y: T, i: nat)
    requires i < |s| && s[i] == x && x != y
    ensures Swapped(Drop(s + [y], i), x, y) == Swapped(s, x, y)
  {
    assert Drop(s + [y], i) == Drop(s, i) + [y];
    WithoutAppend(Drop(s, i), x, y);
    WithoutDrop(s, x, i);
    DropCounts(s, i);
    assert multiset(Drop(s, i) + [y])[x] == multiset(s)[x] - 1;
  }

  lemma SwappedNone<T>(s: seq<T>, x: T, y: T)
    requires x !in s
    ensures Swapped(s, x, y) == s
  {
    WithoutNone(s, x);
    assert multiset(s)[x] == 0;
  }

  predicate Chosen(only: Node?, p: Node) {
    only == null || only == p
  }

  ghost function AllSwapped(kids: map<Node, seq<Node>>, o: Node, n: Node, only: Node?): map<Node, seq<Node>> {
    map p | p in kids :: if Chosen(only, p) then Swapped(kids[p], o, n) else kids[p]
  }

  lemma SwapStep(v: View, p: Node, i: nat, o: Node, n: Node, j: nat, only: Node?)
    requires p in v.kids && o in v.parents && n in v.parents && i < |v.kids[p]| && j < |v.parents[o]|
    requires v.kids[p][i] == o && o != n && Chosen(only, p)
    ensures var v' := Removed(Added(v, p, n), p, i, o, j);
      && AllSwapped(v'.kids, o, n, only) == AllSwapped(v.kids, o, n, only)
      && |v'.parents[o]| < |v.parents[o]|
      && v'.parents - {o, n} == v.parents - {o, n}
  {
    hide Swapped, Drop;
    SwappedStep(v.kids[p], o, n, i);
    DropLength(v.parents[o], j);
    var s := Drop(v.kids[p] + [n], i);
    UpdateTwice(v.kids, p, v.kids[p] + [n], s);
    SwappedUpdate(v.kids, p, s, o, n, only);
    OthersSame(v.parents, n, v.parents[n] + [p], o, Drop(v.parents[o], j));
  }

  lemma OthersSame<T>(m: map<Node, T>, n: Node, x: T, o: Node, y: T)
    ensures m[n := x][o := y] - {o, n} == m - {o, n}
  {
  }

  lemma SwappedUpdate(kids: map<Node, seq<Node>>, p: Node, s: seq<Node>, o: Node, n: Node, only: Node?)
    requires p in kids && Swapped(s, o, n) == Swapped(kids[p], o, n) && Chosen(only, p)
    ensures AllSwapped(kids[p := s], o, n, only) == AllSwapped(kids, o, n, only)
  {
  }

  lemma SwapDone(v: View, o: Node, n: Node, only: Node?)
    requires Law(v) && o in v.kids && forall p | p in v.parents[o] :: !Chosen(only, p)
    ensures AllSwapped(v.kids, o, n, only) == v.kids
  {
    forall p | p in v.kids && Chosen(only, p)
      ensures Swapped(v.kids[p], o, n) == v.kids[p]
    {
      hide Law, Swapped;
      ChildHasParent(v, p, o);
      SwappedNone(v.kids[p], o, n);
    }
    hide Law, Swapped;
  }

  // How many slots there are, counted once for each entry of the list.
  ghost function Slots(kids: map<Node, seq<Node>>, ps: seq<Node>): nat {
    if ps == [] then 0 else (if ps[0] in kids then |kids[ps[0]]| else 0) + Slots(kids, ps[1..])
  }

  lemma {:induction false} FewerSlots(kids: map<Node, seq<Node>>, ps: seq<Node>, p: Node, s: seq<Node>)
    requires p in kids && |s| < |kids[p]|
    ensures Slots(kids[p := s], ps) <= Slots(kids, ps)
    ensures p in ps ==> Slots(kids[p := s], ps) < Slots(kids, ps)
  {
    if ps != [] {
      FewerSlots(kids, ps[1..], p, s);
    }
  }

  // What is left when a node is gone.
  ghost function Gone(v: View, n: Node): View {
    View(AllWithout(v.kids, n) - {n}, AllWithout(v.parents, n) - {n})
  }

  lemma GoneLaw(v: View, n: Node)
    requires Law(v) && n in v.kids
    ensures Law(Gone(v, n))
  {
    var v' := Gone(v, n);
    forall m | m in v'.kids
      ensures Exist(v', m)
    {
      assert Exist(v, m);
      assert forall p | p in v'.parents[m] :: p in multiset(v'.parents[m]);
      assert forall p | p in v'.kids[m] :: p in multiset(v'.kids[m]);
    }
    forall q, m | q in v'.kids && m in v'.kids
      ensures Balanced(v', q, m)
    {
      assert Balanced(v, q, m);
    }
  }

  lemma WithoutEmpty(m: map<Node, seq<Node>>, n: Node)
    requires n in m && m[n] == []
    ensures AllWithout(m, n)[n] == []
  {
  }

  lemma KnownChild(v: View, n: Node, k: Node)
    requires Law(v) && n in v.kids && k in v.kids[n]
    ensures k in v.kids
  {
    assert Exist(v, n);
  }

  ghost function Forgotten(m: map<Node, seq<Node>>, n: Node, done: set<Node>): map<Node, seq<Node>> {
    map k | k in m :: if k in done then Without(m[k], n) else m[k]
  }

  lemma NothingForgotten(m: map<Node, seq<Node>>, n: Node)
    ensures Forgotten(m, n, {}) == m
  {
  }

  lemma ForgetOne(m: map<Node, seq<Node>>, n: Node, done: set<Node>, c: Node)
    requires c in m
    ensures var f := Forgotten(m, n, done); c in f && f[c := Without(f[c], n)] == Forgotten(m, n, done + {c})
  {
    hide Without;
    WithoutTwice(m[c], n);
  }

  lemma AllForgotten(v: View, n: Node, done: set<Node>)
    requires Law(v) && n in v.kids && forall k | k in v.kids[n] :: k in done
    ensures Forgotten(v.parents, n, done) == AllWithout(v.parents, n)
  {
    forall m | m in v.parents && m !in done
      ensures Without(v.parents[m], n) == v.parents[m]
    {
      hide Without, Law;
      ChildHasParent(v, n, m);
      WithoutNone(v.parents[m], n);
    }
    hide Without;
  }

  lemma Listed(nodes: set<Node>, n: Node)
    requires n in nodes
    ensures n.childs == Of(nodes).kids[n] && n.parents == Of(nodes).parents[n]
  {
  }

  // From one map to the other, only entries of n are gone, and only from lists of members of ps.
  ghost predicate Erased(m: map<Node, seq<Node>>, m': map<Node, seq<Node>>, ps: seq<Node>, n: Node) {
    m.Keys == m'.Keys && AllWithout(m, n) == AllWithout(m', n) && forall p | p in m && p !in ps :: m'[p] == m[p]
  }

  lemma ErasedNone(m: map<Node, seq<Node>>, ps: seq<Node>, n: Node)
    ensures Erased(m, m, ps, n)
  {
  }

  lemma ErasedOne(m: map<Node, seq<Node>>, p: Node, i: nat, ps: seq<Node>, n: Node)
    requires p in m && p in ps && i < |m[p]| && m[p][i] == n
    ensures var m' := m[p := Drop(m[p], i)]; Erased(m, m', ps, n) && Slots(m', ps) < Slots(m, ps)
  {
    hide Without, Drop, AllWithout;
    WithoutDrop(m[p], n, i);
    WithoutUpdate(m, p, Drop(m[p], i), n);
    DropLength(m[p], i);
    FewerSlots(m, ps, p, Drop(m[p], i));
  }

  lemma ErasedTrans(m: map<Node, seq<Node>>, m1: map<Node, seq<Node>>, m2: map<Node, seq<Node>>, ps: seq<Node>, n: Node)
    requires Erased(m, m1, ps, n) && Erased(m1, m2, ps, n)
    ensures Erased(m, m2, ps, n)
  {
  }

  lemma OnlyParents(v: View, n: Node)
    requires Law(v) && n in v.kids
    ensures forall p | p in Without(v.parents[n], n) :: p in v.kids
  {
    assert Exist(v, n);
    forall p | p in Without(v.parents[n], n)
      ensures p in v.kids
    {
      WithoutMember(v.parents[n], n, p);
    }
  }

  ghost predicate NotIn(kids: map<Node, seq<Node>>, ps: seq<Node>, n: Node) {
    forall p | p in ps && p in kids :: n !in kids[p]
  }

  lemma IsGone(v: View, kids: map<Node, seq<Node>>, n: Node)
    requires Law(v) && n in v.kids && n in v.parents
    requires Erased(v.kids, kids, Without(v.parents[n], n), n) && NotIn(kids, Without(v.parents[n], n), n)
    ensures kids - {n} == AllWithout(v.kids, n) - {n}
  {
    hide Without, AllWithout, Erased, NotIn, Law;
    ErasedAt(v, kids, n, n);
    forall p | p in kids && p != n
      ensures kids[p] == AllWithout(v.kids, n)[p]
    {
      ErasedAt(v, kids, n, p);
    }
  }

  lemma ErasedAt(v: View, kids: map<Node, seq<Node>>, n: Node, p: Node)
    requires Law(v) && n in v.kids && n in v.parents && p in v.kids
    requires Erased(v.kids, kids, Without(v.parents[n], n), n) && NotIn(kids, Without(v.parents[n], n), n)
    ensures v.kids.Keys == kids.Keys == AllWithout(v.kids, n).Keys
    ensures p != n ==> kids[p] == AllWithout(v.kids, n)[p]
  {
    WithoutMember(v.parents[n], n, p);
    ChildHasParent(v, p, n);
    hide Without, Law;
    assert AllWithout(kids, n)[p] == AllWithout(v.kids, n)[p];
    if n !in kids[p] {
      WithoutNone(kids[p], n);
    }
    if n !in v.kids[p] {
      WithoutNone(v.kids[p], n);
    }
  }

  lemma WithoutMember<T>(s: seq<T>, x: T, y: T)
    ensures y in Without(s, x) <==> y in s && y != x
  {
  }

  lemma GoneParts(v: View, n: Node)
    ensures Gone(v, n) == View(AllWithout(v.kids, n) - {n}, AllWithout(v.parents, n) - {n})
    ensures n in v.parents ==> n in AllWithout(v.parents, n) && AllWithout(v.parents, n)[n] == Without(v.parents[n], n)
  {
  }

  lemma OfLess(nodes: set<Node>, n: Node)
    ensures Of(nodes - {n}) == View(Of(nodes).kids - {n}, Of(nodes).parents - {n})
  {
  }

  lemma KnownParent(v: View, p: Node, n: Node)
    requires Law(v) && n in v.parents && p in v.parents[n]
    ensures p in v.kids && n in v.kids[p]
  {
    assert Exist(v, n);
    ChildHasParent(v, p, n);
  }

  lemma WithoutSame(m: map<Node, seq<Node>>, m': map<Node, seq<Node>>, o: Node, n: Node)
    requires m - {o, n} == m' - {o, n}
    ensures AllWithout(m, o) - {o, n} == AllWithout(m', o) - {o, n}
  {
    hide Without;
    OthersAre(m, m', o, n);
    OthersAre(m', m, o, n);
  }

  // ----- What the views say of the nodes

  lemma AllListed(nodes: set<Node>)
    ensures Of(nodes).kids.Keys == Of(nodes).parents.Keys == nodes
    ensures forall p | p in nodes :: Of(nodes).kids[p] == p.childs && Of(nodes).parents[p] == p.parents
  {
  }

  lemma StrippedLists(v: View, p: Node, n: Node)
    requires p in v.kids && n in v.parents
    ensures Stripped(v, p, n).kids.Keys == v.kids.Keys && Stripped(v, p, n).parents.Keys == v.parents.Keys
    ensures forall q | q in v.kids :: Stripped(v, p, n).kids[q] == if q == p then Without(v.kids[q], n) else v.kids[q]
    ensures forall q | q in v.parents ::
      Stripped(v, p, n).parents[q] == if q == n then Without(v.parents[q], p) else v.parents[q]
  {
  }

  lemma OrphanedLists(v: View, n: Node)
    requires n in v.parents
    ensures Orphaned(v, n).kids.Keys == v.kids.Keys && Orphaned(v, n).parents.Keys == v.parents.Keys
    ensures forall q | q in v.kids :: Orphaned(v, n).kids[q] == Without(v.kids[q], n)
    ensures forall q | q in v.parents :: Orphaned(v, n).parents[q] == if q == n then [] else v.parents[q]
  {
  }

  lemma ReplacedLists(v: View, nodes: set<Node>, o: Node, n: Node, only: Node?)
    requires v.kids.Keys == v.parents.Keys == nodes
    requires Of(nodes).kids == AllSwapped(v.kids, o, n, only)[o := []] || only != null
    requires Of(nodes).kids == AllSwapped(v.kids, o, n, only) || only == null
    requires Of(nodes).parents - {o, n} == (if only == null then AllWithout(v.parents, o) else v.parents) - {o, n}
    ensures forall p | p in nodes ::
      && p.childs == (
        if only == null && p == o then []
        else if Chosen(only, p) then Without(v.kids[p], o) + Times(n, multiset(v.kids[p])[o])
        else v.kids[p])
      && (p != o && p != n ==> p.parents == if only == null then Without(v.parents[p], o) else v.parents[p])
  {
    hide Without, Times;
    AllListed(nodes);
    OthersAre(Of(nodes).parents, if only == null then AllWithout(v.parents, o) else v.parents, o, n);
  }

  lemma OthersAre(m: map<Node, seq<Node>>, m': map<Node, seq<Node>>, o: Node, n: Node)
    requires m - {o, n} == m' - {o, n}
    ensures forall k | k in m && k != o && k != n :: k in m' && m[k] == m'[k]
  {
    forall k | k in m && k != o && k != n
      ensures k in m' && m[k] == m'[k]
    {
      assert k in m - {o, n} && k in m' - {o, n};
    }
  }

  lemma GoneLists(v: View, n: Node)
    ensures Gone(v, n).kids.Keys == v.kids.Keys - {n} && Gone(v, n).parents.Keys == v.parents.Keys - {n}
    ensures forall q | q in v.kids && q != n :: Gone(v, n).kids[q] == Without(v.kids[q], n)
    ensures forall q | q in v.parents && q != n :: Gone(v, n).parents[q] == Without(v.parents[q], n)
  {
  }

  class Node {
    var parents: seq<Node>
    var childs: seq<Node>

    constructor ()
      ensures parents == [] && childs == []
    {
      parents, childs := [], [];
    }

    // The copy constructor takes over the children, but they do not hear of it.
    constructor Copy(other: Node)
      ensures parents == [] && childs == other.childs
    {
      parents, childs := [], other.childs;
    }

    // The node_ptr is a parameter by value, so its address is never the one of a slot.
    method AddChild(node: Node?, ghost nodes: set<Node>)
      requires this in nodes && Law(Of(nodes)) && (node == null || node in nodes)
      modifies nodes
      ensures Law(Of(nodes))
      ensures Of(nodes) == if node == null then old(Of(nodes)) else Added(old(Of(nodes)), this, node)
      ensures forall p | p in nodes ::
        && p.childs == (if p == this && node != null then old(p.childs) + [node] else old(p.childs))
        && p.parents == (if p == node then old(p.parents) + [this] else old(p.parents))
    {
      if node == null {
        return;
      }
      var n: Node := node;
      AddedLaw(Of(nodes), this, n);
      hide Law;
      ghost var v := Added(Of(nodes), this, n);
      childs := childs + [n];
      n.parents := n.parents + [this];
      assert Of(nodes).kids == v.kids;
      assert Of(nodes).parents == v.parents;
    }

    // removeChild of an iterator: the parent entry is found.
    method RemoveChildAt(i: nat, ghost nodes: set<Node>) returns (ghost j: nat)
      requires this in nodes && Law(Of(nodes)) && i < |childs|
      modifies nodes
      ensures Law(Of(nodes)) && old(childs)[i] in nodes
      ensures j < |old(childs[i].parents)| && old(childs[i].parents)[j] == this
      ensures Of(nodes) == Removed(old(Of(nodes)), this, i, old(childs)[i], j)
      ensures forall p | p in nodes ::
        && p.childs == (if p == this then old(p.childs)[..i] + old(p.childs)[i + 1..] else old(p.childs))
        && p.parents == if p == old(childs)[i] then old(p.parents)[..j] + old(p.parents)[j + 1..] else old(p.parents)
    {
      ghost var v := Of(nodes);
      var node := childs[i];
      assert Exist(v, this) && node in v.kids[this];
      ChildHasParent(v, this, node);
      var k := 0;
      while node.parents[k] != this
        invariant 0 <= k < |node.parents| && this in node.parents[k..]
        decreases |node.parents| - k
      {
        k := k + 1;
      }
      j := k;
      RemovedLaw(v, this, i, node, j);
      node.parents := Drop(node.parents, k);
      childs := Drop(childs, i);
      assert Of(nodes) == Removed(v, this, i, node, j);
    }
  
    method SlotOf(n: Node) returns (i: nat)
      ensures i <= |childs| && n !in childs[..i]
      ensures i < |childs| ==> childs[i] == n
    {
      i := 0;
      while i < |childs|
        invariant i <= |childs| && n !in childs[..i]
      {
        if childs[i] == n {
          return;
        }
        i := i + 1;
      }
    }

    // removeChild of a node_ptr
    method RemoveChild(node: Node?, ghost nodes: set<Node>)
      requires this in nodes && Law(Of(nodes)) && (node == null || node in nodes)
      modifies nodes
      ensures Law(Of(nodes))
      ensures Of(nodes) == if node == null then old(Of(nodes)) else Stripped(old(Of(nodes)), this, node)
      ensures forall p | p in nodes ::
        && p.childs == (if p == this && node != null then Without<Node>(old(p.childs), node) else old(p.childs))
        && p.parents == (if p == node then Without(old(p.parents), this) else old(p.parents))
    {
      hide Law, Stripped, Removed, Of, Without, Drop;
      AllListed(nodes);
      if node == null {
        return;
      }
      ghost var v := Of(nodes);
      var changed := true;
      while changed
        invariant Law(Of(nodes)) && Stripped(Of(nodes), this, node) == Stripped(v, this, node)
        invariant !changed ==> node !in childs
        decreases |childs|, changed
      {
        ghost var w := Of(nodes);
        AllListed(nodes);
        changed := false;
        var i := SlotOf(node);
        if i < |childs| {
          ghost var j := RemoveChildAt(i, nodes);
          Listed(nodes, this);
          StrippedStep(w, this, i, node, j);
          changed := true;
        }
      }
      AllListed(nodes);
      StrippedDone(Of(nodes), this, node);
      StrippedLists(v, this, node);
    }

    // The final assertion of the source is part of the postcondition.
    method RemoveFromParents(ghost nodes: set<Node>)
      requires this in nodes && Law(Of(nodes))
      modifies nodes
      ensures Law(Of(nodes)) && Of(nodes) == Orphaned(old(Of(nodes)), this) && parents == []
      ensures forall p | p in nodes ::
        p.childs == Without(old(p.childs), this) && (p != this ==> p.parents == old(p.parents))
    {
      hide Law, Orphaned, Removed, Of, Without, Drop;
      AllListed(nodes);
      ghost var v := Of(nodes);
      var changed := true;
      while changed
        invariant Law(Of(nodes)) && Orphaned(Of(nodes), this) == Orphaned(v, this)
        invariant !changed ==> parents == []
        decreases |parents|, changed
      {
        ghost var w := Of(nodes);
        AllListed(nodes);
        changed := false;
        var i := 0;
        while i < |parents| && !changed
          invariant changed || (i == 0 && Of(nodes) == w)
          invariant Law(Of(nodes)) && Orphaned(Of(nodes), this) == Orphaned(w, this)
          invariant changed ==> |parents| < |w.parents[this]|
        {
          var p := parents[i];
          AllListed(nodes);
          KnownParent(Of(nodes), p, this);
          var c := p.SlotOf(this);
          if c < |p.childs| {
            ghost var j := p.RemoveChildAt(c, nodes);
            OrphanedStep(w, p, c, this, j);
            Listed(nodes, this);
            changed := true;
          }
          i := i + 1;
        }
      }
      AllListed(nodes);
      OrphanedDone(Of(nodes), this);
      OrphanedLists(v, this);
    }
  
    // Replaces this node by n among the children of all parents, or of one; in the first case, it loses its own
    // children, too. The new node comes last among the children.
    method Replace(n: Node, parent: Node?, ghost nodes: set<Node>)
      requires this in nodes && n in nodes && Law(Of(nodes))
      modifies nodes
      ensures Law(Of(nodes))
      ensures n == this ==> Of(nodes) == old(Of(nodes))
      ensures n != this && parent != null ==>
        && Of(nodes).kids == AllSwapped(old(Of(nodes)).kids, this, n, parent)
        && Of(nodes).parents - {this, n} == old(Of(nodes)).parents - {this, n}
      ensures n != this && parent == null ==>
        && Of(nodes).kids == AllSwapped(old(Of(nodes)).kids, this, n, null)[this := []]
        && Of(nodes).parents - {this, n} == AllWithout(old(Of(nodes)).parents, this) - {this, n}
        && parents == []
      ensures n != this ==> forall p | p in nodes ::
        && p.childs == (
          if parent == null && p == this then []
          else if Chosen(parent, p) then Without(old(p.childs), this) + Times(n, multiset(old(p.childs))[this])
          else old(p.childs))
        && (p != this && p != n ==>
          p.parents == if parent == null then Without(old(p.parents), this) else old(p.parents))
    {
      hide Law, AllSwapped, AllWithout, Of, Without, Times, Swapped;
      if n == this {
        return;
      }
      ghost var v := Of(nodes);
      AllListed(nodes);
      SwapAll(n, parent, nodes);
      if parent == null {
        ghost var w := Of(nodes);
        DropChilds(nodes);
        WithoutSame(w.parents, v.parents, this, n);
        Listed(nodes, this);
        WithoutEmpty(w.parents, this);
      }
      ReplacedLists(v, nodes, this, n, parent);
    }

    // The loop
    method SwapAll(n: Node, parent: Node?, ghost nodes: set<Node>)
      requires this in nodes && n in nodes && n != this && Law(Of(nodes))
      modifies nodes
      ensures Law(Of(nodes)) && Of(nodes).kids == AllSwapped(old(Of(nodes)).kids, this, n, parent)
      ensures Of(nodes).parents - {this, n} == old(Of(nodes)).parents - {this, n}
      ensures parent == null ==> Of(nodes).parents[this] == []
    {
      hide Law, AllSwapped, Removed, Added, AllWithout;
      ghost var v := Of(nodes);
      var changed := true;
      while changed
        invariant Law(Of(nodes)) && AllSwapped(Of(nodes).kids, this, n, parent) == AllSwapped(v.kids, this, n, parent)
        invariant Of(nodes).parents - {this, n} == v.parents - {this, n}
        invariant !changed ==> forall p | p in parents :: !Chosen(parent, p)
        decreases |parents|, changed
      {
        ghost var w := Of(nodes);
        changed := false;
        var i := 0;
        while i < |parents| && !changed
          invariant changed || (i <= |parents| && Of(nodes) == w && forall p | p in parents[..i] :: !Chosen(parent, p))
          invariant Law(Of(nodes)) && AllSwapped(Of(nodes).kids, this, n, parent) == AllSwapped(w.kids, this, n, parent)
          invariant Of(nodes).parents - {this, n} == w.parents - {this, n}
          invariant changed ==> |parents| < |w.parents[this]|
        {
          var p := parents[i];
          if parent == null || parent == p {
            KnownParent(w, p, this);
            var c := p.SlotOf(this);
            if c < |p.childs| {
              changed := SwapOne(p, c, n, parent, nodes);
            }
          }
          i := i + 1;
        }
      }
      SwapDone(Of(nodes), this, n, parent);
      assert parent == null && parents != [] ==> parents[0] in parents && Chosen(parent, parents[0]);
    }

    method DropChilds(ghost nodes: set<Node>)
      requires this in nodes && Law(Of(nodes))
      modifies nodes
      ensures Law(Of(nodes)) && Of(nodes) == Emptied(old(Of(nodes)), this)
    {
      EmptiedLaw(Of(nodes), this);
      hide Law, AllWithout, Of;
      ForgetChilds(nodes);
      ClearChilds(nodes);
    }

    method ClearChilds(ghost nodes: set<Node>)
      requires this in nodes
      modifies nodes
      ensures Of(nodes) == View(old(Of(nodes)).kids[this := []], old(Of(nodes)).parents)
    {
      ghost var v := Of(nodes);
      childs := [];
      assert Of(nodes).kids == v.kids[this := []];
      assert Of(nodes).parents == v.parents;
    }

    method SwapOne(p: Node, c: nat, n: Node, ghost only: Node?, ghost nodes: set<Node>) returns (changed: bool)
      requires this in nodes && n in nodes && p in nodes && Law(Of(nodes)) && n != this && Chosen(only, p)
      requires c < |p.childs| && p.childs[c] == this
      modifies nodes
      ensures changed && Law(Of(nodes)) && |parents| < |old(parents)|
      ensures AllSwapped(Of(nodes).kids, this, n, only) == AllSwapped(old(Of(nodes)).kids, this, n, only)
      ensures Of(nodes).parents - {this, n} == old(Of(nodes)).parents - {this, n}
    {
      hide Law, AllSwapped, Removed;
      ghost var v := Of(nodes);
      p.AddChild(n, nodes);
      assert p.childs == Of(nodes).kids[p] == v.kids[p] + [n];
      assert parents == Of(nodes).parents[this] == v.parents[this];
      ghost var j := p.RemoveChildAt(c, nodes);
      SwapStep(v, p, c, this, n, j, only);
      assert parents == Of(nodes).parents[this];
      return true;
    }

    // Takes this node off the parents of its children.
    method ForgetChilds(ghost nodes: set<Node>)
      requires this in nodes && Law(Of(nodes))
      modifies nodes
      ensures Of(nodes) == View(old(Of(nodes)).kids, AllWithout(old(Of(nodes)).parents, this))
    {
      hide *;
      ghost var v, done := Of(nodes), {};
      NothingForgotten(v.parents, this);
      var i := 0;
      Listed(nodes, this);
      while i < |childs|
        invariant 0 <= i <= |childs| && childs == v.kids[this]
        invariant Of(nodes).kids == v.kids && Of(nodes).parents == Forgotten(v.parents, this, done)
        invariant forall j | 0 <= j < i :: childs[j] in done
      {
        var c := childs[i];
        KnownChild(v, this, c);
        ForgetOne(v.parents, this, done, c);
        c.LoseParent(this, nodes);
        Listed(nodes, this);
        done, i := done + {c}, i + 1;
      }
      AllForgotten(v, this, done);
    }

    // c->_parents.remove(this), for the child c
    method LoseParent(p: Node, ghost nodes: set<Node>)
      requires this in nodes
      modifies nodes
      ensures Of(nodes) == View(
        old(Of(nodes)).kids, old(Of(nodes)).parents[this := Without(old(Of(nodes)).parents[this], p)])
    {
      hide Without;
      ghost var v := Of(nodes);
      parents := Without(parents, p);
      assert Of(nodes).kids == v.kids;
      assert Of(nodes).parents == v.parents[this := Without(v.parents[this], p)];
    }
  
  
    // ~NodeBase: afterwards, nothing refers to the node.
    method Destroy(ghost nodes: set<Node>)
      requires this in nodes && Law(Of(nodes))
      modifies nodes
      ensures Law(Of(nodes - {this})) && Of(nodes - {this}) == Gone(old(Of(nodes)), this)
      ensures forall p | p in nodes && p != this ::
        p.childs == Without(old(p.childs), this) && p.parents == Without(old(p.parents), this)
    {
      ghost var v := Of(nodes);
      AllListed(nodes);
      GoneLists(v, this);
      GoneLaw(v, this);
      GoneParts(v, this);
      OnlyParents(v, this);
      hide *;
      ForgetChilds(nodes);
      Listed(nodes, this);
      EraseFromAll(nodes);
      Listed(nodes, this);
      IsGone(v, Of(nodes).kids, this);
      OfLess(nodes, this);
      ClearParents(nodes);
      AllListed(nodes - {this});
    }

    method ClearParents(ghost nodes: set<Node>)
      modifies this`parents
      ensures Of(nodes - {this}) == old(Of(nodes - {this}))
    {
      parents := [];
    }

    method EraseFromAll(ghost nodes: set<Node>)
      requires this in nodes && forall p | p in parents :: p in nodes
      modifies nodes
      ensures Of(nodes).parents == old(Of(nodes)).parents
      ensures Erased(old(Of(nodes)).kids, Of(nodes).kids, parents, this)
      ensures NotIn(Of(nodes).kids, parents, this)
    {
      hide *;
      ghost var v := Of(nodes);
      Listed(nodes, this);
      ErasedNone(v.kids, parents, this);
      var changed := true;
      while changed
        invariant Of(nodes).parents == v.parents && parents == v.parents[this]
        invariant Erased(v.kids, Of(nodes).kids, parents, this)
        invariant !changed ==> NotIn(Of(nodes).kids, parents, this)
        decreases Slots(Of(nodes).kids, parents), changed
      {
        ghost var kids := Of(nodes).kids;
        changed := EraseFromOne(nodes);
        Listed(nodes, this);
        ErasedTrans(v.kids, kids, Of(nodes).kids, parents, this);
      }
    }

    // The body of the loop: takes the node out of the first slot found, without looking at its parents again.
    method EraseFromOne(ghost nodes: set<Node>) returns (changed: bool)
      requires this in nodes && forall p | p in parents :: p in nodes
      modifies nodes
      ensures Of(nodes).parents == old(Of(nodes)).parents
      ensures Erased(old(Of(nodes)).kids, Of(nodes).kids, parents, this)
      ensures changed ==> Slots(Of(nodes).kids, parents) < old(Slots(Of(nodes).kids, parents))
      ensures !changed ==> Of(nodes) == old(Of(nodes)) && NotIn(Of(nodes).kids, parents, this)
    {
      hide Erased, Without, AllWithout, Slots, Drop, Of;
      ghost var v := Of(nodes);
      ErasedNone(v.kids, parents, this);
      var i := 0;
      while i < |parents|
        invariant 0 <= i <= |parents| && Of(nodes) == v && parents == old(parents)
        invariant forall j | 0 <= j < i :: this !in v.kids[parents[j]]
      {
        var p := parents[i];
        Listed(nodes, p);
        var c := p.SlotOf(this);
        if c < |p.childs| {
          ErasedOne(v.kids, p, c, parents, this);
          Listed(nodes, this);
          p.EraseSlot(c, nodes);
          Listed(nodes, this);
          return true;
        }
        assert p.childs[..c] == p.childs;
        i := i + 1;
      }
      return false;
    }

    // std::list::erase
    method EraseSlot(i: nat, ghost nodes: set<Node>)
      requires this in nodes && i < |childs|
      modifies nodes
      ensures Of(nodes) == View(old(Of(nodes)).kids[this := Drop(old(childs), i)], old(Of(nodes)).parents)
    {
      ghost var v := Of(nodes);
      childs := Drop(childs, i);
      assert Of(nodes).kids == v.kids[this := childs];
      assert Of(nodes).parents == v.parents;
    }
  }

  // ----- Where the law ends

  // A copy of a node keeps the law exactly if there are no children.
  lemma CopyLawIff(v: View, other: Node, copy: Node)
    requires Law(v) && other in v.kids && copy !in v.kids
    ensures Law(View(v.kids[copy := v.kids[other]], v.parents[copy := []])) <==> v.kids[other] == []
  {
    var v' := View(v.kids[copy := v.kids[other]], v.parents[copy := []]);
    assert Exist(v, other);
    if v.kids[other] != [] {
      var k := v.kids[other][0];
      assert k in v.kids && k in v'.kids[copy] && Exist(v, k);
      assert k != copy ==> copy !in v'.parents[k];
      if Law(v') {
        ChildHasParent(v', copy, k);
      }
    } else {
      assert v' == Joined(v, copy);
      JoinedLaw(v, copy);
    }
  }
}
