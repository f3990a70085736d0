/**
  Run-time type information for AST classes (ast/rtti.cc, ast/rtti.h): each class gets a mask of the classes it can be
  taken for, so that isA() is a look-up. The casts walk the hierarchy.
*/
module Rtti {
  import opened Wrappers

  type ID = nat

  // RTTI, one for each class
  class Info {
    const id: ID
    var mask: set<ID>
    var parents: seq<Info>

    constructor (id: ID)
      ensures this.id == id && mask == {} && parents == []
    {
      this.id, mask, parents := id, {}, [];
    }
  }

  type Graph = map<Info, seq<Info>>

  ghost function GraphOf(all: set<Info>): (g: Graph)
    reads all`parents
    ensures g.Keys == all
  {
    map c | c in all :: c.parents
  }

  // The parents of each class are known, and the ranks show that there is no cycle.
  ghost predicate Hierarchy(g: Graph, rank: map<Info, nat>) {
    && rank.Keys == g.Keys
    && forall c, p | c in g && p in g[c] :: p in g && rank[p] < rank[c]
  }

  // The class itself and all classes above it
  ghost function Ancestors(g: Graph, rank: map<Info, nat>, c: Info): set<ID>
    requires Hierarchy(g, rank) && c in g
    decreases rank[c], |g[c]| + 1
  {
    {c.id} + AncestorsOf(g, rank, c, g[c])
  }

  ghost function AncestorsOf(g: Graph, rank: map<Info, nat>, c: Info, ps: seq<Info>): set<ID>
    requires Hierarchy(g, rank) && c in g && forall p | p in ps :: p in g[c]
    decreases rank[c], |ps|
  {
    if ps == [] then {} else Ancestors(g, rank, ps[0]) + AncestorsOf(g, rank, c, ps[1..])
  }

  lemma {:induction false} AncestorsJoin(g: Graph, rank: map<Info, nat>, c: Info, ps: seq<Info>, p: Info)
    requires Hierarchy(g, rank) && c in g && p in g[c] && forall q | q in ps :: q in g[c]
    ensures AncestorsOf(g, rank, c, ps + [p]) == AncestorsOf(g, rank, c, ps) + Ancestors(g, rank, p)
  {
    if ps == [] {
      assert [] + [p] == [p] && [p][1..] == [];
    } else {
      assert (ps + [p])[1..] == ps[1..] + [p];
      AncestorsJoin(g, rank, c, ps[1..], p);
    }
  }

  // What an ancestor is, without the recursion: the least relation with each class above itself, and the parents of
  // what is above a class above it, too.
  ghost predicate ClosedUpwards(g: Graph, d: set<Info>) {
    forall c, p | c in d && c in g && p in g[c] :: p in d
  }

  ghost predicate IsAncestor(g: Graph, c: Info, a: Info) {
    forall d: set<Info> | d <= g.Keys && c in d && ClosedUpwards(g, d) :: a in d
  }

  ghost predicate UniqueIds(g: Graph) {
    forall a, b | a in g && b in g && a.id == b.id :: a == b
  }

  // The walk of __rtti_cast: the class itself, or the first parent for which the walk finds something
  ghost function Cast(g: Graph, rank: map<Info, nat>, c: Info, id: ID): (r: Option<Info>)
    requires Hierarchy(g, rank) && c in g
    ensures r.Some? ==> r.value in g && r.value.id == id
    decreases rank[c], |g[c]| + 1
  {
    if id == c.id then Some(c) else CastParents(g, rank, c, g[c], id)
  }

  ghost function CastParents(g: Graph, rank: map<Info, nat>, c: Info, ps: seq<Info>, id: ID): (r: Option<Info>)
    requires Hierarchy(g, rank) && c in g && forall p | p in ps :: p in g[c]
    ensures r.Some? ==> r.value in g && r.value.id == id
    decreases rank[c], |ps|
  {
    if ps == [] then None
    else
      var q := Cast(g, rank, ps[0], id);
      if q.Some? then q else CastParents(g, rank, c, ps[1..], id)
  }

  // The walk finds a class exactly if its bit is among the ancestors'.
  lemma {:induction false} CastFinds(g: Graph, rank: map<Info, nat>, c: Info, id: ID)
    requires Hierarchy(g, rank) && c in g
    ensures Cast(g, rank, c, id).Some? <==> id in Ancestors(g, rank, c)
    decreases rank[c], |g[c]| + 1
  {
    CastParentsFinds(g, rank, c, g[c], id);
  }

  lemma {:induction false} CastParentsFinds(g: Graph, rank: map<Info, nat>, c: Info, ps: seq<Info>, id: ID)
    requires Hierarchy(g, rank) && c in g && forall p | p in ps :: p in g[c]
    ensures CastParents(g, rank, c, ps, id).Some? <==> id in AncestorsOf(g, rank, c, ps)
    decreases rank[c], |ps|
  {
    if ps != [] {
      CastFinds(g, rank, ps[0], id);
      CastParentsFinds(g, rank, c, ps[1..], id);
    }
  }

  lemma {:induction false} AncestorsInside(g: Graph, rank: map<Info, nat>, c: Info, d: set<Info>, id: ID)
    requires Hierarchy(g, rank) && c in g && c in d && ClosedUpwards(g, d) && id in Ancestors(g, rank, c)
    ensures exists a :: a in d && a.id == id
    decreases rank[c], |g[c]| + 1
  {
    if id != c.id {
      AncestorsOfInside(g, rank, c, g[c], d, id);
    }
  }

  lemma {:induction false} AncestorsOfInside(g: Graph, rank: map<Info, nat>, c: Info, ps: seq<Info>, d: set<Info>, id: ID)
    requires Hierarchy(g, rank) && c in g && c in d && ClosedUpwards(g, d)
    requires (forall p | p in ps :: p in g[c]) && id in AncestorsOf(g, rank, c, ps)
    ensures exists a :: a in d && a.id == id
    decreases rank[c], |ps|
  {
    if id in Ancestors(g, rank, ps[0]) {
      AncestorsInside(g, rank, ps[0], d, id);
    } else {
      AncestorsOfInside(g, rank, c, ps[1..], d, id);
    }
  }

  lemma {:induction false} ParentIn(g: Graph, rank: map<Info, nat>, c: Info, ps: seq<Info>, p: Info)
    requires Hierarchy(g, rank) && c in g && (forall q | q in ps :: q in g[c]) && p in ps
    ensures Ancestors(g, rank, p) <= AncestorsOf(g, rank, c, ps)
  {
    if p != ps[0] {
      ParentIn(g, rank, c, ps[1..], p);
    }
  }

  lemma {:induction false} AncestorsTransitive(g: Graph, rank: map<Info, nat>, c: Info, a: Info)
    requires Hierarchy(g, rank) && UniqueIds(g) && c in g && a in g && a.id in Ancestors(g, rank, c)
    ensures Ancestors(g, rank, a) <= Ancestors(g, rank, c)
    decreases rank[c], |g[c]| + 1
  {
    if a != c {
      AncestorsOfTransitive(g, rank, c, g[c], a);
    }
  }

  lemma {:induction false} AncestorsOfTransitive(g: Graph, rank: map<Info, nat>, c: Info, ps: seq<Info>, a: Info)
    requires Hierarchy(g, rank) && UniqueIds(g) && c in g && a in g && (forall p | p in ps :: p in g[c])
    requires a.id in AncestorsOf(g, rank, c, ps)
    ensures Ancestors(g, rank, a) <= AncestorsOf(g, rank, c, ps)
    decreases rank[c], |ps|
  {
    if a.id in Ancestors(g, rank, ps[0]) {
      AncestorsTransitive(g, rank, ps[0], a);
    } else {
      AncestorsOfTransitive(g, rank, c, ps[1..], a);
    }
  }

  // The bits are exactly those of the class's ancestors, itself included.
  lemma AncestorsAre(g: Graph, rank: map<Info, nat>, c: Info, a: Info)
    requires Hierarchy(g, rank) && UniqueIds(g) && c in g && a in g
    ensures a.id in Ancestors(g, rank, c) <==> IsAncestor(g, c, a)
  {
    if a.id in Ancestors(g, rank, c) {
      forall d: set<Info> | d <= g.Keys && c in d && ClosedUpwards(g, d)
        ensures a in d
      {
        AncestorsInside(g, rank, c, d, a.id);
      }
    } else {
      var d := set b | b in g && b.id in Ancestors(g, rank, c);
      forall b, p | b in d && p in g[b]
        ensures p in d
      {
        AncestorsTransitive(g, rank, c, b);
        ParentIn(g, rank, b, g[b], p);
        assert p.id in Ancestors(g, rank, p);
      }
      assert c in d && ClosedUpwards(g, d);
      assert a !in d;
    }
  }

  // ----- Initialisation

  // The mask of a class is empty or complete.
  ghost predicate MemoAt(g: Graph, rank: map<Info, nat>, c: Info)
    requires Hierarchy(g, rank) && c in g
    reads c`mask
  {
    c.mask != {} ==> c.mask == Ancestors(g, rank, c)
  }

  lemma NotEmpty(g: Graph, rank: map<Info, nat>, c: Info)
    requires Hierarchy(g, rank) && c in g
    ensures Ancestors(g, rank, c) != {}
  {
  }

  lemma AncestorsAtEnds(g: Graph, rank: map<Info, nat>, c: Info)
    requires Hierarchy(g, rank) && c in g
    ensures AncestorsOf(g, rank, c, g[c][..0]) == {}
    ensures Ancestors(g, rank, c) == {c.id} + AncestorsOf(g, rank, c, g[c])
  {
  }

  lemma ParentBelow(g: Graph, rank: map<Info, nat>, c: Info, p: Info)
    requires Hierarchy(g, rank) && c in g && p in g[c]
    ensures p in g && p in rank && rank[p] < rank[c]
  {
  }

  // RTTI::_init. Only classes below c in rank are looked at; classes above may be on the way to c, with their masks
  // half done.
  method InitOne(c: Info, ghost all: set<Info>, ghost rank: map<Info, nat>)
    requires c in all && Hierarchy(GraphOf(all), rank)
    requires forall d | d in all && rank[d] <= rank[c] :: MemoAt(GraphOf(all), rank, d)
    modifies all`mask
    ensures c.mask == Ancestors(GraphOf(all), rank, c)
    ensures forall d | d in all && rank[d] <= rank[c] :: MemoAt(GraphOf(all), rank, d)
    ensures forall d | d in all && d != c && rank[d] >= rank[c] :: d.mask == old(d.mask)
    ensures forall d | d in all && old(d.mask) != {} :: d.mask == old(d.mask)
    decreases rank[c], 2
  {
    ghost var g := GraphOf(all);
    assert MemoAt(g, rank, c);
    if c.mask != {} {
      return;
    }
    c.mask := {c.id};
    hide Ancestors, AncestorsOf, Hierarchy, GraphOf;
    JoinParents(c, all, rank);
  }

  // The loop of RTTI::_init
  method JoinParents(c: Info, ghost all: set<Info>, ghost rank: map<Info, nat>)
    requires c in all && Hierarchy(GraphOf(all), rank) && c.mask == {c.id}
    requires forall d | d in all && d != c && rank[d] <= rank[c] :: MemoAt(GraphOf(all), rank, d)
    modifies all`mask
    ensures c.mask == Ancestors(GraphOf(all), rank, c)
    ensures forall d | d in all && d != c && rank[d] <= rank[c] :: MemoAt(GraphOf(all), rank, d)
    ensures forall d | d in all && d != c && rank[d] >= rank[c] :: d.mask == old(d.mask)
    ensures forall d | d in all && d != c && old(d.mask) != {} :: d.mask == old(d.mask)
    decreases rank[c], 1
  {
    ghost var g := GraphOf(all);
    AncestorsAtEnds(g, rank, c);
    assert c.parents == g[c];
    hide Ancestors, AncestorsOf, Hierarchy, GraphOf, UniqueIds;
    var i := 0;
    while i < |c.parents|
      invariant 0 <= i <= |c.parents| && c.parents == g[c] && GraphOf(all) == g
      invariant c.mask == {c.id} + AncestorsOf(g, rank, c, g[c][..i])
      invariant forall d | d in all && d != c && rank[d] <= rank[c] :: MemoAt(g, rank, d)
      invariant forall d | d in all && d != c && rank[d] >= rank[c] :: d.mask == old(d.mask)
      invariant forall d | d in all && d != c && old(d.mask) != {} :: d.mask == old(d.mask)
    {
      ParentBelow(g, rank, c, g[c][i]);
      InitParent(c, c.parents[i], all, rank);
      AncestorsJoin(g, rank, c, g[c][..i], g[c][i]);
      assert g[c][..i + 1] == g[c][..i] + [g[c][i]];
      i := i + 1;
    }
    assert g[c][..i] == g[c];
  }

  // One parent's mask is completed and joined in.
  method InitParent(c: Info, p: Info, ghost all: set<Info>, ghost rank: map<Info, nat>)
    requires c in all && p in all && Hierarchy(GraphOf(all), rank) && rank[p] < rank[c]
    requires forall d | d in all && d != c && rank[d] <= rank[c] :: MemoAt(GraphOf(all), rank, d)
    modifies all`mask
    ensures c.mask == old(c.mask) + Ancestors(GraphOf(all), rank, p)
    ensures forall d | d in all && d != c && rank[d] <= rank[c] :: MemoAt(GraphOf(all), rank, d)
    ensures forall d | d in all && d != c && rank[d] >= rank[c] :: d.mask == old(d.mask)
    ensures forall d | d in all && d != c && old(d.mask) != {} :: d.mask == old(d.mask)
    decreases rank[c], 0
  {
    hide Ancestors, GraphOf;
    assert p in rank;
    InitOne(p, all, rank);
    c.mask := c.mask + p.mask;
  }

  ghost predicate Memo(g: Graph, rank: map<Info, nat>, all: set<Info>)
    requires Hierarchy(g, rank) && all <= g.Keys
    reads all`mask
  {
    forall c | c in all :: MemoAt(g, rank, c)
  }

  method InitFrom(c: Info, ghost all: set<Info>, ghost rank: map<Info, nat>)
    requires c in all && Hierarchy(GraphOf(all), rank) && Memo(GraphOf(all), rank, all)
    modifies all`mask
    ensures Memo(GraphOf(all), rank, all) && c.mask != {}
    ensures forall d | d in all && old(d.mask) != {} :: d.mask != {}
  {
    assert forall d | d in all :: MemoAt(GraphOf(all), rank, d);
    InitOne(c, all, rank);
    NotEmpty(GraphOf(all), rank, c);
    forall d | d in all
      ensures MemoAt(GraphOf(all), rank, d)
    {
      assert rank[d] > rank[c] ==> old(MemoAt(GraphOf(all), rank, d));
    }
  }

  // The loop of RTTI::init
  method InitAll(list: seq<Info>, ghost all: set<Info>, ghost rank: map<Info, nat>)
    requires all == (set c | c in list) && Hierarchy(GraphOf(all), rank) && Memo(GraphOf(all), rank, all)
    modifies all`mask
    ensures forall c | c in list :: c.mask == Ancestors(GraphOf(all), rank, c)
  {
    ghost var g := GraphOf(all);
    hide GraphOf, Memo, Hierarchy;
    var i := 0;
    while i < |list|
      invariant 0 <= i <= |list| && GraphOf(all) == g
      invariant Memo(g, rank, all) && forall j | 0 <= j < i :: list[j].mask != {}
    {
      InitFrom(list[i], all, rank);
      i := i + 1;
    }
    AllComplete(g, rank, list);
  }

  lemma AllComplete(g: Graph, rank: map<Info, nat>, all: seq<Info>)
    requires Hierarchy(g, rank) && g.Keys == (set c | c in all) && Memo(g, rank, set c | c in all)
    requires forall j | 0 <= j < |all| :: all[j].mask != {}
    ensures forall c | c in all :: c.mask == Ancestors(g, rank, c)
  {
  }

  // The classes registered so far; _all, _initialized and the counter for the identifiers
  class Registry {
    var counter: ID
    var all: seq<Info>
    var initialized: bool

    ghost predicate Valid()
      reads this, all
    {
      && (forall i | 0 <= i < |all| :: 0 < all[i].id <= counter)
      && (forall i, j | 0 <= i < j < |all| :: all[i].id != all[j].id)
      && (!initialized ==> forall i | 0 <= i < |all| :: all[i].mask == {})
    }

    ghost function Classes(): set<Info>
      reads this
    {
      set c | c in all
    }

    constructor ()
      ensures Valid() && all == [] && !initialized
    {
      counter, all, initialized := 0, [], false;
    }

    // RTTI::RTTI
    method Register() returns (c: Info)
      requires Valid()
      modifies this`counter, this`all
      ensures Valid() && fresh(c) && all == old(all) + [c] && c.parents == [] && c.mask == {}
    {
      counter := counter + 1;
      c := new Info(counter);
      all := all + [c];
    }

    // RTTI::setParent
    method SetParent(c: Info, parent: Info)
      requires Valid() && !initialized
      modifies c`parents
      ensures Valid() && c.parents == old(c.parents) + [parent]
    {
      c.parents := c.parents + [parent];
    }

    // RTTI::init: whatever the order of the classes, all masks are complete; and stay so if it is called again. Without
    // any classes, nothing is initialised.
    method Init(ghost rank: map<Info, nat>)
      requires Valid() && Hierarchy(GraphOf(Classes()), rank) && (initialized ==> MasksComplete(rank))
      modifies this`initialized, all`mask
      ensures Valid() && all == old(all) && GraphOf(Classes()) == old(GraphOf(Classes())) && MasksComplete(rank)
      ensures initialized <==> old(initialized) || all != []
    {
      if initialized || |all| == 0 {
        return;
      }
      ghost var g := GraphOf(Classes());
      assert Memo(g, rank, Classes());
      hide GraphOf, Memo, Hierarchy;
      InitAll(all, Classes(), rank);
      initialized := true;
      assert GraphOf(Classes()) == g;
    }

    ghost predicate MasksComplete(rank: map<Info, nat>)
      reads this, all
      requires Hierarchy(GraphOf(Classes()), rank)
    {
      forall c | c in all :: c.mask == Ancestors(GraphOf(Classes()), rank, c)
    }

    // isA(): the bit in the mask agrees with the ancestors, and with what the walk finds. Before the initialisation,
    // which is asked for only with okOnInit, everything is everything.
    method IsA(c: Info, target: Info, okOnInit: bool, ghost rank: map<Info, nat>) returns (r: bool)
      requires Valid() && (initialized || okOnInit) && c in all && target in all
      requires Hierarchy(GraphOf(Classes()), rank) && (initialized ==> MasksComplete(rank))
      ensures !initialized ==> r
      ensures initialized ==> (r <==> IsAncestor(GraphOf(Classes()), c, target))
      ensures initialized ==> (r <==> Cast(GraphOf(Classes()), rank, c, target.id).Some?)
      ensures initialized && r ==> Cast(GraphOf(Classes()), rank, c, target.id) == Some(target)
    {
      if okOnInit && !initialized {
        return true;
      }
      ghost var g := GraphOf(Classes());
      assert UniqueIds(g);
      AncestorsAre(g, rank, c, target);
      CastFinds(g, rank, c, target.id);
      return target.id in c.mask;
    }

    // tryCast(): the quick check first, and then the walk. It never changes what the walk alone gives.
    method TryCast(c: Info?, target: Info, ghost rank: map<Info, nat>) returns (r: Option<Info>)
      requires Valid() && initialized && (c != null ==> c in all) && target in all
      requires Hierarchy(GraphOf(Classes()), rank) && MasksComplete(rank)
      ensures r == if c == null then None else Cast(GraphOf(Classes()), rank, c, target.id)
    {
      if c == null {
        return None;
      }
      var ok := IsA(c, target, false, rank);
      if !ok {
        return None;
      }
      r := CastWalk(c, target.id, Classes(), rank);
    }
  }

  // __rtti_cast
  method CastWalk(c: Info, id: ID, ghost all: set<Info>, ghost rank: map<Info, nat>) returns (r: Option<Info>)
    requires c in all && Hierarchy(GraphOf(all), rank)
    ensures r == Cast(GraphOf(all), rank, c, id)
    decreases rank[c]
  {
    ghost var g := GraphOf(all);
    if id == c.id {
      return Some(c);
    }
    var i := 0;
    while i < |c.parents|
      invariant 0 <= i <= |c.parents| && c.parents == g[c]
      invariant Cast(g, rank, c, id) == CastParents(g, rank, c, g[c][i..], id)
    {
      assert g[c][i..][1..] == g[c][i + 1..];
      ParentBelow(g, rank, c, g[c][i]);
      var q := CastWalk(c.parents[i], id, all, rank);
      if q.Some? {
        return q;
      }
      i := i + 1;
    }
    return None;
  }
}
