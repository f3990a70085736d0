/**
  Slots for children (ast/node.h): a slot is a node_ptr, which points to a cell that other slots may share. What becomes
  of the bookkeeping when replace() (ast/node.cc) changes cells.
*/
module AstCells {
  import opened AstNode

  // Assigning to a node_ptr changes the cell, for all slots that share it.
  datatype Celled = Celled(slots: map<Node, seq<nat>>, cell: map<nat, Node>, parents: map<Node, seq<Node>>)

  ghost predicate Linked(c: Celled) {
    forall p | p in c.slots :: AllIn(c.slots[p], c.cell)
  }

  ghost predicate AllIn(s: seq<nat>, cell: map<nat, Node>) {
    forall k | k in s :: k in cell
  }

  ghost function Deref(s: seq<nat>, cell: map<nat, Node>): (r: seq<Node>)
    requires AllIn(s, cell)
    ensures |r| == |s| && forall i | 0 <= i < |s| :: r[i] == cell[s[i]]
  {
    if s == [] then [] else [cell[s[0]]] + Deref(s[1..], cell)
  }

  ghost function Seen(c: Celled): View
    requires Linked(c)
  {
    View(map p | p in c.slots :: Deref(c.slots[p], c.cell), c.parents)
  }

  // One round of the loop: slot i of p, which refers to o, is replaced, and entry j of the parents of o goes. The new
  // slot has a new cell.
  datatype Swap = Swap(p: Node, i: nat, j: nat, cell: nat)

  ghost predicate CanSwap(c: Celled, o: Node, n: Node, s: Swap) {
    && Linked(c) && s.p in c.slots && s.i < |c.slots[s.p]| && n in c.parents && o in c.parents && n != o
    && c.cell[c.slots[s.p][s.i]] == o && s.j < |c.parents[o]| && c.parents[o][s.j] == s.p && s.cell !in c.cell
  }

  ghost function Replaced(c: Celled, o: Node, n: Node, s: Swap): (c': Celled)
    requires CanSwap(c, o, n, s)
    ensures Linked(c')
  {
    var slots := c.slots[s.p];
    Celled(c.slots[s.p := Drop(slots, s.i) + [s.cell]], c.cell[s.cell := n][slots[s.i] := n],
           c.parents[n := c.parents[n] + [s.p]][o := Drop(c.parents[o], s.j)])
  }

  // No other slot shares the cell k of a slot of p.
  ghost predicate Alone(c: Celled, p: Node, k: nat) {
    && (p in c.slots ==> multiset(c.slots[p])[k] <= 1)
    && forall q | q in c.slots && q != p :: k !in c.slots[q]
  }

  // ----- One round

  lemma {:induction false} DerefUpdate(
      s: seq<nat>, cell: map<nat, Node>, cell': map<nat, Node>, k: nat, o: Node, n: Node)
    requires AllIn(s, cell) && k in cell && cell[k] == o != n && k in cell' && cell'[k] == n
    requires forall x | x in s && x != k :: x in cell' && cell'[x] == cell[x]
    ensures AllIn(s, cell')
    ensures k !in s ==> Deref(s, cell') == Deref(s, cell)
    ensures k in s ==> multiset(Deref(s, cell'))[o] < multiset(Deref(s, cell))[o]
    ensures multiset(Deref(s, cell'))[o] <= multiset(Deref(s, cell))[o]
  {
    if s != [] {
      DerefUpdate(s[1..], cell, cell', k, o, n);
    }
  }

  lemma DerefDrop(s: seq<nat>, cell: map<nat, Node>, i: nat)
    requires AllIn(s, cell) && i < |s|
    ensures Deref(Drop(s, i), cell) == Drop(Deref(s, cell), i)
  {
  }

  lemma DerefAppend(s: seq<nat>, x: nat, cell: map<nat, Node>)
    requires AllIn(s, cell) && x in cell
    ensures AllIn(s + [x], cell) && Deref(s + [x], cell) == Deref(s, cell) + [cell[x]]
  {
  }

  lemma Uncounted<T>(s: seq<T>, x: T, y: T)
    requires x != y
    ensures multiset(s + [x])[y] == multiset(s)[y]
  {
  }

  // The list of a parent after slot i has been replaced.
  lemma AfterSwap(s: seq<nat>, cell: map<nat, Node>, cell': map<nat, Node>, i: nat, o: Node, n: Node, x: nat)
    requires AllIn(s, cell) && i < |s| && cell[s[i]] == o && n != o && x !in cell && cell' == cell[x := n][s[i] := n]
    ensures AllIn(Drop(s, i) + [x], cell')
    ensures var r, rest := Deref(Drop(s, i) + [x], cell'), Drop(Deref(s, cell), i);
      && (s[i] !in Drop(s, i) ==> r == rest + [n])
      && (s[i] in Drop(s, i) ==> multiset(r)[o] < multiset(rest)[o])
      && multiset(r)[o] <= multiset(rest)[o]
  {
    var rest := Drop(s, i);
    DerefUpdate(rest, cell, cell', s[i], o, n);
    DerefDrop(s, cell, i);
    hide Drop;
    assert AllIn(rest, cell) && x !in rest && x != s[i];
    DerefAppend(rest, x, cell');
    Uncounted<Node>(Deref(rest, cell'), n, o);
  }

  // The slots of q besides the replaced one.
  ghost function Others(c: Celled, s: Swap, q: Node): seq<nat>
    requires q in c.slots && s.p in c.slots && s.i < |c.slots[s.p]|
  {
    if q == s.p then Drop(c.slots[q], s.i) else c.slots[q]
  }

  // What a round does to the edges from q to o: one goes on both sides if the slot is one of q, and more go among the
  // children if the cell is not alone.
  lemma Counts(c: Celled, o: Node, n: Node, s: Swap, q: Node)
    requires CanSwap(c, o, n, s) && q in c.slots
    ensures var k, v, v', one := c.slots[s.p][s.i], Seen(c), Seen(Replaced(c, o, n, s)), if q == s.p then 1 else 0;
      && multiset(v'.kids[q])[o] + one <= multiset(v.kids[q])[o]
      && multiset(v'.parents[o])[q] + one == multiset(v.parents[o])[q]
      && (k in Others(c, s, q) ==> multiset(v'.kids[q])[o] + one < multiset(v.kids[q])[o])
      && (k !in Others(c, s, q) ==> v'.kids[q] == if q == s.p then Drop(v.kids[q], s.i) + [n] else v.kids[q])
  {
    DropCounts(c.parents[o], s.j);
    if q == s.p {
      CountsHere(c, o, n, s);
    } else {
      CountsElsewhere(c, o, n, s, q);
    }
  }

  lemma CountsHere(c: Celled, o: Node, n: Node, s: Swap)
    requires CanSwap(c, o, n, s)
    ensures var k, kids, kids' := c.slots[s.p][s.i], Seen(c).kids[s.p], Seen(Replaced(c, o, n, s)).kids[s.p];
      && multiset(kids')[o] < multiset(kids)[o]
      && (k in Drop(c.slots[s.p], s.i) ==> multiset(kids')[o] + 1 < multiset(kids)[o])
      && (k !in Drop(c.slots[s.p], s.i) ==> kids' == Drop(kids, s.i) + [n])
  {
    var kids, c' := Deref(c.slots[s.p], c.cell), Replaced(c, o, n, s);
    DropCounts(kids, s.i);
    AfterSwap(c.slots[s.p], c.cell, c'.cell, s.i, o, n, s.cell);
    hide Drop, Deref;
    assert c'.slots[s.p] == Drop(c.slots[s.p], s.i) + [s.cell];
  }

  lemma CountsElsewhere(c: Celled, o: Node, n: Node, s: Swap, q: Node)
    requires CanSwap(c, o, n, s) && q in c.slots && q != s.p
    ensures var k, kids, kids' := c.slots[s.p][s.i], Seen(c).kids[q], Seen(Replaced(c, o, n, s)).kids[q];
      && multiset(kids')[o] <= multiset(kids)[o]
      && (k in c.slots[q] ==> multiset(kids')[o] < multiset(kids)[o])
      && (k !in c.slots[q] ==> kids' == kids)
  {
    DerefUpdate(c.slots[q], c.cell, Replaced(c, o, n, s).cell, c.slots[s.p][s.i], o, n);
  }

  // An entry for q among the parents of o without an edge.
  ghost predicate Short(v: View, q: Node, o: Node) {
    q in v.kids && o in v.parents && multiset(v.kids[q])[o] < multiset(v.parents[o])[q]
  }

  lemma ShortBreaks(v: View, q: Node, o: Node)
    requires Short(v, q, o)
    ensures !Law(v)
  {
    assert Law(v) ==> Balanced(v, q, o);
  }

  lemma ShortStays(c: Celled, o: Node, n: Node, s: Swap, q: Node)
    requires CanSwap(c, o, n, s) && Short(Seen(c), q, o)
    ensures Short(Seen(Replaced(c, o, n, s)), q, o)
  {
    Counts(c, o, n, s, q);
  }

  lemma SharedShort(c: Celled, o: Node, n: Node, s: Swap) returns (q: Node)
    requires CanSwap(c, o, n, s) && Law(Seen(c)) && !Alone(c, s.p, c.slots[s.p][s.i])
    ensures Short(Seen(Replaced(c, o, n, s)), q, o)
  {
    var k := c.slots[s.p][s.i];
    if multiset(c.slots[s.p])[k] > 1 {
      q := s.p;
      DropCounts(c.slots[q], s.i);
      assert k in multiset(Drop(c.slots[q], s.i));
    } else {
      q :| q in c.slots && q != s.p && k in c.slots[q];
    }
    assert Balanced(Seen(c), q, o);
    Counts(c, o, n, s, q);
  }

  lemma AloneOthers(c: Celled, s: Swap, q: Node)
    requires s.p in c.slots && s.i < |c.slots[s.p]| && q in c.slots && Alone(c, s.p, c.slots[s.p][s.i])
    ensures c.slots[s.p][s.i] !in Others(c, s, q)
  {
    DropCounts(c.slots[s.p], s.i);
    assert multiset(Drop(c.slots[s.p], s.i))[c.slots[s.p][s.i]] == 0;
  }

  lemma AloneKids(c: Celled, o: Node, n: Node, s: Swap, q: Node)
    requires CanSwap(c, o, n, s) && Alone(c, s.p, c.slots[s.p][s.i]) && q in c.slots
    ensures var v, v' := Seen(c), Seen(Replaced(c, o, n, s));
      v'.kids[q] == if q == s.p then Drop(v.kids[q] + [n], s.i) else v.kids[q]
  {
    AloneOthers(c, s, q);
    Counts(c, o, n, s, q);
    DropAppend(Seen(c).kids[s.p], n, s.i);
  }

  lemma AloneLaw(c: Celled, o: Node, n: Node, s: Swap)
    requires CanSwap(c, o, n, s) && Law(Seen(c)) && Alone(c, s.p, c.slots[s.p][s.i])
    ensures Law(Seen(Replaced(c, o, n, s)))
  {
    var v, v', p := Seen(c), Seen(Replaced(c, o, n, s)), s.p;
    assert v.kids[p][s.i] == o && v.parents == c.parents;
    AddedLaw(v, p, n);
    AddedEntries(v, p, n, s.i, o, s.j);
    RemovedLaw(Added(v, p, n), p, s.i, o, s.j);
    hide Law, Drop, Deref, Linked, Alone;
    assert v'.kids.Keys == v.kids.Keys;
    forall q | q in c.slots
      ensures v'.kids[q] == if q == p then Drop(v.kids[q] + [n], s.i) else v.kids[q]
    {
      AloneKids(c, o, n, s, q);
    }
    SameView(v, v', p, n, s.i, o, s.j);
  }

  lemma DropAppend<T>(s: seq<T>, x: T, i: nat)
    requires i < |s|
    ensures Drop(s + [x], i) == Drop(s, i) + [x]
  {
  }

  lemma SameView(v: View, v': View, p: Node, n: Node, i: nat, o: Node, j: nat)
    requires p in v.kids && n in v.parents && o in v.parents && o != n && i < |v.kids[p]| && j < |v.parents[o]|
    requires v'.kids.Keys == v.kids.Keys && v'.kids[p] == Drop(v.kids[p] + [n], i)
    requires forall q | q in v.kids && q != p :: v'.kids[q] == v.kids[q]
    requires v'.parents == v.parents[n := v.parents[n] + [p]][o := Drop(v.parents[o], j)]
    ensures v' == Removed(Added(v, p, n), p, i, o, j)
  {
  }

  lemma AddedEntries(v: View, p: Node, n: Node, i: nat, o: Node, j: nat)
    requires p in v.kids && n in v.parents && o in v.parents && o != n && i < |v.kids[p]| && j < |v.parents[o]|
    ensures var w := Added(v, p, n); w.kids[p][i] == v.kids[p][i] && w.parents[o] == v.parents[o] && i < |w.kids[p]|
  {
  }

  // The law survives a round exactly if no other slot shares the cell.
  lemma ReplacedLawIff(c: Celled, o: Node, n: Node, s: Swap)
    requires CanSwap(c, o, n, s) && Law(Seen(c))
    ensures Law(Seen(Replaced(c, o, n, s))) <==> Alone(c, s.p, c.slots[s.p][s.i])
  {
    if Alone(c, s.p, c.slots[s.p][s.i]) {
      AloneLaw(c, o, n, s);
    } else {
      var q := SharedShort(c, o, n, s);
      ShortBreaks(Seen(Replaced(c, o, n, s)), q, o);
    }
  }

  // ----- The whole call

  // The loop is left when no parent has a slot that refers to o.
  ghost predicate Ended(c: Celled, o: Node, only: Node?)
    requires Linked(c)
  {
    o in c.parents && forall p | p in c.parents[o] && p in c.slots && Chosen(only, p) :: o !in Deref(c.slots[p], c.cell)
  }

  ghost predicate IsReplace(c: Celled, o: Node, n: Node, only: Node?, rounds: seq<Swap>)
    decreases |rounds|
  {
    if rounds == [] then
      Linked(c) && o in c.slots && Ended(c, o, only)
    else
      && CanSwap(c, o, n, rounds[0]) && Chosen(only, rounds[0].p)
      && IsReplace(Replaced(c, o, n, rounds[0]), o, n, only, rounds[1..])
  }

  // The loop ends, even if cells are shared.
  lemma {:induction false} ReplaceEnds(c: Celled, o: Node, n: Node, only: Node?) returns (rounds: seq<Swap>)
    requires Linked(c) && o in c.slots && o in c.parents && n in c.parents && n != o
    ensures IsReplace(c, o, n, only, rounds)
    decreases |c.parents[o]|
  {
    if Ended(c, o, only) {
      return [];
    }
    var p :| p in c.parents[o] && p in c.slots && Chosen(only, p) && o in Deref(c.slots[p], c.cell);
    var i :| 0 <= i < |c.slots[p]| && Deref(c.slots[p], c.cell)[i] == o;
    var j :| 0 <= j < |c.parents[o]| && c.parents[o][j] == p;
    var cell := Bound(c.cell.Keys);
    var s := Swap(p, i, j, cell);
    DropLength(c.parents[o], j);
    var rest := ReplaceEnds(Replaced(c, o, n, s), o, n, only);
    rounds := [s] + rest;
    assert rounds[1..] == rest;
  }

  lemma Bound(s: set<nat>) returns (b: nat)
    ensures forall x | x in s :: x < b
  {
    b := 0;
    if s != {} {
      var x :| x in s;
      var rest := Bound(s - {x});
      b := if rest > x then rest else x + 1;
      assert forall y | y in s :: y == x || y in s - {x};
    }
  }

  // Afterwards o loses its own children, which are told.
  ghost function Cleared(c: Celled, o: Node): (c': Celled)
    requires Linked(c) && o in c.slots
    ensures Linked(c')
  {
    var told := set k | k in Deref(c.slots[o], c.cell);
    Celled(c.slots[o := []], c.cell, Forgotten(c.parents, o, told))
  }

  ghost function After(c: Celled, o: Node, n: Node, only: Node?, rounds: seq<Swap>): (c': Celled)
    requires IsReplace(c, o, n, only, rounds)
    ensures Linked(c')
    decreases |rounds|
  {
    if rounds != [] then After(Replaced(c, o, n, rounds[0]), o, n, only, rounds[1..])
    else if only == null then Cleared(c, o)
    else c
  }

  // Each slot that is to be replaced has a cell of its own.
  ghost predicate AllAlone(c: Celled, o: Node, only: Node?)
    requires Linked(c)
  {
    forall p, k | p in c.slots && Chosen(only, p) && k in c.slots[p] && c.cell[k] == o :: Alone(c, p, k)
  }

  // The law survives a call of replace() exactly if each slot that it is to replace has a cell of its own.
  lemma {:induction false} ReplaceLawIff(c: Celled, o: Node, n: Node, only: Node?, rounds: seq<Swap>)
    requires IsReplace(c, o, n, only, rounds) && Linked(c) && Law(Seen(c))
    ensures Law(Seen(After(c, o, n, only, rounds))) <==> AllAlone(c, o, only)
    decreases |rounds|
  {
    hide Law, Replaced, Alone, Short, Ended, Cleared;
    if rounds == [] {
      EndedLaw(c, o, only);
    } else if Alone(c, rounds[0].p, c.slots[rounds[0].p][rounds[0].i]) {
      AloneLaw(c, o, n, rounds[0]);
      ReplaceLawIff(Replaced(c, o, n, rounds[0]), o, n, only, rounds[1..]);
      AloneStays(c, o, n, only, rounds[0]);
    } else {
      var q := SharedShort(c, o, n, rounds[0]);
      ShortRemains(Replaced(c, o, n, rounds[0]), o, n, only, rounds[1..], q);
      ShortBreaks(Seen(After(c, o, n, only, rounds)), q, o);
    }
  }

  lemma EndedLaw(c: Celled, o: Node, only: Node?)
    requires Linked(c) && Law(Seen(c)) && o in c.slots && Ended(c, o, only)
    ensures AllAlone(c, o, only)
    ensures Law(Seen(Cleared(c, o)))
  {
    var v, told := Seen(c), set k | k in Deref(c.slots[o], c.cell);
    EmptiedLaw(v, o);
    AllForgotten(v, o, told);
    ClearedSeen(c, o);
    forall p, k | p in c.slots && Chosen(only, p) && k in c.slots[p]
      ensures c.cell[k] != o
    {
      hide Law;
      ChildHasParent(v, p, o);
      DerefMember(c.slots[p], c.cell, k);
    }
  }

  lemma DerefMember(s: seq<nat>, cell: map<nat, Node>, k: nat)
    requires AllIn(s, cell) && k in s
    ensures cell[k] in Deref(s, cell)
  {
  }

  lemma ClearedSeen(c: Celled, o: Node)
    requires Linked(c) && o in c.slots
    ensures var v := Seen(c);
      Seen(Cleared(c, o)) ==
        View(v.kids[o := []], Forgotten(v.parents, o, set k | k in Deref(c.slots[o], c.cell)))
  {
  }

  lemma {:induction false} ShortRemains(c: Celled, o: Node, n: Node, only: Node?, rounds: seq<Swap>, q: Node)
    requires IsReplace(c, o, n, only, rounds) && Linked(c) && Short(Seen(c), q, o)
    ensures Short(Seen(After(c, o, n, only, rounds)), q, o)
    decreases |rounds|
  {
    hide Replaced, Short, Ended, Cleared;
    if rounds != [] {
      ShortStays(c, o, n, rounds[0], q);
      ShortRemains(Replaced(c, o, n, rounds[0]), o, n, only, rounds[1..], q);
    } else if only == null {
      ClearedShort(c, o, q);
    }
  }

  lemma ClearedShort(c: Celled, o: Node, q: Node)
    requires Linked(c) && o in c.slots && Ended(c, o, null) && Short(Seen(c), q, o)
    ensures Short(Seen(Cleared(c, o)), q, o)
  {
  }

  lemma AloneStays(c: Celled, o: Node, n: Node, only: Node?, s: Swap)
    requires CanSwap(c, o, n, s) && Chosen(only, s.p) && Alone(c, s.p, c.slots[s.p][s.i])
    ensures AllAlone(Replaced(c, o, n, s), o, only) <==> AllAlone(c, o, only)
  {
    var c', k := Replaced(c, o, n, s), c.slots[s.p][s.i];
    forall p, x | p in c.slots && x in c.cell && x != k
      ensures Alone(c', p, x) <==> Alone(c, p, x)
      ensures x in c'.slots[p] <==> x in c.slots[p]
      ensures c'.cell[x] == c.cell[x]
    {
      OtherCell(c, o, n, s, p, x);
    }
  }

  lemma OtherCell(c: Celled, o: Node, n: Node, s: Swap, p: Node, x: nat)
    requires CanSwap(c, o, n, s) && p in c.slots && x in c.cell && x != c.slots[s.p][s.i]
    ensures var c' := Replaced(c, o, n, s);
      (Alone(c', p, x) <==> Alone(c, p, x)) && (x in c'.slots[p] <==> x in c.slots[p]) && c'.cell[x] == c.cell[x]
  {
    var c' := Replaced(c, o, n, s);
    forall q | q in c.slots
      ensures multiset(c'.slots[q])[x] == multiset(c.slots[q])[x]
      ensures x in c'.slots[q] <==> x in c.slots[q]
    {
      if q == s.p {
        DropCounts(c.slots[q], s.i);
        assert x in c'.slots[q] <==> x in multiset(c'.slots[q]);
        assert x in c.slots[q] <==> x in multiset(c.slots[q]);
      }
    }
  }
}
