/**
  Copying values (libhilti/clone.c): a memoised deep copy of an object graph, and a shallow copy of its root. The
  specification is a function from the state before to the state after, with the stack the recursion may use as
  an argument.
*/
module Clone {

  type Addr = nat

  // What a field holds: nothing (a field of a struct that is not set), a bitwise copyable value, a reference to
  // an object (0 for null), or a tuple inside of the field.
  datatype Slot = Unset | Atom(word: nat) | Ref(addr: Addr) | Inline(elems: seq<Slot>)

  // A reference-counted object: a struct's fields, or a list's elements. `cloneable`: its type has the functions
  // clone_alloc and clone_init.
  datatype Object = Object(slots: seq<Slot>, cloneable: bool)

  type Heap = map<Addr, Object>

  // __hlt_clone_state, with the memory, the address the next allocation gets, and (for the proofs only) the latest
  // copy of each object.
  datatype State = State(
    heap: Heap, objs: seq<(Addr, Addr)>, deep: bool, level: int, next: Addr, copies: map<Addr, Addr>)

  // hlt_exception_cloning_not_supported, or no stack left.
  datatype Problem = NotSupported | Exhausted

  datatype Outcome = Done(s: State, v: Slot) | Failed(why: Problem)

  datatype Outcomes = AllDone(s: State, vs: seq<Slot>) | Aborted(why: Problem)

  // ----- The pointer map (libhilti/util.c)

  // __hlt_pointer_map_lookup: the first entry counts, and 0 means that there is none.
  function Lookup(objs: seq<(Addr, Addr)>, key: Addr): Addr {
    if objs == [] then 0 else if objs[0].0 == key then objs[0].1 else Lookup(objs[1..], key)
  }

  // __hlt_pointer_map_insert
  function Insert(objs: seq<(Addr, Addr)>, key: Addr, value: Addr): seq<(Addr, Addr)> {
    if Lookup(objs, key) != 0 then objs else objs + [(key, value)]
  }

  predicate HasKey(objs: seq<(Addr, Addr)>, key: Addr) {
    exists i :: 0 <= i < |objs| && objs[i].0 == key
  }

  lemma {:induction false} LookupAppend(objs: seq<(Addr, Addr)>, key: Addr, value: Addr, k: Addr)
    ensures HasKey(objs + [(key, value)], k) <==> HasKey(objs, k) || k == key
    ensures Lookup(objs + [(key, value)], k) ==
      if HasKey(objs, k) then Lookup(objs, k) else if k == key then value else 0
    ensures !HasKey(objs, k) ==> Lookup(objs, k) == 0
  {
    var longer := objs + [(key, value)];
    assert longer[|objs|] == (key, value);
    forall i | 0 <= i < |objs|
      ensures longer[i] == objs[i]
    {
    }
    if objs != [] {
      assert longer[1..] == objs[1..] + [(key, value)];
      LookupAppend(objs[1..], key, value, k);
      assert HasKey(objs, k) <==> objs[0].0 == k || HasKey(objs[1..], k) by {
        if HasKey(objs[1..], k) {
          var i :| 0 <= i < |objs[1..]| && objs[1..][i].0 == k;
          assert objs[i + 1].0 == k;
        }
        if HasKey(objs, k) && objs[0].0 != k {
          var i :| 0 <= i < |objs| && objs[i].0 == k;
          assert objs[1..][i - 1].0 == k;
        }
      }
    }
  }

  // ----- Copying

  // The first word of a value in memory, which is what clone.c takes for an object's address.
  function FirstWord(v: Slot): Addr {
    match v
    case Unset => 0
    case Atom(w) => w
    case Ref(a) => a
    case Inline(elems) => if elems == [] then 0 else FirstWord(elems[0])
  }

  // __hlt_clone: the fast path for bitwise copyable values and null, otherwise the slow path. `found` is what the
  // destination's first word holds beforehand.
  function Copy(s: State, v: Slot, found: Addr, stack: nat): Outcome
    decreases stack, v
  {
    if v.Unset? || v.Atom? || v == Ref(0) then Done(s, v) else
    var s1 := s.(level := s.level + 1);
    if v.Ref? && Lookup(s1.objs, v.addr) != 0 then Done(s1, Ref(Lookup(s1.objs, v.addr)))
    else if !s1.deep && s1.level > 0 then Done(s1, v)
    else match v
      case Ref(a) =>
        if a !in s1.heap || !s1.heap[a].cloneable then Failed(NotSupported)
        else if stack == 0 then Failed(Exhausted)
        else
          (match CopyAll(Allocated(s1, a), s1.heap[a].slots, 0, stack - 1)
           case AllDone(s2, vs) => Done(Filled(s2, s1.next, vs), Ref(s1.next))
           case Aborted(why) => Failed(why))
      case Inline(elems) =>
        match CopyAll(s1.(objs := Insert(s1.objs, FirstWord(v), found)), elems, found, stack)
        case AllDone(s2, vs) => Done(s2, Inline(vs))
        case Aborted(why) => Failed(why)
  }

  // clone_alloc, which hands out zeroed memory, and the entry in the pointer map.
  function Allocated(s: State, a: Addr): State {
    s.(heap := s.heap[s.next := Object([], true)], next := s.next + 1, objs := Insert(s.objs, a, s.next),
       copies := s.copies[a := s.next])
  }

  function Filled(s: State, c: Addr, vs: seq<Slot>): State {
    s.(heap := s.heap[c := Object(vs, true)])
  }

  // The loops of hlt_struct_clone_init, hlt_tuple_clone_init and hlt_list_clone_init.
  function CopyAll(s: State, elems: seq<Slot>, found: Addr, stack: nat): Outcomes
    decreases stack, elems
  {
    if elems == [] then AllDone(s, [])
    else
      match Copy(s, elems[0], found, stack)
      case Done(s1, v) =>
        (match CopyAll(s1, elems[1..], found, stack)
         case AllDone(s2, vs) => AllDone(s2, [v] + vs)
         case Aborted(why) => Aborted(why))
      case Failed(why) => Aborted(why)
  }

  // ----- What a caller can find out beforehand

  // A walk over the source in the order of the copy. `seen`: objects met so far. `bad`: addresses that were first
  // met as the first word of a tuple, with what the pointer map says is their copy; 0 makes them look uncopied
  // forever.
  datatype Walk = Seen(seen: set<Addr>, bad: map<Addr, Addr>) | Refused | Garbled

  ghost predicate Within(h: Heap, w: Walk) {
    w.Seen? ==> w.seen <= h.Keys
  }

  ghost function Left(h: Heap, w: Walk): nat {
    if w.Seen? then |h.Keys - w.seen| else 0
  }

  lemma LeftLess(h: Heap, w: Walk, a: Addr)
    requires w.Seen? && w.seen <= h.Keys && a in h && a !in w.seen
    ensures Left(h, w.(seen := w.seen + {a})) < Left(h, w)
  {
  }

  lemma {:induction false} SubsetSize<T>(a: set<T>, b: set<T>)
    requires a <= b
    ensures |a| <= |b| && (a != b ==> |a| < |b|)
  {
    if a != {} {
      var x :| x in a;
      SubsetSize(a - {x}, b - {x});
      assert a - {x} == b - {x} ==> a == b by {
        assert a == a - {x} + {x} && b == b - {x} + {x};
      }
    }
  }

  // An object that was first met as the first word of a tuple must not be met again, and its entry in the pointer
  // map must not be garbage.
  ghost function Go(h: Heap, w: Walk, v: Slot, found: Addr): (w': Walk)
    requires Within(h, w)
    ensures Within(h, w')
    ensures w'.Seen? ==> w.Seen? && w.seen <= w'.seen
    decreases Left(h, w), v
  {
    if !w.Seen? || v.Unset? || v.Atom? || v == Ref(0) then w else
    match v
    case Ref(a) =>
      if a in w.bad && (w.bad[a] != 0 || a in w.seen) then Garbled
      else if a in w.seen then w
      else if a !in h || !h[a].cloneable then Refused
      else
        LeftLess(h, w, a);
        GoAll(h, w.(seen := w.seen + {a}), h[a].slots, 0)
    case Inline(elems) => GoAll(h, Marked(w, FirstWord(v), found), elems, found)
  }

  ghost function Marked(w: Walk, word: Addr, found: Addr): Walk
    requires w.Seen?
  {
    if word in w.seen || word in w.bad then w else w.(bad := w.bad[word := found])
  }

  ghost function GoAll(h: Heap, w: Walk, elems: seq<Slot>, found: Addr): (w': Walk)
    requires Within(h, w)
    ensures Within(h, w')
    ensures w'.Seen? ==> w.Seen? && w.seen <= w'.seen
    decreases Left(h, w), elems
  {
    if !w.Seen? || elems == [] then w
    else
      var w1 := Go(h, w, elems[0], found);
      if w1.Seen? then
        SubsetSize(h.Keys - w1.seen, h.Keys - w.seen);
        GoAll(h, w1, elems[1..], found)
      else w1
  }

  // ----- The copy keeps up with the walk

  // The value with each reference replaced by the one to the copy.
  ghost function Image(m: map<Addr, Addr>, v: Slot): Slot {
    match v
    case Ref(a) => if a in m then Ref(m[a]) else v
    case Inline(elems) => Inline(ImageAll(m, elems))
    case _ => v
  }

  ghost function ImageAll(m: map<Addr, Addr>, elems: seq<Slot>): (vs: seq<Slot>)
    ensures |vs| == |elems| && forall i | 0 <= i < |elems| :: vs[i] == Image(m, elems[i])
  {
    if elems == [] then [] else [Image(m, elems[0])] + ImageAll(m, elems[1..])
  }

  // All references in the value are null or in the set.
  ghost predicate RefsIn(v: Slot, d: set<Addr>) {
    match v
    case Ref(a) => a == 0 || a in d
    case Inline(elems) => AllRefsIn(elems, d)
    case _ => true
  }

  ghost predicate AllRefsIn(elems: seq<Slot>, d: set<Addr>) {
    elems == [] || (RefsIn(elems[0], d) && AllRefsIn(elems[1..], d))
  }

  lemma {:induction false} ImageStable(m: map<Addr, Addr>, n: map<Addr, Addr>, v: Slot)
    requires RefsIn(v, m.Keys) && 0 !in m && 0 !in n && forall a | a in m :: a in n && n[a] == m[a]
    ensures Image(n, v) == Image(m, v) && RefsIn(v, n.Keys)
    decreases v
  {
    if v.Inline? {
      ImageAllStable(m, n, v.elems);
    }
  }

  lemma {:induction false} ImageAllStable(m: map<Addr, Addr>, n: map<Addr, Addr>, elems: seq<Slot>)
    requires AllRefsIn(elems, m.Keys) && 0 !in m && 0 !in n && forall a | a in m :: a in n && n[a] == m[a]
    ensures ImageAll(n, elems) == ImageAll(m, elems) && AllRefsIn(elems, n.Keys)
    decreases elems
  {
    if elems != [] {
      ImageStable(m, n, elems[0]);
      ImageAllStable(m, n, elems[1..]);
    }
  }

  // No reference in memory dangles.
  ghost predicate Closed(h: Heap) {
    forall a | a in h :: AllRefsIn(h[a].slots, h.Keys)
  }

  // The source is in memory, and new objects come after it, and after the garbage found.
  ghost predicate Base(h: Heap, s: State) {
    && Closed(h) && s.deep && s.level >= -1 && 0 !in h && 0 < s.next
    && (forall a | a in h :: a in s.heap && s.heap[a] == h[a])
    && (forall a | a in s.heap :: a < s.next)
  }

  // The pointer map and the walk say the same.
  ghost predicate Sync(h: Heap, s: State, w: Walk) {
    && w.Seen? && s.copies.Keys == w.seen && w.seen <= h.Keys
    && (forall a :: Entry(s, w, a))
    && (forall a | a in s.copies :: 0 < s.copies[a] < s.next && s.copies[a] !in h)
    && (forall a, b | a in s.copies && b in s.copies && a != b :: s.copies[a] != s.copies[b])
  }

  ghost predicate Entry(s: State, w: Walk, a: Addr)
    requires w.Seen?
  {
    && (HasKey(s.objs, a) <==> a in w.bad || a in s.copies)
    && Lookup(s.objs, a) == if a in w.bad then w.bad[a] else if a in s.copies then s.copies[a] else 0
  }

  lemma InsertSync(h: Heap, s: State, w: Walk, word: Addr, found: Addr)
    requires Base(h, s) && Sync(h, s, w)
    ensures Sync(h, s.(objs := Insert(s.objs, word, found)), Marked(w, word, found))
  {
    var s', w' := s.(objs := Insert(s.objs, word, found)), Marked(w, word, found);
    assert Entry(s, w, word);
    forall a
      ensures Entry(s', w', a)
    {
      assert Entry(s, w, a);
      LookupAppend(s.objs, word, found, a);
    }
  }

  lemma AllocatedSync(h: Heap, s: State, w: Walk, a: Addr)
    requires Base(h, s) && Sync(h, s, w) && a in h && a !in w.seen && (a in w.bad ==> w.bad[a] == 0)
    ensures Base(h, Allocated(s, a)) && Sync(h, Allocated(s, a), w.(seen := w.seen + {a}))
  {
    var s', w' := Allocated(s, a), w.(seen := w.seen + {a});
    assert Entry(s, w, a);
    forall b
      ensures Entry(s', w', b)
    {
      assert Entry(s, w, b);
      LookupAppend(s.objs, a, s.next, b);
    }
  }

  // What a step of the copy leaves as it was.
  ghost predicate Kept(s: State, s': State) {
    && s'.next >= s.next && s'.deep == s.deep && s'.level >= s.level
    && (forall a | a in s.heap :: a in s'.heap && s'.heap[a] == s.heap[a])
    && (forall a | a in s'.heap :: a in s.heap || s.next <= a < s'.next)
  }

  ghost predicate Extends(s: State, s': State) {
    && (forall a | a in s.copies :: a in s'.copies && s'.copies[a] == s.copies[a])
    && s'.next - s.next == |s'.copies| - |s.copies|
  }

  // Objects copied between the two states, each to a new object that is its image.
  ghost predicate Copied(h: Heap, s: State, s': State) {
    forall a | a in s'.copies && a !in s.copies :: CopiedTo(h, s, s', a)
  }

  ghost predicate CopiedTo(h: Heap, s: State, s': State, a: Addr) {
    && a in h && a in s'.copies && s.next <= s'.copies[a] < s'.next && s'.copies[a] in s'.heap
    && AllRefsIn(h[a].slots, s'.copies.Keys)
    && s'.heap[s'.copies[a]] == Object(ImageAll(s'.copies, h[a].slots), true)
  }

  ghost predicate Good(h: Heap, s: State, s': State, w: Walk, v: Slot, v': Slot) {
    && Base(h, s') && Sync(h, s', w) && Kept(s, s') && Extends(s, s') && Copied(h, s, s')
    && RefsIn(v, s'.copies.Keys) && v' == Image(s'.copies, v)
  }

  ghost predicate AllGood(h: Heap, s: State, s': State, w: Walk, vs: seq<Slot>, vs': seq<Slot>) {
    && Base(h, s') && Sync(h, s', w) && Kept(s, s') && Extends(s, s') && Copied(h, s, s')
    && AllRefsIn(vs, s'.copies.Keys) && vs' == ImageAll(s'.copies, vs)
  }

  // With two steps one after the other, the copies made by the first stay what they are.
  lemma CopiedTrans(h: Heap, s: State, s1: State, s2: State)
    requires Base(h, s1) && Base(h, s2) && 0 !in s1.copies && 0 !in s2.copies
    requires Kept(s, s1) && Kept(s1, s2) && Extends(s, s1) && Extends(s1, s2)
    requires Copied(h, s, s1) && Copied(h, s1, s2)
    ensures Kept(s, s2) && Extends(s, s2) && Copied(h, s, s2)
  {
    forall a | a in s2.copies && a !in s.copies
      ensures CopiedTo(h, s, s2, a)
    {
      if a in s1.copies {
        assert CopiedTo(h, s, s1, a);
        ImageAllStable(s1.copies, s2.copies, h[a].slots);
      } else {
        assert CopiedTo(h, s1, s2, a);
      }
    }
  }

  lemma {:induction false} CopyFollows(h: Heap, s: State, w: Walk, v: Slot, found: Addr, stack: nat)
    requires Base(h, s) && Sync(h, s, w) && RefsIn(v, h.Keys)
    ensures var r, w' := Copy(s, v, found, stack), Go(h, w, v, found);
      && (w'.Seen? && r.Done? ==> Good(h, s, r.s, w', v, r.v))
      && (w'.Seen? && stack >= Left(h, w) ==> r.Done?)
      && (w'.Refused? ==> !r.Done? && (stack >= Left(h, w) ==> r.why.NotSupported?))
    decreases stack, v
  {
    hide Good, Left;
    if v.Unset? || v.Atom? || v == Ref(0) {
      Unchanged(h, s, w, v);
    } else if v.Ref? {
      var a := v.addr;
      assert Entry(s, w, a);
      if a in w.seen {
        Met(h, s, w, a);
      } else if h[a].cloneable && stack > 0 && (a in w.bad ==> w.bad[a] == 0) {
        RefFollows(h, s, w, a, found, stack);
      } else {
        LeftLess(h, w, a);
      }
    } else {
      InlineFollows(h, s, w, v, found, stack);
    }
  }

  lemma Unchanged(h: Heap, s: State, w: Walk, v: Slot)
    requires Base(h, s) && Sync(h, s, w) && (v.Unset? || v.Atom? || v == Ref(0))
    ensures Good(h, s, s, w, v, v)
  {
  }

  // An object met before, and not as a tuple's first word.
  lemma Met(h: Heap, s: State, w: Walk, a: Addr)
    requires Base(h, s) && Sync(h, s, w) && a in w.seen
    ensures a !in w.bad ==> Good(h, s, s.(level := s.level + 1), w, Ref(a), Ref(s.copies[a]))
  {
    Deeper(h, s, w);
  }

  lemma {:induction false} InlineFollows(h: Heap, s: State, w: Walk, v: Slot, found: Addr, stack: nat)
    requires Base(h, s) && w.Seen? && Sync(h, s, w) && RefsIn(v, h.Keys) && v.Inline?
    ensures var r, w' := Copy(s, v, found, stack), Go(h, w, v, found);
      && (w'.Seen? && r.Done? ==> Good(h, s, r.s, w', v, r.v))
      && (w'.Seen? && stack >= Left(h, w) ==> r.Done?)
      && (w'.Refused? ==> !r.Done? && (stack >= Left(h, w) ==> r.why.NotSupported?))
    decreases stack, v, 0
  {
    hide Sync, Copied, Lookup, Insert, Left;
    var s1 := s.(level := s.level + 1);
    var s2, w2 := s1.(objs := Insert(s1.objs, FirstWord(v), found)), Marked(w, FirstWord(v), found);
    Deeper(h, s, w);
    InsertSync(h, s1, w, FirstWord(v), found);
    CopyAllFollows(h, s2, w2, v.elems, found, stack);
    assert w2.seen == w.seen && Left(h, w2) == Left(h, w) by {
      LeftSame(h, w, w2);
    }
    var q := CopyAll(s2, v.elems, found, stack);
    if q.AllDone? && GoAll(h, w2, v.elems, found).Seen? {
      SameCopies(h, s, s2, q.s);
    }
  }

  lemma LeftSame(h: Heap, w: Walk, w': Walk)
    requires w.Seen? && w'.Seen? && w.seen == w'.seen
    ensures Left(h, w) == Left(h, w')
  {
  }

  lemma SameCopies(h: Heap, s: State, s2: State, s': State)
    requires s.copies == s2.copies && s.next == s2.next && Copied(h, s2, s')
    ensures Copied(h, s, s')
  {
  }

  lemma {:induction false} RefFollows(h: Heap, s: State, w: Walk, a: Addr, found: Addr, stack: nat)
    requires Base(h, s) && w.Seen? && Sync(h, s, w) && a in h && h[a].cloneable && a !in w.seen && stack > 0
    requires a in w.bad ==> w.bad[a] == 0
    ensures var r, w' := Copy(s, Ref(a), found, stack), Go(h, w, Ref(a), found);
      && (w'.Seen? && r.Done? ==> Good(h, s, r.s, w', Ref(a), r.v))
      && (w'.Seen? && stack >= Left(h, w) ==> r.Done?)
      && (w'.Refused? ==> !r.Done? && (stack >= Left(h, w) ==> r.why.NotSupported?))
    decreases stack, Ref(a), 0
  {
    hide Base, Sync, Good, AllGood, Lookup, Insert, Left, AllRefsIn;
    var s1, w1 := s.(level := s.level + 1), w.(seen := w.seen + {a});
    Ready(h, s, w, a);
    Deeper(h, s, w);
    AllocatedSync(h, s1, w, a);
    LeftLess(h, w, a);
    CopyAllFollows(h, Allocated(s1, a), w1, h[a].slots, 0, stack - 1);
    var q, w' := CopyAll(Allocated(s1, a), h[a].slots, 0, stack - 1), GoAll(h, w1, h[a].slots, 0);
    if q.AllDone? && w'.Seen? {
      ObjectCopied(h, s, w, a, q.s, w', q.vs);
    }
  }

  lemma Ready(h: Heap, s: State, w: Walk, a: Addr)
    requires Base(h, s) && Sync(h, s, w) && a in h && a !in w.seen && (a in w.bad ==> w.bad[a] == 0)
    ensures Lookup(s.objs, a) == 0 && s.deep && a in s.heap && s.heap[a] == h[a] && a != 0
    ensures AllRefsIn(h[a].slots, h.Keys) && w.seen <= h.Keys
  {
    assert Entry(s, w, a);
  }

  lemma Deeper(h: Heap, s: State, w: Walk)
    requires Base(h, s) && Sync(h, s, w)
    ensures Base(h, s.(level := s.level + 1)) && Sync(h, s.(level := s.level + 1), w)
  {
    var s1 := s.(level := s.level + 1);
    forall a
      ensures Entry(s1, w, a)
    {
      assert Entry(s, w, a);
    }
  }

  lemma ObjectCopied(h: Heap, s: State, w: Walk, a: Addr, s2: State, w': Walk, vs: seq<Slot>)
    requires Base(h, s) && w.Seen? && Sync(h, s, w) && a in h && a !in w.seen
    requires AllGood(h, Allocated(s.(level := s.level + 1), a), s2, w', h[a].slots, vs)
    ensures Good(h, s, Filled(s2, s.next, vs), w', Ref(a), Ref(s.next))
  {
    hide Base, Sync, Kept, Extends, Copied, Insert;
    var s1 := Allocated(s.(level := s.level + 1), a);
    FilledKept(h, s, w, a, s2, vs);
    FilledInSync(h, s1, s2, w', s.next, vs);
    FilledCopied(h, s, w, a, s2, w', vs);
  }

  lemma FilledInSync(h: Heap, s1: State, s2: State, w: Walk, c: Addr, vs: seq<Slot>)
    requires Base(h, s2) && Sync(h, s2, w) && Kept(s1, s2) && c in s1.heap && c !in h
    ensures Base(h, Filled(s2, c, vs)) && Sync(h, Filled(s2, c, vs), w)
  {
    hide Closed;
    forall b
      ensures Entry(Filled(s2, c, vs), w, b)
    {
      assert Entry(s2, w, b);
    }
  }

  lemma FilledKept(h: Heap, s: State, w: Walk, a: Addr, s2: State, vs: seq<Slot>)
    requires Base(h, s) && Sync(h, s, w) && a in h && a !in w.seen
    requires var s1 := Allocated(s.(level := s.level + 1), a); Kept(s1, s2) && Extends(s1, s2)
    ensures Kept(s, Filled(s2, s.next, vs)) && Extends(s, Filled(s2, s.next, vs))
    ensures s.next !in h && s.next in Allocated(s.(level := s.level + 1), a).heap
  {
    hide Closed, Entry, Insert, Lookup, HasKey, Kept, Extends;
    var s1 := Allocated(s.(level := s.level + 1), a);
    assert s.next !in s.heap && a !in s.copies;
    KeptBefore(s, s1, s2, s.next, vs);
    ExtendsBefore(s, s1, s2, a, s.next, vs);
  }

  lemma KeptBefore(s: State, s1: State, s2: State, c: Addr, vs: seq<Slot>)
    requires c == s.next && c !in s.heap && s1.heap == s.heap[c := Object([], true)]
    requires s1.next == s.next + 1 && s1.level >= s.level && s1.deep == s.deep && Kept(s1, s2)
    ensures Kept(s, Filled(s2, c, vs))
  {
  }

  lemma ExtendsBefore(s: State, s1: State, s2: State, a: Addr, c: Addr, vs: seq<Slot>)
    requires a !in s.copies && s1.copies == s.copies[a := c] && s1.next == s.next + 1 && Extends(s1, s2)
    ensures Extends(s, Filled(s2, c, vs))
  {
  }

  lemma NotCopied(h: Heap, s: State, w: Walk, a: Addr)
    requires Sync(h, s, w) && a !in w.seen
    ensures a !in s.copies
  {
  }

  lemma FilledCopied(h: Heap, s: State, w: Walk, a: Addr, s2: State, w': Walk, vs: seq<Slot>)
    requires Base(h, s) && w.Seen? && Sync(h, s, w) && a in h && a !in w.seen
    requires AllGood(h, Allocated(s.(level := s.level + 1), a), s2, w', h[a].slots, vs)
    ensures Copied(h, s, Filled(s2, s.next, vs)) && a in s2.copies && s2.copies[a] == s.next
  {
    hide Base, Sync, Insert, AllRefsIn, ImageAll;
    assert a !in s.copies by {
      NotCopied(h, s, w, a);
    }
    var s1, s' := Allocated(s.(level := s.level + 1), a), Filled(s2, s.next, vs);
    forall b | b in s'.copies && b !in s.copies
      ensures CopiedTo(h, s, s', b)
    {
      if b != a {
        assert CopiedTo(h, s1, s2, b);
      }
    }
  }

  lemma {:induction false} CopyAllFollows(h: Heap, s: State, w: Walk, vs: seq<Slot>, found: Addr, stack: nat)
    requires Base(h, s) && Sync(h, s, w) && AllRefsIn(vs, h.Keys)
    ensures var r, w' := CopyAll(s, vs, found, stack), GoAll(h, w, vs, found);
      && (w'.Seen? && r.AllDone? ==> AllGood(h, s, r.s, w', vs, r.vs))
      && (w'.Seen? && stack >= Left(h, w) ==> r.AllDone?)
      && (w'.Refused? ==> !r.AllDone? && (stack >= Left(h, w) ==> r.why.NotSupported?))
    decreases stack, vs
  {
    if vs != [] {
      CopyFollows(h, s, w, vs[0], found, stack);
      var r, w1 := Copy(s, vs[0], found, stack), Go(h, w, vs[0], found);
      if w1.Seen? && r.Done? {
        SubsetSize(h.Keys - w1.seen, h.Keys - w.seen);
        CopyAllFollows(h, r.s, w1, vs[1..], found, stack);
        var q := CopyAll(r.s, vs[1..], found, stack);
        if GoAll(h, w1, vs[1..], found).Seen? && q.AllDone? {
          CopiedTrans(h, s, r.s, q.s);
          ImageStable(r.s.copies, q.s.copies, vs[0]);
        }
      }
    }
  }

  // ----- If the copy is right, the walk goes through

  // v2 is a copy of v: there is one new object for each object, and the new ones refer to each other as the old
  // ones do.
  ghost predicate IsCopy(h: Heap, start: Addr, heap: Heap, v: Slot, v2: Slot, m: map<Addr, Addr>) {
    && 0 !in m && RefsIn(v, m.Keys) && v2 == Image(m, v)
    && (forall a | a in m :: IsCopied(h, start, heap, m, a))
    && (forall a, b | a in m && b in m && a != b :: m[a] != m[b])
  }

  ghost predicate IsCopied(h: Heap, start: Addr, heap: Heap, m: map<Addr, Addr>, a: Addr) {
    && a in m && a in h && start <= m[a] && m[a] in heap
    && AllRefsIn(h[a].slots, m.Keys) && heap[m[a]] == Object(ImageAll(m, h[a].slots), true)
  }

  // The copies made so far are the ones of m, and the ones made between two states are finished.
  ghost predicate Agrees(copies: map<Addr, Addr>, m: map<Addr, Addr>) {
    forall a | a in copies :: a in m && m[a] == copies[a]
  }

  ghost predicate Finished(h: Heap, s: State, s': State, m: map<Addr, Addr>) {
    forall a | a in m && s.next <= m[a] < s'.next :: IsCopied(h, s.next, s'.heap, m, a)
  }

  ghost predicate Junk(w: Walk, m: map<Addr, Addr>) {
    w.Seen? && 0 !in m && 0 !in m.Values && forall a, b | a in w.bad && b in m :: w.bad[a] != m[b]
  }

  lemma {:induction false} CopyKeeps(s: State, v: Slot, found: Addr, stack: nat)
    requires forall a | a in s.heap :: a < s.next
    ensures var r := Copy(s, v, found, stack);
      r.Done? ==> Kept(s, r.s) && forall a | a in r.s.heap :: a < r.s.next
    decreases stack, v
  {
    var s1 := s.(level := s.level + 1);
    if v.Ref? && v.addr in s.heap && stack > 0 {
      CopyAllKeeps(Allocated(s1, v.addr), s.heap[v.addr].slots, 0, stack - 1);
    } else if v.Inline? {
      CopyAllKeeps(s1.(objs := Insert(s1.objs, FirstWord(v), found)), v.elems, found, stack);
    }
  }

  lemma {:induction false} CopyAllKeeps(s: State, vs: seq<Slot>, found: Addr, stack: nat)
    requires forall a | a in s.heap :: a < s.next
    ensures var r := CopyAll(s, vs, found, stack);
      r.AllDone? ==> Kept(s, r.s) && forall a | a in r.s.heap :: a < r.s.next
    decreases stack, vs
  {
    if vs != [] {
      CopyKeeps(s, vs[0], found, stack);
      var r := Copy(s, vs[0], found, stack);
      if r.Done? {
        CopyAllKeeps(r.s, vs[1..], found, stack);
      }
    }
  }

  lemma {:induction false} CopyAgrees(h: Heap, s: State, w: Walk, v: Slot, found: Addr, stack: nat, m: map<Addr, Addr>)
    requires Base(h, s) && Sync(h, s, w) && RefsIn(v, h.Keys) && Agrees(s.copies, m) && Junk(w, m) && found !in m.Values
    requires var r := Copy(s, v, found, stack);
      r.Done? && RefsIn(v, m.Keys) && r.v == Image(m, v) && Finished(h, s, r.s, m)
    ensures var w' := Go(h, w, v, found);
      Junk(w', m) && Agrees(Copy(s, v, found, stack).s.copies, m)
    decreases stack, v
  {
    if v.Unset? || v.Atom? || v == Ref(0) {
    } else if v.Ref? {
      var a := v.addr;
      assert Entry(s, w, a);
      if Lookup(s.objs, a) == 0 {
        RefAgrees(h, s, w, a, found, stack, m);
      }
    } else {
      var s1 := s.(level := s.level + 1);
      Deeper(h, s, w);
      InsertSync(h, s1, w, FirstWord(v), found);
      CopyAllAgrees(h, s1.(objs := Insert(s1.objs, FirstWord(v), found)), Marked(w, FirstWord(v), found), v.elems, found,
        stack, m);
    }
  }

  lemma {:induction false} RefAgrees(h: Heap, s: State, w: Walk, a: Addr, found: Addr, stack: nat, m: map<Addr, Addr>)
    requires Base(h, s) && w.Seen? && Sync(h, s, w) && a in h && Agrees(s.copies, m) && Junk(w, m)
    requires a in m && Lookup(s.objs, a) == 0
    requires var r := Copy(s, Ref(a), found, stack);
      r.Done? && r.v == Image(m, Ref(a)) && Finished(h, s, r.s, m)
    ensures var w' := Go(h, w, Ref(a), found);
      Junk(w', m) && Agrees(Copy(s, Ref(a), found, stack).s.copies, m)
    decreases stack, Ref(a), 0
  {
    hide Base, Sync, Insert, Junk, Copy, Go, AllRefsIn, Agrees, Finished, ImageAll, Lookup, Allocated, Filled;
    var s1, w1 := s.(level := s.level + 1), w.(seen := w.seen + {a});
    assert s.deep && a != 0 && s.level >= -1 by {
      BaseParts(h, s, a);
    }
    RefCopied(s, a, found, stack);
    New(h, s, w, a, m);
    Deeper(h, s, w);
    AllocatedSync(h, s1, w, a);
    LeftLess(h, w, a);
    GoRef(h, w, a, found);
    var q := CopyAll(Allocated(s1, a), h[a].slots, 0, stack - 1);
    NextGrows(s, a, h[a].slots, stack - 1);
    Inside(h, s, q.s, m, a, q.vs);
    CopyAllAgrees(h, Allocated(s1, a), w1, h[a].slots, 0, stack - 1, m);
  }

  lemma BaseParts(h: Heap, s: State, a: Addr)
    requires Base(h, s) && a in h
    ensures s.deep && s.level >= -1 && a != 0
  {
  }

  lemma NextGrows(s: State, a: Addr, vs: seq<Slot>, stack: nat)
    requires forall b | b in s.heap :: b < s.next
    ensures var q := CopyAll(Allocated(s.(level := s.level + 1), a), vs, 0, stack);
      q.AllDone? ==> q.s.next > s.next
  {
    CopyAllKeeps(Allocated(s.(level := s.level + 1), a), vs, 0, stack);
  }

  lemma GoRef(h: Heap, w: Walk, a: Addr, found: Addr)
    requires w.Seen? && w.seen <= h.Keys && a !in w.seen && a in h && h[a].cloneable && a != 0
    requires a in w.bad ==> w.bad[a] == 0
    ensures Go(h, w, Ref(a), found) == GoAll(h, w.(seen := w.seen + {a}), h[a].slots, 0)
  {
  }

  lemma RefCopied(s: State, a: Addr, found: Addr, stack: nat)
    requires s.deep && a != 0 && Lookup(s.objs, a) == 0 && Copy(s, Ref(a), found, stack).Done?
    ensures a in s.heap && s.heap[a].cloneable && stack > 0
    ensures var q := CopyAll(Allocated(s.(level := s.level + 1), a), s.heap[a].slots, 0, stack - 1);
      && q.AllDone? && Copy(s, Ref(a), found, stack) == Done(Filled(q.s, s.next, q.vs), Ref(s.next))
      && Copy(s, Ref(a), found, stack).s.copies == q.s.copies
  {
  }

  // An object that the pointer map does not know is met for the first time, or else it would have two copies.
  lemma New(h: Heap, s: State, w: Walk, a: Addr, m: map<Addr, Addr>)
    requires Base(h, s) && Sync(h, s, w) && a in h && a in m && Lookup(s.objs, a) == 0 && Agrees(s.copies, m) && Junk(w, m)
    requires m[a] == s.next
    ensures a !in s.copies && a !in w.seen && (a in w.bad ==> w.bad[a] == 0) && w.Seen? && w.seen <= h.Keys
    ensures s.heap.Keys >= h.Keys && s.heap[a] == h[a] && AllRefsIn(h[a].slots, h.Keys) && s.deep && s.level >= -1
    ensures Agrees(Allocated(s.(level := s.level + 1), a).copies, m) && Junk(w.(seen := w.seen + {a}), m)
    ensures 0 !in m.Values && a != 0 && forall b | b in s.heap :: b < s.next
  {
    assert Entry(s, w, a);
  }

  lemma Inside(h: Heap, s: State, s2: State, m: map<Addr, Addr>, a: Addr, vs: seq<Slot>)
    requires a in m && m[a] == s.next && s2.next > s.next && Finished(h, s, Filled(s2, s.next, vs), m)
    ensures Finished(h, Allocated(s.(level := s.level + 1), a), s2, m)
    ensures AllRefsIn(h[a].slots, m.Keys) && vs == ImageAll(m, h[a].slots)
  {
  }

  lemma {:induction false} CopyAllAgrees(
    h: Heap, s: State, w: Walk, vs: seq<Slot>, found: Addr, stack: nat, m: map<Addr, Addr>)
    requires Base(h, s) && Within(h, w) && Sync(h, s, w) && AllRefsIn(vs, h.Keys) && Agrees(s.copies, m) && Junk(w, m)
    requires found !in m.Values
    requires var r := CopyAll(s, vs, found, stack);
      r.AllDone? && AllRefsIn(vs, m.Keys) && r.vs == ImageAll(m, vs) && Finished(h, s, r.s, m)
    ensures var w' := GoAll(h, w, vs, found);
      Junk(w', m) && Agrees(CopyAll(s, vs, found, stack).s.copies, m)
    decreases stack, vs
  {
    hide Base, Sync, RefsIn, Image, Left, Finished, Agrees, Junk, Kept, Good;
    if vs != [] {
      var r := Copy(s, vs[0], found, stack);
      var q := CopyAll(r.s, vs[1..], found, stack);
      Bounded(h, s);
      CopyKeeps(s, vs[0], found, stack);
      CopyAllKeeps(r.s, vs[1..], found, stack);
      FinishedFirst(h, s, r.s, q.s, m);
      CopyAgrees(h, s, w, vs[0], found, stack, m);
      InSync(h, s, w, vs[0], found, stack, m);
      CopyAllAgrees(h, r.s, Go(h, w, vs[0], found), vs[1..], found, stack, m);
    }
  }

  lemma Bounded(h: Heap, s: State)
    requires Base(h, s)
    ensures forall a | a in s.heap :: a < s.next
  {
  }

  lemma InSync(h: Heap, s: State, w: Walk, v: Slot, found: Addr, stack: nat, m: map<Addr, Addr>)
    requires Base(h, s) && Sync(h, s, w) && RefsIn(v, h.Keys) && Junk(Go(h, w, v, found), m)
    requires Copy(s, v, found, stack).Done?
    ensures Base(h, Copy(s, v, found, stack).s) && Sync(h, Copy(s, v, found, stack).s, Go(h, w, v, found))
    ensures Go(h, w, v, found).Seen?
  {
    CopyFollows(h, s, w, v, found, stack);
  }

  lemma FinishedFirst(h: Heap, s: State, s1: State, s2: State, m: map<Addr, Addr>)
    requires Finished(h, s, s2, m) && Kept(s, s1) && Kept(s1, s2)
    requires (forall a | a in s2.heap :: a < s2.next) && forall a | a in s1.heap :: a < s1.next
    ensures Finished(h, s, s1, m) && Finished(h, s1, s2, m)
  {
  }

  // ----- Deep copies

  // _slowpath_clone sets up an empty pointer map; the memory the copies go to starts at `start`.
  function CopyRoot(h: Heap, v: Slot, found: Addr, start: Addr, deep: bool, stack: nat): Outcome {
    Copy(State(h, [], deep, -1, start, map[]), v, found, stack)
  }

  const START := Seen({}, map[])

  ghost predicate Source(h: Heap, v: Slot, found: Addr, start: Addr) {
    && Closed(h) && 0 !in h && RefsIn(v, h.Keys) && (forall a | a in h :: a < start) && 0 <= found < start
  }

  lemma StartInSync(h: Heap, v: Slot, found: Addr, start: Addr)
    requires Source(h, v, found, start)
    ensures var s := State(h, [], true, -1, start, map[]); Base(h, s) && Sync(h, s, START)
  {
  }

  // A deep copy that the walk approves of is right: one object is allocated for each object that can be reached,
  // and the new objects refer to each other as the old ones do, cycles and sharing included.
  lemma DeepCopyIsRight(h: Heap, v: Slot, found: Addr, start: Addr, stack: nat)
    requires Source(h, v, found, start) && Go(h, START, v, found).Seen? && stack >= |h|
    ensures var r := CopyRoot(h, v, found, start, true, stack);
      && r.Done?
      && IsCopy(h, start, r.s.heap, v, r.v, r.s.copies)
      && r.s.copies.Keys == Go(h, START, v, found).seen
      && r.s.next - start == |r.s.copies|
      && (forall a | a in h :: a in r.s.heap && r.s.heap[a] == h[a])
      && (forall a | a in r.s.heap :: a in h || start <= a < r.s.next)
  {
    StartInSync(h, v, found, start);
    assert h.Keys - {} == h.Keys;
    var s := State(h, [], true, -1, start, map[]);
    CopyFollows(h, s, START, v, found, stack);
    var r := Copy(s, v, found, stack);
    forall a | a in r.s.copies
      ensures IsCopied(h, start, r.s.heap, r.s.copies, a)
    {
      assert CopiedTo(h, s, r.s, a);
    }
  }

  // And exactly then: with enough stack, a deep copy ends in a value that is a copy if and only if no object is
  // met again after having been met as the first word of a tuple.
  lemma DeepCopyIff(h: Heap, v: Slot, found: Addr, start: Addr, stack: nat)
    requires Source(h, v, found, start) && stack >= |h|
    ensures var r := CopyRoot(h, v, found, start, true, stack);
      Go(h, START, v, found).Seen? <==> r.Done? && exists m :: IsCopy(h, start, r.s.heap, v, r.v, m)
  {
    var r := CopyRoot(h, v, found, start, true, stack);
    if Go(h, START, v, found).Seen? {
      DeepCopyIsRight(h, v, found, start, stack);
    } else if r.Done? && exists m :: IsCopy(h, start, r.s.heap, v, r.v, m) {
      var m :| IsCopy(h, start, r.s.heap, v, r.v, m);
      StartInSync(h, v, found, start);
      assert forall a | a in m :: IsCopied(h, start, r.s.heap, m, a);
      CopyAgrees(h, State(h, [], true, -1, start, map[]), START, v, found, stack, m);
      assert false;
    }
  }

  // A type without clone functions is reported, once the walk gets to it.
  lemma NotSupportedIsReported(h: Heap, v: Slot, found: Addr, start: Addr, stack: nat)
    requires Source(h, v, found, start) && Go(h, START, v, found).Refused? && stack >= |h|
    ensures CopyRoot(h, v, found, start, true, stack) == Failed(NotSupported)
  {
    StartInSync(h, v, found, start);
    assert h.Keys - {} == h.Keys;
    CopyFollows(h, State(h, [], true, -1, start, map[]), START, v, found, stack);
  }

  // ----- What the walk sees

  ghost predicate ClosedSet(h: Heap, d: set<Addr>) {
    forall a | a in d && a in h :: AllRefsIn(h[a].slots, d)
  }

  // The object is in every set that contains what v refers to and what its members refer to.
  ghost predicate Reachable(h: Heap, v: Slot, a: Addr) {
    forall d: set<Addr> | RefsIn(v, d) && ClosedSet(h, d) :: a in d
  }

  lemma {:induction false} GoInside(h: Heap, w: Walk, v: Slot, found: Addr, d: set<Addr>)
    requires Within(h, w) && w.Seen? && w.seen <= d && RefsIn(v, d) && ClosedSet(h, d)
    ensures var w' := Go(h, w, v, found); w'.Seen? ==> w'.seen <= d
    decreases Left(h, w), v
  {
    hide Go, GoAll, Left;
    GoCases(h, w, v, found);
    if IsNew(h, w, v) {
      LeftLess(h, w, v.addr);
      GoAllInside(h, w.(seen := w.seen + {v.addr}), h[v.addr].slots, 0, d);
    } else if v.Inline? {
      LeftSame(h, w, Marked(w, FirstWord(v), found));
      GoAllInside(h, Marked(w, FirstWord(v), found), v.elems, found, d);
    }
  }

  lemma {:induction false} GoAllInside(h: Heap, w: Walk, vs: seq<Slot>, found: Addr, d: set<Addr>)
    requires Within(h, w) && w.Seen? && w.seen <= d && AllRefsIn(vs, d) && ClosedSet(h, d)
    ensures var w' := GoAll(h, w, vs, found); w'.Seen? ==> w'.seen <= d
    decreases Left(h, w), vs
  {
    if vs != [] {
      GoInside(h, w, vs[0], found, d);
      var w1 := Go(h, w, vs[0], found);
      if w1.Seen? {
        SubsetSize(h.Keys - w1.seen, h.Keys - w.seen);
        GoAllInside(h, w1, vs[1..], found, d);
      }
    }
  }

  // The objects copied are exactly the ones that can be reached.
  lemma CopiesAreReachable(h: Heap, v: Slot, found: Addr, start: Addr, stack: nat, a: Addr)
    requires Source(h, v, found, start) && Go(h, START, v, found).Seen? && stack >= |h|
    ensures CopyRoot(h, v, found, start, true, stack).Done?
    ensures a in CopyRoot(h, v, found, start, true, stack).s.copies <==> Reachable(h, v, a)
  {
    DeepCopyIsRight(h, v, found, start, stack);
    var r := CopyRoot(h, v, found, start, true, stack);
    var m := r.s.copies;
    assert forall b | b in m :: IsCopied(h, start, r.s.heap, m, b);
    assert ClosedSet(h, m.Keys);
    forall d: set<Addr> | RefsIn(v, d) && ClosedSet(h, d)
      ensures m.Keys <= d
    {
      GoInside(h, START, v, found, d);
    }
  }

  ghost predicate IsNew(h: Heap, w: Walk, v: Slot) {
    v.Ref? && v.addr != 0 && w.Seen? && v.addr !in w.seen && v.addr in h && h[v.addr].cloneable
  }

  lemma GoCases(h: Heap, w: Walk, v: Slot, found: Addr)
    requires Within(h, w) && w.Seen?
    ensures var w' := Go(h, w, v, found);
      && (v.Inline? ==> w' == GoAll(h, Marked(w, FirstWord(v), found), v.elems, found))
      && (v.Ref? && v.addr !in w.bad && IsNew(h, w, v) ==> w' == GoAll(h, w.(seen := w.seen + {v.addr}), h[v.addr].slots, 0))
      && (v.Ref? && v.addr in w.bad && IsNew(h, w, v) ==>
        w' == Garbled || w' == GoAll(h, w.(seen := w.seen + {v.addr}), h[v.addr].slots, 0))
      && (!v.Inline? && !IsNew(h, w, v) ==> w' == w || w' == Refused || (w' == Garbled && v.Ref? && v.addr != 0 && v.addr in w.bad))
  {
  }

  // No tuple begins with what could be taken for the address of an object.
  ghost predicate Plain(v: Slot, d: set<Addr>) {
    v.Inline? ==> FirstWord(v) !in d && AllPlain(v.elems, d)
  }

  ghost predicate AllPlain(vs: seq<Slot>, d: set<Addr>) {
    vs == [] || (Plain(vs[0], d) && AllPlain(vs[1..], d))
  }

  // Then the walk goes through unless a type has no clone functions, whatever cycles there are.
  lemma {:induction false} PlainGoes(h: Heap, w: Walk, v: Slot, found: Addr)
    requires Within(h, w) && w.Seen? && w.bad.Keys !! h.Keys && Plain(v, h.Keys) && RefsIn(v, h.Keys) && Closed(h)
    requires forall a | a in h :: AllPlain(h[a].slots, h.Keys)
    ensures var w' := Go(h, w, v, found); !w'.Garbled? && (w'.Seen? ==> w'.bad.Keys !! h.Keys)
    decreases Left(h, w), v
  {
    hide Go, GoAll, Left;
    GoCases(h, w, v, found);
    if IsNew(h, w, v) {
      LeftLess(h, w, v.addr);
      AllPlainGoes(h, w.(seen := w.seen + {v.addr}), h[v.addr].slots, 0);
    } else if v.Inline? {
      LeftSame(h, w, Marked(w, FirstWord(v), found));
      AllPlainGoes(h, Marked(w, FirstWord(v), found), v.elems, found);
    }
  }

  lemma {:induction false} AllPlainGoes(h: Heap, w: Walk, vs: seq<Slot>, found: Addr)
    requires Within(h, w) && w.Seen? && w.bad.Keys !! h.Keys && AllPlain(vs, h.Keys) && AllRefsIn(vs, h.Keys)
    requires Closed(h) && forall a | a in h :: AllPlain(h[a].slots, h.Keys)
    ensures var w' := GoAll(h, w, vs, found); !w'.Garbled? && (w'.Seen? ==> w'.bad.Keys !! h.Keys)
    decreases Left(h, w), vs
  {
    if vs != [] {
      PlainGoes(h, w, vs[0], found);
      var w1 := Go(h, w, vs[0], found);
      if w1.Seen? {
        SubsetSize(h.Keys - w1.seen, h.Keys - w.seen);
        AllPlainGoes(h, w1, vs[1..], found);
      }
    }
  }

  lemma {:induction false} BadStays(h: Heap, w: Walk, v: Slot, found: Addr, a: Addr)
    requires Within(h, w) && w.Seen? && a in w.bad
    ensures var w' := Go(h, w, v, found); w'.Seen? ==> a in w'.bad
    decreases Left(h, w), v
  {
    hide Go, GoAll, Left;
    GoCases(h, w, v, found);
    if IsNew(h, w, v) {
      LeftLess(h, w, v.addr);
      AllBadStays(h, w.(seen := w.seen + {v.addr}), h[v.addr].slots, 0, a);
    } else if v.Inline? {
      LeftSame(h, w, Marked(w, FirstWord(v), found));
      AllBadStays(h, Marked(w, FirstWord(v), found), v.elems, found, a);
    }
  }

  lemma {:induction false} AllBadStays(h: Heap, w: Walk, vs: seq<Slot>, found: Addr, a: Addr)
    requires Within(h, w) && w.Seen? && a in w.bad
    ensures var w' := GoAll(h, w, vs, found); w'.Seen? ==> a in w'.bad
    decreases Left(h, w), vs
  {
    if vs != [] {
      BadStays(h, w, vs[0], found, a);
      var w1 := Go(h, w, vs[0], found);
      if w1.Seen? {
        SubsetSize(h.Keys - w1.seen, h.Keys - w.seen);
        AllBadStays(h, w1, vs[1..], found, a);
      }
    }
  }

  // A pair of twice the same reference: whatever the object, the deep copy of the pair is not a copy.
  lemma PairIsGarbled(h: Heap, a: Addr, found: Addr, start: Addr, stack: nat)
    requires Source(h, Ref(a), found, start) && a != 0 && stack >= |h|
    ensures var v := Inline([Ref(a), Ref(a)]);
      var r := CopyRoot(h, v, found, start, true, stack);
      r.Done? ==> forall m :: !IsCopy(h, start, r.s.heap, v, r.v, m)
  {
    var pair := [Ref(a), Ref(a)];
    var v, w := Inline(pair), Marked(START, a, found);
    DeepCopyIff(h, v, found, start, stack) by {
      assert AllRefsIn(pair, h.Keys) by {
        assert AllRefsIn(pair[1..], h.Keys);
      }
    }
    BadStays(h, w, Ref(a), found, a);
    var w1 := Go(h, w, Ref(a), found);
    if w1.Seen? {
      assert a in w1.seen;
      assert pair[1..][0] == Ref(a);
      assert Go(h, w1, Ref(a), found) == Garbled;
      assert GoAll(h, w1, pair[1..], found) == Garbled;
    }
    assert FirstWord(v) == a by {
      assert FirstWord(pair[0]) == a;
    }
    GoCases(h, START, v, found);
    assert pair[0] == Ref(a) && GoAll(h, w, pair, found) == if w1.Seen? then GoAll(h, w1, pair[1..], found) else w1;
  }

  // A tuple of one object that refers to itself: copying it recurses until the stack is used up.
  lemma {:induction false} CycleNeverEnds(a: Addr, start: Addr, stack: nat)
    requires 0 < a < start
    ensures CopyRoot(map[a := Object([Ref(a)], true)], Inline([Ref(a)]), 0, start, true, stack) == Failed(Exhausted)
  {
    var h: Heap := map[a := Object([Ref(a)], true)];
    var s := State(h, [], true, -1, start, map[]);
    var s1 := s.(level := 0, objs := Insert([], a, 0));
    assert s1.objs == [(a, 0)];
    SelfNeverEnds(s1, a, stack);
    assert FirstWord(Inline([Ref(a)])) == a;
    assert CopyAll(s1, [Ref(a)], 0, stack) == Aborted(Exhausted);
  }

  lemma {:induction false} SelfNeverEnds(s: State, a: Addr, stack: nat)
    requires s.deep && 0 < a < s.next && a in s.heap && s.heap[a] == Object([Ref(a)], true)
    requires |s.objs| > 0 && s.objs[0] == (a, 0)
    ensures Copy(s, Ref(a), 0, stack) == Failed(Exhausted)
    decreases stack
  {
    if stack > 0 {
      var s1 := Allocated(s.(level := s.level + 1), a);
      SelfNeverEnds(s1, a, stack - 1);
      assert CopyAll(s1, [Ref(a)], 0, stack - 1) == Aborted(Exhausted);
    }
  }

  // ----- Shallow copies

  predicate RefersTo(v: Slot, a: Addr) {
    v == Ref(a) && a != 0
  }

  function Redirected(objs: seq<(Addr, Addr)>, v: Slot): Slot {
    if v.Ref? && v.addr != 0 && Lookup(objs, v.addr) != 0 then Ref(Lookup(objs, v.addr)) else v
  }

  lemma {:induction false} ShallowAll(s: State, vs: seq<Slot>, found: Addr, stack: nat)
    requires !s.deep && s.level >= 0
    ensures var r := CopyAll(s, vs, found, stack);
      && r.AllDone? && r.s == s.(level := r.s.level) && |r.vs| == |vs|
      && forall i | 0 <= i < |vs| :: r.vs[i] == Redirected(s.objs, vs[i])
    decreases vs
  {
    if vs != [] {
      var r := Copy(s, vs[0], found, stack);
      assert r.Done? && r.v == Redirected(s.objs, vs[0]);
      ShallowAll(r.s, vs[1..], found, stack);
    }
  }

  // A shallow copy allocates one object. Its fields are the ones of the source, except that references to the
  // source now are references to the copy; references inside of tuples are not looked at.
  lemma ShallowCopy(h: Heap, a: Addr, found: Addr, start: Addr, stack: nat)
    requires a in h && h[a].cloneable && 0 < a && 0 < start && start !in h && stack > 0
    ensures var r := CopyRoot(h, Ref(a), found, start, false, stack);
      && r.Done? && r.v == Ref(start) && r.s.next == start + 1
      && r.s.heap.Keys == h.Keys + {start} && (forall b | b in h :: r.s.heap[b] == h[b])
      && |r.s.heap[start].slots| == |h[a].slots|
      && forall i | 0 <= i < |h[a].slots| ::
        r.s.heap[start].slots[i] == if h[a].slots[i] == Ref(a) then Ref(start) else h[a].slots[i]
  {
    var s1 := Allocated(State(h, [], false, 0, start, map[]), a);
    assert s1.objs == [(a, start)];
    ShallowAll(s1, h[a].slots, 0, stack - 1);
    forall b
      ensures Lookup(s1.objs, b) == if b == a then start else 0
    {
    }
  }

  // A tuple is its own shallow copy, unless garbage in the destination is taken for the copy of its first element.
  lemma ShallowTuple(h: Heap, elems: seq<Slot>, found: Addr, start: Addr, stack: nat)
    ensures var r := CopyRoot(h, Inline(elems), found, start, false, stack);
      && r.Done? && r.s.heap == h && r.v.Inline? && |r.v.elems| == |elems|
      && (forall i | 0 <= i < |elems| ::
        r.v.elems[i] == if found != 0 && RefersTo(elems[i], FirstWord(elems[0])) then Ref(found) else elems[i])
  {
    var v := Inline(elems);
    var s1 := State(h, Insert([], FirstWord(v), found), false, 0, start, map[]);
    assert s1.objs == [(FirstWord(v), found)];
    ShallowAll(s1, elems, found, stack);
    forall b
      ensures Lookup(s1.objs, b) == if b == FirstWord(v) then found else 0
    {
    }
  }
}
