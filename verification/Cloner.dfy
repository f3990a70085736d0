/**
  The procedures of libhilti/clone.c and the loop over an object's fields. The clone state and the memory are
  updated in place; Clone.Copy says what they are afterwards.
*/
module Cloner {
  import opened Clone

  // What the exception argument says afterwards.
  datatype Status = Fine | Error(why: Problem)

  class CloneState {
    var heap: Heap
    var objs: seq<(Addr, Addr)>
    var deep: bool
    var level: int
    var next: Addr
    ghost var copies: map<Addr, Addr>

    ghost function Abs(): State
      reads this
    {
      State(heap, objs, deep, level, next, copies)
    }

    // _slowpath_clone
    constructor (h: Heap, deep: bool, start: Addr)
      ensures Abs() == State(h, [], deep, -1, start, map[])
    {
      this.heap, this.objs, this.deep, this.level, this.next := h, [], deep, -1, start;
      this.copies := map[];
    }

    // __hlt_pointer_map_lookup
    method Find(key: Addr) returns (value: Addr)
      ensures value == Lookup(objs, key)
    {
      var i := 0;
      while i < |objs|
        invariant 0 <= i <= |objs| && Lookup(objs[i..], key) == Lookup(objs, key)
      {
        if objs[i].0 == key {
          return objs[i].1;
        }
        i := i + 1;
      }
      return 0;
    }

    // __hlt_pointer_map_insert
    method Remember(key: Addr, value: Addr)
      modifies this`objs
      ensures objs == Insert(old(objs), key, value)
      ensures objs == if Lookup(old(objs), key) != 0 then old(objs) else old(objs) + [(key, value)]
    {
      var cached := Find(key);
      if cached != 0 {
        return;
      }
      objs := objs + [(key, value)];
    }

    // _fastpath_clone and _slowpath_clone_recursive. After a failure, only the error is of interest.
    method CloneSlot(v: Slot, found: Addr, stack: nat) returns (w: Slot, status: Status)
      modifies this
      ensures match Copy(old(Abs()), v, found, stack)
        case Done(s, v') => status == Fine && Abs() == s && w == v'
        case Failed(why) => status == Error(why)
      decreases stack, v
    {
      status := Fine;
      if v.Unset? || v.Atom? || v == Ref(0) {
        return v, Fine;
      }
      level := level + 1;
      if v.Ref? {
        var cached := Find(v.addr);
        if cached != 0 {
          return Ref(cached), Fine;
        }
      }
      if !deep && level > 0 {
        return v, Fine;
      }
      if v.Ref? {
        if v.addr !in heap || !heap[v.addr].cloneable {
          return v, Error(NotSupported);
        }
        if stack == 0 {
          return v, Error(Exhausted);
        }
        var slots := heap[v.addr].slots;
        var c := Allocate(v.addr);
        var vs;
        vs, status := CloneSlots(slots, 0, stack - 1);
        heap := heap[c := Object(vs, true)];
        return Ref(c), status;
      } else {
        Remember(FirstWord(v), found);
        var vs;
        vs, status := CloneSlots(v.elems, found, stack);
        return Inline(vs), status;
      }
    }

    // clone_alloc
    method Allocate(a: Addr) returns (c: Addr)
      modifies this
      ensures Abs() == Allocated(old(Abs()), a)
      ensures c == old(next) && next == c + 1 && heap == old(heap)[c := Object([], true)]
    {
      c := next;
      heap, next := heap[c := Object([], true)], next + 1;
      Remember(a, c);
      copies := copies[a := c];
    }

    // The loops of hlt_struct_clone_init, hlt_tuple_clone_init and hlt_list_clone_init
    method CloneSlots(elems: seq<Slot>, found: Addr, stack: nat) returns (vs: seq<Slot>, status: Status)
      modifies this
      ensures match CopyAll(old(Abs()), elems, found, stack)
        case AllDone(s, vs') => status == Fine && Abs() == s && vs == vs'
        case Aborted(why) => status == Error(why)
      decreases stack, elems
    {
      vs, status := [], Fine;
      var i := 0;
      while i < |elems|
        invariant 0 <= i <= |elems| && status == Fine
        invariant CopyAll(old(Abs()), elems, found, stack) == Prepend(vs, CopyAll(Abs(), elems[i..], found, stack))
      {
        var w;
        w, status := CloneSlot(elems[i], found, stack);
        if status != Fine {
          return;
        }
        assert elems[i..][1..] == elems[i + 1..];
        vs, i := vs + [w], i + 1;
      }
    }
  }

  function Prepend(vs: seq<Slot>, r: Outcomes): Outcomes {
    match r
    case AllDone(s, ws) => AllDone(s, vs + ws)
    case Aborted(why) => r
  }
}
