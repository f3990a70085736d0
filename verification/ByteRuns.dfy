/**
  Runs of operations on a bytes object (libhilti/bytes.c): any appends, trims and freezes, one after the other, and
  what a user sees of an iterator taken before.
*/
module ByteRuns {
  import opened Wrappers
  import opened ByteStream

  // Trim(to) is what a user does who has the iterator at absolute position `to`. Trimming to what is gone already is
  // left out: libhilti/bytes.h does not define it.
  method PerformOne(b: Chunk, op: Op, ghost s: Stream) returns (ghost s': Stream)
    requires Valid(s) && Head(s, b) && NoneDeleted(Tail(s).marks)
    modifies s.all
    ensures Valid(s') && Head(s', b) && NoneDeleted(Tail(s').marks)
    ensures Extends(s, s') && Abs(s') == Step(Abs(s), op)
    ensures forall c | c in s'.all && c !in s.all :: fresh(c)
  {
    hide Valid, WellFormed;
    match op {
      case Append(data) =>
        var r;
        r, s' := AppendRaw(b, data, s);
      case Trim(to) =>
        s' := s;
        var p := Begin(b, s);
        InRangeOf(s, p);
        var first := Index(p, s);
        if first <= to {
          p := IncrBy(p, to - first, s);
          InRangeOf(s, p);
          var r;
          r, s' := TrimTo(b, p, s);
        }
      case Freeze(on) =>
        s' := SetFrozen(b, on, s);
    }
  }

  lemma InRangeOf(s: Stream, p: Iter)
    requires Valid(s) && Normal(s, p)
    ensures InRange(s, p)
  {
    NormalInRange(s, p);
  }

  // Over every run, the object stands for what the run makes of the abstract one.
  method PerformAll(b: Chunk, ops: seq<Op>, ghost s: Stream) returns (ghost s': Stream)
    requires Valid(s) && Head(s, b) && NoneDeleted(Tail(s).marks)
    modifies s.all
    ensures Valid(s') && Head(s', b) && NoneDeleted(Tail(s').marks)
    ensures Extends(s, s') && Abs(s') == Run(Abs(s), ops)
    ensures forall c | c in s'.all && c !in s.all :: fresh(c)
    decreases |ops|
  {
    hide Valid, Step;
    s' := s;
    if ops != [] {
      s' := PerformOne(b, ops[0], s);
      assert forall i | 0 <= i < |s'.all| :: s'.all[i] in s.all || fresh(s'.all[i]);
      s' := PerformAll(b, ops[1..], s');
    }
  }

  // The index an iterator shows and the byte it gives: hlt_iterator_bytes_index and hlt_iterator_bytes_deref
  method Look(it: Iter, ghost s: Stream) returns (index: int, byte: Result<Byte, Problem>)
    requires Valid(s) && InRange(s, it) && it.bytes != null
    ensures 0 <= Pos(s, it) <= |s.hist| && index == Pos(s, it)
    ensures byte == if Pos(s, it) == |s.hist| then Err(ValueError) else Ok(s.hist[Pos(s, it)])
  {
    index := Index(it, s);
    var p := NormalizeIter(it, s);
    byte := Deref(p, s);
  }

  // Whatever is appended, trimmed and frozen, the content is what it was and what was appended, from the furthest
  // position on that it was trimmed to; and an iterator that nothing was trimmed past shows the same index as before,
  // and the same byte, where an end iterator shows the first byte that was appended.
  method Perform(b: Chunk, ops: seq<Op>, it: Iter, ghost s: Stream)
    returns (before: (int, Result<Byte, Problem>), after: (int, Result<Byte, Problem>), ghost s': Stream)
    requires Valid(s) && Head(s, b) && NoneDeleted(Tail(s).marks) && InRange(s, it) && it.bytes != null
    requires forall to | to in Targets(|s.hist|, s.frozen, ops) :: to <= Pos(s, it)
    modifies s.all
    ensures Valid(s') && Head(s', b) && NoneDeleted(Tail(s').marks) && InRange(s', it)
    ensures 0 <= First(s) <= First(s') <= |s'.hist| && First(s) <= |s.hist|
    ensures First(s') in {First(s)} + Targets(|s.hist|, s.frozen, ops)
    ensures forall to | to in Targets(|s.hist|, s.frozen, ops) :: to <= First(s')
    ensures First(s') - First(s) <= |Content(s) + Added(s.frozen, ops)|
    ensures Content(s') == (Content(s) + Added(s.frozen, ops))[First(s') - First(s)..]
    ensures after.0 == before.0 == Pos(s, it)
    ensures before.1.Ok? ==> after.1 == before.1
    ensures before.1 == Err(ValueError) ==>
      after.1 == if Added(s.frozen, ops) == [] then Err(ValueError) else Ok(Added(s.frozen, ops)[0])
  {
    hide Valid, WellFormed, Added, Run, Targets;
    var i, x := Look(it, s);
    Snapshot(s);
    FirstInBounds(s);
    s' := PerformAll(b, ops, s);
    Snapshot(s');
    RunKeepsPositions(Abs(s), ops);
    RunContent(Abs(s), ops);
    IterSurvives(s, s', it);
    var j, y := Look(it, s');
    before, after := (i, x), (j, y);
  }
}
