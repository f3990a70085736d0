/**
  Iterators that record a position beyond the end of the data (libhilti/bytes.c): what becomes of it when data arrives.
*/
module ByteBeyond {
  import opened ByteStream

  // __hlt_iterator_bytes_incr_by, moving beyond the end. There, the source does not take off what it has crossed
  // in the last chunk.
  method IncrBeyond(p: Iter, count: nat, ghost s: Stream) returns (r: Iter)
    requires Valid(s) && Normal(s, p) && p.bytes != null
    ensures r.bytes != null && 0 <= First(s) <= Pos(s, p) <= |s.hist|
    ensures Pos(s, p) == |s.hist| || count == 0 ==> r == p
    ensures Pos(s, p) + count < |s.hist| ==> Normal(s, r) && Pos(s, r) == Pos(s, p) + count
    ensures Pos(s, p) < |s.hist| <= Pos(s, p) + count ==>
      r.bytes == Tail(s) && Pos(s, r) > Pos(s, p) + count
  {
    r := p;
    var end := IsEnd(p, s);
    NormalInRange(s, p);
    if end || count == 0 {
      return;
    }
    var n := count;
    while true
      invariant r.bytes != null && Normal(s, r) && n >= 0 && r.cur < |r.bytes.data|
      invariant Pos(s, r) + n == Pos(s, p) + count
      decreases |s.all| - r.bytes.id
    {
      Walked(s, r.bytes);
      Fields(s, r.bytes);
      if r.cur + n < |r.bytes.data| {
        NormalInRange(s, Iter(r.bytes, r.cur + n));
        return Iter(r.bytes, r.cur + n);
      }
      if r.bytes.next == null {
        return Iter(r.bytes, |r.bytes.data| + n);
      }
      n := n - (|r.bytes.data| - r.cur);
      Walked(s, r.bytes.next);
      r := Iter(r.bytes.next, r.bytes.next.start);
    }
  }

  // An iterator beyond the end of its chunk, as hlt_bytes_offset makes it
  ghost predicate Recorded(s: Stream, pos: Iter) {
    pos.bytes != null && pos.cur > |pos.bytes.data| && InRange(s, Iter(pos.bytes, |pos.bytes.data|))
  }

  // __normalize_iter, of such an iterator: it keeps its position as long as no data arrives, and once there is so
  // much that the position holds some, when it denotes the byte there. In between, it is moved too far.
  method NormalizeRecorded(pos: Iter, ghost s: Stream) returns (r: Iter)
    requires Valid(s) && Recorded(s, pos)
    ensures r.bytes != null && (Pos(s, r) == Pos(s, pos) <==> pos.bytes == Tail(s) || Pos(s, pos) < |s.hist|)
    ensures pos.bytes == Tail(s) ==> r == pos
    ensures pos.bytes != Tail(s) && Pos(s, pos) < |s.hist| ==> Normal(s, r)
  {
    r := pos;
    Fields(s, pos.bytes);
    if pos.bytes.next == null {
      return;
    }
    StepPreservesPos(s, Iter(pos.bytes, |pos.bytes.data|));
    Fields(s, pos.bytes.next);
    // The rest of the loop, which has nothing more to add up.
    var q := NormalizeIter(Iter(pos.bytes.next, pos.bytes.next.start), s);
    r := IncrBeyond(q, pos.cur - |pos.bytes.data|, s);
  }
}
