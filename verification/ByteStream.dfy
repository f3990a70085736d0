/**
  The chunk chain behind HILTI's `bytes` type (libhilti/bytes.c): chunks are heap objects linked through
  `next`, an object of type `bytes` is its first chunk, and iterators are (chunk, pointer) pairs that keep
  working while data is appended at the end and trimmed away at the front.

  Everything is stated in one coordinate system: the absolute position of a byte in the history of all bytes
  ever appended. `Valid` ties the chain to that history; it is what appending and trimming preserve.
*/
module ByteStream {
  import opened Wrappers

  type Byte = x: int | -128 <= x < 128  // int8_t

  datatype Problem = ValueError | WouldBlock

  class Chunk {
    const data: seq<Byte>   // the chunk's memory; the source never changes bytes already stored
    var start: nat          // index of the first live byte; `end` is always |data|
    var offset: int
    var next: Chunk?
    var frozen: bool
    var marks: seq<int>     // the array of mark offsets, without the terminating -1; deleted marks are -2
    ghost const id: nat     // position of the chunk among all chunks ever linked into its stream
    ghost const base: nat   // absolute position of data[0]

    constructor (data: seq<Byte>, ghost id: nat, ghost base: nat)
      ensures this.data == data && this.id == id && this.base == base
      ensures start == 0 && offset == 0 && next == null && !frozen && marks == []
    {
      this.data := data;
      this.id, this.base := id, base;
      start, offset, next, frozen, marks := 0, 0, null, false, [];
    }
  }

  function Min(a: int, b: int): int {
    if a < b then a else b
  }

  // A null chunk is the generic end position.
  datatype Iter = Iter(bytes: Chunk?, cur: int)

  // The ghost snapshot of one bytes object: all chunks ever linked into it, where each one's live bytes start,
  // the index of the first chunk still linked after the head, every byte ever appended, and the frozen flag.
  datatype Stream = Stream(all: seq<Chunk>, starts: seq<nat>, cut: nat, hist: seq<Byte>, frozen: bool)

  // ----- The invariant

  // Everything the snapshot says about itself.
  ghost predicate WellFormed(s: Stream) {
    && 1 <= s.cut <= |s.all| == |s.starts|
    && s.all[0].base == 0
    && (forall i | 0 <= i < |s.all| :: Tile(s, i))
    && (forall i | 0 <= i < |s.all| :: Stored(s, i))
    && (forall i, j | 0 <= i < j < |s.all| :: Apart(s, i, j))
    && Tail(s).base + |Tail(s).data| == |s.hist|
    && Trimmed(s)
  }

  // Only the head may hold no memory, and chunks behind the cut that follow the first one are untrimmed.
  ghost predicate Tile(s: Stream, i: nat)
    requires i < |s.all| == |s.starts|
  {
    var c := s.all[i];
    && c.id == i
    && (i > 0 ==> c.data != [])
    && s.starts[i] <= |c.data|
    && (s.cut < i ==> s.starts[i] == 0)
    && c.base + |c.data| <= |s.hist|
  }

  ghost predicate Stored(s: Stream, i: nat)
    requires i < |s.all|
  {
    SliceAt(s.all[i].data, s.hist, s.all[i].base)
  }

  // x is the slice of h that begins at i.
  ghost predicate SliceAt(x: seq<Byte>, h: seq<Byte>, i: int) {
    0 <= i && i + |x| <= |h| && forall k | 0 <= k < |x| :: x[k] == h[i + k]
  }

  lemma SliceAtIs(x: seq<Byte>, h: seq<Byte>, i: int)
    ensures SliceAt(x, h, i) <==> 0 <= i && i + |x| <= |h| && x == h[i..i + |x|]
  {
  }

  // The chunks tile the history in order.
  ghost predicate Apart(s: Stream, i: nat, j: nat)
    requires i < j < |s.all|
  {
    && s.all[i].base + |s.all[i].data| <= s.all[j].base
    && (j == i + 1 ==> s.all[j].base == s.all[i].base + |s.all[i].data|)
  }

  // Trimming empties the head before it cuts into a later chunk, and never removes the last byte.
  ghost predicate Trimmed(s: Stream)
    requires 1 <= s.cut <= |s.all| == |s.starts|
  {
    if s.cut < |s.all| then
      && s.starts[s.cut] < |s.all[s.cut].data|
      && (s.cut > 1 || s.starts[s.cut] > 0 ==> s.starts[0] == |s.all[0].data|)
    else
      s.cut == 1 && (s.all[0].data != [] ==> s.starts[0] < |s.all[0].data|)
  }

  ghost function Tail(s: Stream): Chunk
    requires |s.all| > 0
  {
    s.all[|s.all| - 1]
  }

  // The heap agrees with the snapshot. Chunks 1..cut-1 are no longer reachable from the head, but iterators may
  // still hold them, and their links remain intact.
  ghost predicate Valid(s: Stream)
    reads s.all
  {
    WellFormed(s) && forall i | 0 <= i < |s.all| :: InSync(s, i)
  }

  // For proofs that hide what Valid says about the heap.
  lemma Snapshot(s: Stream)
    requires Valid(s)
    ensures WellFormed(s)
  {
  }

  ghost predicate InSync(s: Stream, i: nat)
    requires i < |s.all| == |s.starts|
    reads s.all
  {
    var c := s.all[i];
    && c.start == s.starts[i]
    && c.offset == c.base + c.start
    && c.next == (if NextId(s, i) < |s.all| then s.all[NextId(s, i)] else null)
    && (i == 0 || s.cut <= i ==> c.frozen == s.frozen)
  }

  ghost function NextId(s: Stream, i: nat): nat {
    if i == 0 then s.cut else i + 1
  }

  // The absolute position of the first byte that has not been trimmed away.
  ghost function First(s: Stream): int
    requires |s.all| == |s.starts| > 0
  {
    if s.cut < |s.all| && s.starts[0] == |s.all[0].data| then s.all[s.cut].base + s.starts[s.cut]
    else s.all[0].base + s.starts[0]
  }

  // The bytes a user sees.
  ghost function Content(s: Stream): seq<Byte>
    requires |s.all| == |s.starts| > 0 && 0 <= First(s) <= |s.hist|
  {
    s.hist[First(s)..]
  }

  ghost predicate Member(s: Stream, c: Chunk) {
    c.id < |s.all| == |s.starts| && s.all[c.id] == c
  }

  ghost predicate Live(s: Stream, c: Chunk) {
    Member(s, c) && (c.id == 0 || s.cut <= c.id)
  }

  ghost predicate Head(s: Stream, c: Chunk) {
    Member(s, c) && c.id == 0
  }

  // The absolute position an iterator denotes. It does not depend on the heap: no operation moves it.
  ghost function Pos(s: Stream, it: Iter): int {
    if it.bytes == null then |s.hist| else it.bytes.base + it.cur
  }

  // An iterator into memory of the stream, at or after the first live byte and at most at the end. It may sit
  // at the end of a chunk that meanwhile has a successor, or in a chunk that has been cut off.
  ghost predicate InRange(s: Stream, it: Iter) {
    it.bytes != null ==> Member(s, it.bytes) && 0 <= it.cur <= |it.bytes.data| && First(s) <= Pos(s, it)
  }

  // The unique representation of a position: inside a live chunk, or at the end of the last one.
  ghost predicate Normal(s: Stream, it: Iter) {
    it.bytes != null ==>
      && Live(s, it.bytes)
      && s.starts[it.bytes.id] <= it.cur <= |it.bytes.data|
      && (it.cur == |it.bytes.data| ==> it.bytes == Tail(s))
  }

  // The absolute position where a chunk's live bytes begin; past the last chunk, the end.
  ghost function From(s: Stream, c: Chunk?): int
    requires c != null ==> Member(s, c)
  {
    if c == null then |s.hist| else if s.starts[c.id] < |c.data| then c.base + s.starts[c.id] else First(s)
  }

  // ----- Consequences within the snapshot

  lemma FirstInBounds(s: Stream)
    requires WellFormed(s)
    ensures 0 <= First(s) <= |s.hist|
    ensures s.hist != [] ==> First(s) < |s.hist|
    ensures s.cut < |s.all| ==> First(s) <= s.all[s.cut].base + s.starts[s.cut]
  {
    assert Tile(s, 0);
    if s.cut < |s.all| {
      assert Tile(s, s.cut) && Apart(s, 0, s.cut);
    }
  }

  lemma Ordered(s: Stream, i: nat, j: nat)
    requires WellFormed(s) && i < |s.all| && j < |s.all|
    ensures i < j ==> s.all[i].base + |s.all[i].data| <= s.all[j].base
    ensures j < i ==> s.all[j].base + |s.all[j].data| <= s.all[i].base
  {
    assert i < j ==> Apart(s, i, j);
    assert j < i ==> Apart(s, j, i);
  }

  lemma NormalInRange(s: Stream, it: Iter)
    requires WellFormed(s) && Normal(s, it)
    ensures InRange(s, it)
    ensures 0 <= First(s) <= Pos(s, it) <= |s.hist|
    ensures it.bytes != null && it.cur < |it.bytes.data| ==>
      Pos(s, it) < |s.hist| && s.hist[Pos(s, it)] == it.bytes.data[it.cur]
    ensures it.bytes != null && it.cur == |it.bytes.data| ==> Pos(s, it) == |s.hist|
  {
    FirstInBounds(s);
    if it.bytes != null {
      var i := it.bytes.id;
      assert Tile(s, i) && Stored(s, i);
      Ordered(s, 0, i);
      if s.cut < |s.all| {
        assert Tile(s, s.cut) && Apart(s, 0, s.cut);
        Ordered(s, s.cut, i);
      }
    }
  }

  lemma InRangeBounds(s: Stream, it: Iter)
    requires WellFormed(s) && InRange(s, it)
    ensures 0 <= First(s) <= Pos(s, it) <= |s.hist|
  {
    FirstInBounds(s);
    if it.bytes != null {
      assert Tile(s, it.bytes.id);
    }
  }

  // Positions have exactly one normal representation (apart from the generic end).
  lemma NormalUnique(s: Stream, a: Iter, b: Iter)
    requires WellFormed(s) && Normal(s, a) && Normal(s, b) && a.bytes != null && b.bytes != null
    ensures Pos(s, a) == Pos(s, b) <==> a == b
  {
    NormalInRange(s, a);
    NormalInRange(s, b);
    Ordered(s, a.bytes.id, b.bytes.id);
  }

  // In range and not at the end of a chunk with a successor means in normal form.
  lemma InRangeSettled(s: Stream, p: Iter)
    requires WellFormed(s) && InRange(s, p) && p.bytes != null
    ensures p.cur < |p.bytes.data| || p.bytes.id == |s.all| - 1 ==> Normal(s, p)
  {
    var i := p.bytes.id;
    assert Tile(s, i) && Tile(s, 0);
    if s.cut < |s.all| {
      assert Tile(s, s.cut) && Apart(s, 0, s.cut);
      Ordered(s, i, s.cut);
    }
  }

  lemma InSomeRange(s: Stream, p: Iter)
    requires WellFormed(s) && (Normal(s, p) || InRange(s, p))
    ensures 0 <= First(s) <= Pos(s, p) <= |s.hist|
    ensures Normal(s, p) && p.bytes != null ==>
      (Pos(s, p) == |s.hist| <==> p.bytes == Tail(s) && p.cur == |p.bytes.data|)
    ensures !Normal(s, p) ==> p.bytes != null && p.bytes != Tail(s)
  {
    if Normal(s, p) {
      NormalInRange(s, p);
    } else {
      InRangeBounds(s, p);
      InRangeSettled(s, p);
      assert Tile(s, |s.all| - 1);
    }
  }

  // Moving from the end of a chunk to the first live byte of its successor does not change the position.
  lemma StepPreservesPos(s: Stream, p: Iter)
    requires WellFormed(s) && InRange(s, p) && p.bytes != null && p.cur == |p.bytes.data|
    requires NextId(s, p.bytes.id) < |s.all|
    ensures var n := NextId(s, p.bytes.id); var d := s.all[n];
      && p.bytes.id < n == d.id
      && d.base + s.starts[n] == p.bytes.base + |p.bytes.data|
      && InRange(s, Iter(d, s.starts[n]))
  {
    var i, n := p.bytes.id, NextId(s, p.bytes.id);
    assert Tile(s, i) && Tile(s, n) && Tile(s, 0) && Apart(s, i, n);
    assert s.cut < |s.all| && Tile(s, s.cut) && Apart(s, 0, s.cut);
    Ordered(s, n, s.cut);
  }

  // A piece of a chunk's memory is the corresponding slice of the history, and adjacent slices join.
  lemma Piece(s: Stream, c: Chunk, from: nat, to: nat, x: seq<Byte>, i: int)
    requires WellFormed(s) && Member(s, c) && from <= to <= |c.data|
    requires SliceAt(x, s.hist, i) && (from < to ==> i + |x| == c.base + from)
    ensures SliceAt(x + c.data[from..to], s.hist, i)
  {
    assert Stored(s, c.id);
    var y := x + c.data[from..to];
    forall k | 0 <= k < |y|
      ensures y[k] == s.hist[i + k]
    {
      if k >= |x| {
        assert y[k] == c.data[from + k - |x|];
      }
    }
  }

  // Earlier positions are in earlier chunks.
  lemma ChunkOrder(s: Stream, p1: Iter, p2: Iter)
    requires WellFormed(s) && Normal(s, p1) && Normal(s, p2) && p1.bytes != null && p2.bytes != null
    requires Pos(s, p1) <= Pos(s, p2)
    ensures p1.bytes.id <= p2.bytes.id
    ensures p1.bytes != p2.bytes ==>
      p1.cur < |p1.bytes.data| && NextId(s, p1.bytes.id) <= p2.bytes.id && ChunkEnd(p1) <= Pos(s, p2)
  {
    NormalInRange(s, p1);
    NormalInRange(s, p2);
    Ordered(s, p1.bytes.id, p2.bytes.id);
  }

  ghost function ChunkEnd(i: Iter): int
    requires i.bytes != null
  {
    i.bytes.base + |i.bytes.data|
  }

  // ----- What the fields of a chunk say

  lemma Fields(s: Stream, c: Chunk)
    requires Valid(s) && Member(s, c)
    ensures c.start == s.starts[c.id] <= |c.data|
    ensures c.offset == c.base + c.start
    ensures c.base + |c.data| <= |s.hist|
    ensures c == Tail(s) <==> c.id == |s.all| - 1
    ensures c == s.all[0] <==> c.id == 0
    ensures c.next == null <==> c == Tail(s)
    ensures c.next == null <==> NextId(s, c.id) >= |s.all|
    ensures c.next == null ==> c.base + |c.data| == |s.hist|
    ensures c.next != null ==> Member(s, c.next) && c.id < c.next.id == NextId(s, c.id)
    ensures c.next != null && Live(s, c) ==> Live(s, c.next)
    ensures Live(s, c) ==> c.frozen == s.frozen
  {
    assert InSync(s, c.id) && Tile(s, c.id) && Tile(s, |s.all| - 1) && Tile(s, 0);
    if c.next != null {
      assert Tile(s, NextId(s, c.id));
    }
  }

  // One step of a walk along the chain: a chunk holds exactly the bytes up to where its successor begins.
  lemma Walked(s: Stream, c: Chunk)
    requires Valid(s) && Live(s, c)
    ensures c.start == s.starts[c.id] <= |c.data|
    ensures c.next != null ==>
      Live(s, c.next) && c.id < c.next.id == NextId(s, c.id) && c.next.start == s.starts[c.next.id] < |c.next.data|
    ensures 0 <= First(s) <= From(s, c) <= From(s, c.next) <= |s.hist|
    ensures From(s, c.next) - From(s, c) == |c.data| - c.start
    ensures c.start < |c.data| ==> From(s, c) == c.base + c.start
    ensures c == Tail(s) <==> c.next == null
    ensures c.id == 0 ==> From(s, c) == First(s)
  {
    Fields(s, c);
    FirstInBounds(s);
    assert Tile(s, c.id) && Tile(s, 0);
    if c.next != null {
      Fields(s, c.next);
      assert Tile(s, c.next.id) && Apart(s, c.id, c.next.id);
    }
    if c.id > 0 {
      assert Tile(s, s.cut);
      Ordered(s, 0, c.id);
      Ordered(s, s.cut, c.id);
    }
  }

  // ----- Reading

  // __tail
  method TailOf(b: Chunk, ghost s: Stream) returns (t: Chunk)
    requires Valid(s) && Member(s, b)
    ensures t == Tail(s) && Member(s, t) && t.id == |s.all| - 1
  {
    t := b;
    Fields(s, t);
    while t.next != null
      invariant Member(s, t)
      decreases |s.all| - t.id
    {
      Fields(s, t);
      t := t.next;
    }
    Fields(s, t);
  }

  // __is_end. An old end iterator, at the end of a chunk that meanwhile has a successor, is not recognised.
  method IsEnd(p: Iter, ghost s: Stream) returns (r: bool)
    requires Valid(s) && (Normal(s, p) || InRange(s, p))
    ensures Normal(s, p) ==> (r <==> Pos(s, p) == |s.hist|)
    ensures !Normal(s, p) ==> !r
    ensures 0 <= First(s) <= Pos(s, p) <= |s.hist|
  {
    InSomeRange(s, p);
    if p.bytes == null {
      return true;
    }
    var t := TailOf(p.bytes, s);
    return p.bytes == t && p.cur >= |p.bytes.data|;
  }

  // __is_empty
  method IsEmpty(b: Chunk, ghost s: Stream) returns (r: bool)
    requires Valid(s) && Head(s, b)
    ensures r <==> First(s) == |s.hist|
    ensures 0 <= First(s) <= |s.hist|
  {
    FirstInBounds(s);
    var c: Chunk? := b;
    Walked(s, b);
    while c != null
      invariant c != null ==> Live(s, c) && (c != b ==> c.start < |c.data|)
      invariant From(s, c) == First(s)
      decreases if c == null then 0 else |s.all| - c.id
    {
      Walked(s, c);
      if c.start != |c.data| {
        return false;
      }
      c := c.next;
    }
    return true;
  }

  // __normalize_iter. A position at the end of a chunk that meanwhile has a successor moves to the first live
  // byte of that successor; everything else stays where it is.
  method NormalizeIter(pos: Iter, ghost s: Stream) returns (r: Iter)
    requires Valid(s) && InRange(s, pos)
    ensures Normal(s, r) && Pos(s, r) == Pos(s, pos)
    ensures r.bytes == null <==> pos.bytes == null
    ensures Normal(s, pos) ==> r == pos
  {
    r := pos;
    if r.bytes == null {
      return;
    }
    Fields(s, r.bytes);
    while r.cur >= |r.bytes.data| && r.bytes.next != null
      invariant r.bytes != null && InRange(s, r) && Pos(s, r) == Pos(s, pos)
      invariant Normal(s, pos) ==> r == pos
      decreases |s.all| - r.bytes.id
    {
      Fields(s, r.bytes);
      StepPreservesPos(s, r);
      Fields(s, r.bytes.next);
      r := Iter(r.bytes.next, r.bytes.next.start);
    }
    Fields(s, r.bytes);
    InRangeSettled(s, r);
  }

  // hlt_bytes_begin
  method Begin(b: Chunk, ghost s: Stream) returns (p: Iter)
    requires Valid(s) && Head(s, b)
    ensures p.bytes != null && Normal(s, p) && Pos(s, p) == First(s) && 0 <= First(s) <= |s.hist|
  {
    var empty := IsEmpty(b, s);
    if empty {
      p := End(b, s);
      return;
    }
    Walked(s, b);
    p := Iter(b, b.start);
    if b.start == |b.data| {
      // The loop of __normalize_iter, entered with an empty head.
      p := Iter(b.next, b.next.start);
      Walked(s, b.next);
    }
  }

  // hlt_bytes_end, from any chunk of the chain
  method End(b: Chunk, ghost s: Stream) returns (p: Iter)
    requires Valid(s) && Member(s, b)
    ensures p.bytes != null && Normal(s, p) && Pos(s, p) == |s.hist|
  {
    var t := TailOf(b, s);
    Fields(s, t);
    p := Iter(t, |t.data|);
  }

  // __hlt_iterator_bytes_incr
  method Incr(p: Iter, ghost s: Stream) returns (r: Iter)
    requires Valid(s) && Normal(s, p)
    ensures Normal(s, r) && (r.bytes == null <==> p.bytes == null)
    ensures 0 <= Pos(s, p) <= |s.hist|
    ensures Pos(s, r) == if Pos(s, p) < |s.hist| then Pos(s, p) + 1 else Pos(s, p)
  {
    var end := IsEnd(p, s);
    if end {
      return p;
    }
    Walked(s, p.bytes);
    Fields(s, p.bytes);
    if p.cur + 1 < |p.bytes.data| {
      return Iter(p.bytes, p.cur + 1);
    }
    if p.bytes.next == null {
      return Iter(p.bytes, |p.bytes.data|);
    }
    Walked(s, p.bytes.next);
    return Iter(p.bytes.next, p.bytes.next.start);
  }

  // __hlt_iterator_bytes_incr_by, without moving beyond the end
  method IncrBy(p: Iter, count: nat, ghost s: Stream) returns (r: Iter)
    requires Valid(s) && Normal(s, p)
    ensures Normal(s, r) && (r.bytes == null <==> p.bytes == null)
    ensures Pos(s, r) == if Pos(s, p) + count <= |s.hist| then Pos(s, p) + count else |s.hist|
  {
    r := p;
    var end := IsEnd(p, s);
    if end || count == 0 {
      return;
    }
    var n := count;
    while true
      invariant r.bytes != null && Normal(s, r) && n >= 0
      invariant Pos(s, r) + n == Pos(s, p) + count
      invariant r.cur < |r.bytes.data|
      decreases |s.all| - r.bytes.id
    {
      Walked(s, r.bytes);
      Fields(s, r.bytes);
      if r.cur + n < |r.bytes.data| {
        NormalInRange(s, Iter(r.bytes, r.cur + n));
        return Iter(r.bytes, r.cur + n);
      }
      if r.bytes.next == null {
        return Iter(r.bytes, |r.bytes.data|);
      }
      n := n - (|r.bytes.data| - r.cur);
      Walked(s, r.bytes.next);
      r := Iter(r.bytes.next, r.bytes.next.start);
    }
  }

  // *p.cur, for a position before the end
  method Peek(p: Iter, ghost s: Stream) returns (r: Byte)
    requires Valid(s) && Normal(s, p) && p.bytes != null && Pos(s, p) < |s.hist|
    ensures 0 <= Pos(s, p) && r == s.hist[Pos(s, p)]
  {
    NormalInRange(s, p);
    r := p.bytes.data[p.cur];
  }

  // __hlt_iterator_bytes_deref
  method Deref(p: Iter, ghost s: Stream) returns (r: Result<Byte, Problem>)
    requires Valid(s) && Normal(s, p)
    ensures 0 <= First(s) <= Pos(s, p) <= |s.hist|
    ensures r == if Pos(s, p) == |s.hist| then Err(ValueError) else Ok(s.hist[Pos(s, p)])
  {
    var end := IsEnd(p, s);
    if end {
      return Err(ValueError);
    }
    NormalInRange(s, p);
    return Ok(p.bytes.data[p.cur]);
  }

  // __hlt_iterator_bytes_eq
  method Eq(p1: Iter, p2: Iter, ghost s: Stream) returns (r: bool)
    requires Valid(s) && Normal(s, p1) && Normal(s, p2)
    ensures r <==> Pos(s, p1) == Pos(s, p2)
  {
    var end1 := IsEnd(p1, s);
    var end2 := IsEnd(p2, s);
    if end1 && end2 {
      return true;
    }
    if p1.bytes != null && p2.bytes != null {
      NormalUnique(s, p1, p2);
    }
    return p1.bytes == p2.bytes && p1.cur == p2.cur;
  }

  // __hlt_bytes_len, from any live chunk
  method Len(b: Chunk, ghost s: Stream) returns (n: nat)
    requires Valid(s) && Live(s, b)
    ensures n == |s.hist| - From(s, b)
  {
    n := 0;
    var c: Chunk? := b;
    Walked(s, b);
    while c != null
      invariant c != null ==> Live(s, c)
      invariant n == From(s, c) - From(s, b)
      decreases if c == null then 0 else |s.all| - c.id
    {
      Walked(s, c);
      n := n + (|c.data| - c.start);
      c := c.next;
    }
  }

  // hlt_iterator_bytes_index: for every iterator in range, however old, its absolute position.
  method Index(i: Iter, ghost s: Stream) returns (r: int)
    requires Valid(s) && InRange(s, i)
    ensures r == if i.bytes == null then -1 else Pos(s, i)
  {
    var p := NormalizeIter(i, s);
    if p.bytes == null {
      return -1;
    }
    Fields(s, p.bytes);
    return p.bytes.offset + (Min(p.cur, |p.bytes.data|) - p.bytes.start);
  }

  // __hlt_iterator_bytes_diff
  method Diff(p1: Iter, p2: Iter, ghost s: Stream) returns (n: nat)
    requires Valid(s) && Normal(s, p1) && Normal(s, p2)
    ensures n == if Pos(s, p1) <= Pos(s, p2) then Pos(s, p2) - Pos(s, p1) else 0
  {
    NormalInRange(s, p1);
    NormalInRange(s, p2);
    var end1 := IsEnd(p1, s);
    if end1 {
      return 0;
    }
    var end2 := IsEnd(p2, s);
    if end2 {
      var len := Len(p1.bytes, s);
      Walked(s, p1.bytes);
      return len - (Min(p1.cur, |p1.bytes.data|) - p1.bytes.start);
    }
    var i2 := Index(p2, s);
    var i1 := Index(p1, s);
    return if i2 - i1 > 0 then i2 - i1 else 0;
  }

  // hlt_bytes_offset: position p counted from the first live byte, or from the end if negative. A position
  // beyond the end yields an iterator that records the missing bytes past the last chunk's end.
  method Offset(b: Chunk, at: int, ghost s: Stream) returns (i: Iter)
    requires Valid(s) && Head(s, b)
    ensures i.bytes != null && 0 <= First(s) <= |s.hist|
    ensures var p := if at < 0 then at + (|s.hist| - First(s)) else at;
      if p < 0 then Normal(s, i) && Pos(s, i) == |s.hist|
      else Pos(s, i) == First(s) + p && if First(s) + p <= |s.hist| then Normal(s, i) else i.bytes == Tail(s)
  {
    FirstInBounds(s);
    if at == 0 {
      i := Begin(b, s);
      return;
    }
    var p := at;
    if p < 0 {
      var len := Len(b, s);
      Walked(s, b);
      p := p + len;
    }
    if p < 0 {
      i := End(b, s);
      return;
    }
    i := Walk(b, p, s);
  }

  // The loop of hlt_bytes_offset.
  method Walk(b: Chunk, at: nat, ghost s: Stream) returns (i: Iter)
    requires Valid(s) && Head(s, b)
    ensures i.bytes != null
    ensures Pos(s, i) == First(s) + at
    ensures if Pos(s, i) <= |s.hist| then Normal(s, i) else i.bytes == Tail(s)
  {
    var p := at;
    var c: Chunk? := b;
    Walked(s, b);
    while c != null && p >= |c.data| - c.start
      invariant p >= 0
      invariant c != null ==> Live(s, c)
      invariant From(s, c) + p == First(s) + at
      decreases if c == null then 0 else |s.all| - c.id
    {
      Walked(s, c);
      p := p - (|c.data| - c.start);
      c := c.next;
    }
    if c == null {
      var t := TailOf(b, s);
      Fields(s, t);
      return Iter(t, |t.data| + p);
    }
    Walked(s, c);
    NormalInRange(s, Iter(c, c.start + p));
    return Iter(c, c.start + p);
  }

  // ----- Writing

  ghost predicate NoneDeleted(marks: seq<int>) {
    forall i | 0 <= i < |marks| :: marks[i] >= 0
  }

  // Marks at or beyond the end of a chunk's data, relative to the end.
  function Moved(marks: seq<int>, len: int): (r: seq<int>)
    ensures NoneDeleted(r)
  {
    if marks == [] then []
    else (if marks[0] >= len then [marks[0] - len] else []) + Moved(marks[1..], len)
  }

  // The same marks deleted, as the source does it.
  function Kept(marks: seq<int>, len: int): (r: seq<int>)
    ensures |r| == |marks|
    ensures forall i | 0 <= i < |r| :: r[i] == if marks[i] >= len then -2 else marks[i]
  {
    seq(|marks|, i requires 0 <= i < |marks| => if marks[i] >= len then -2 else marks[i])
  }

  // __hlt_bytes_append_mark on the last chunk: space is reserved after the leading non-negative marks.
  method AppendMarkTo(tail: Chunk, mark: int)
    requires NoneDeleted(tail.marks)
    modifies tail`marks
    ensures tail.marks == old(tail.marks) + [if mark >= 0 then mark else |tail.data| - tail.start]
  {
    var len := 0;
    while len < |tail.marks| && tail.marks[len] >= 0
      invariant 0 <= len <= |tail.marks|
    {
      len := len + 1;
    }
    assert tail.marks[..len] == tail.marks;
    tail.marks := tail.marks[..len] + [if mark >= 0 then mark else |tail.data| - tail.start];
  }

  // The second half of __add_chunk: marks at the end of the old last chunk now belong to the new one.
  method MoveMarks(tail: Chunk, c: Chunk)
    requires tail != c && NoneDeleted(c.marks)
    modifies tail`marks, c`marks
    ensures tail.marks == Kept(old(tail.marks), |tail.data| - tail.start)
    ensures c.marks == old(c.marks) + Moved(old(tail.marks), |tail.data| - tail.start)
  {
    var i := 0;
    ghost var len := |tail.data| - tail.start;
    ghost var marks := tail.marks;
    assert marks[0..] == marks;
    while i < |tail.marks|
      invariant 0 <= i <= |tail.marks| == |marks|
      invariant forall j | 0 <= j < |marks| :: tail.marks[j] == if j < i && marks[j] >= len then -2 else marks[j]
      invariant NoneDeleted(c.marks)
      invariant c.marks + Moved(marks[i..], len) == old(c.marks) + Moved(marks, len)
    {
      var p := tail.marks[i];
      assert marks[i..][1..] == marks[i + 1..];
      if p >= |tail.data| - tail.start {
        AppendMarkTo(c, p - (|tail.data| - tail.start));
        tail.marks := tail.marks[i := -2];
      }
      i := i + 1;
    }
  }

  // __add_chunk
  method AddChunk(tail: Chunk, c: Chunk, ghost s: Stream) returns (ghost s': Stream)
    requires Valid(s) && tail == Tail(s) && !s.frozen
    requires c !in s.all && c.id == |s.all| && c.base == |s.hist| && c.data != []
    requires c.next == null && c.start == 0 && !c.frozen && NoneDeleted(c.marks)
    modifies tail`next, tail`marks, c`offset, c`marks
    ensures s' == Appended(s, c) && Valid(s') && First(s') == First(s)
    ensures tail.marks == Kept(old(tail.marks), |tail.data| - tail.start)
    ensures c.marks == old(c.marks) + Moved(old(tail.marks), |tail.data| - tail.start)
  {
    s' := LinkChunk(tail, c, s);
    label linked:
    MoveMarks(tail, c);
    forall i | 0 <= i < |s'.all|
      ensures InSync(s', i)
    {
      assert old@linked(InSync(s', i));
    }
  }

  // The first half of __add_chunk.
  method LinkChunk(tail: Chunk, c: Chunk, ghost s: Stream) returns (ghost s': Stream)
    requires Valid(s) && tail == Tail(s) && !s.frozen
    requires c !in s.all && c.id == |s.all| && c.base == |s.hist| && c.data != []
    requires c.next == null && c.start == 0 && !c.frozen
    modifies tail`next, c`offset
    ensures s' == Appended(s, c) && Valid(s') && First(s') == First(s)
  {
    assert InSync(s, |s.all| - 1) && Tile(s, |s.all| - 1);
    tail.next := c;
    c.offset := tail.offset + (|tail.data| - tail.start);
    s' := Appended(s, c);
    AppendedWellFormed(s, c);
    forall i | 0 <= i < |s'.all|
      ensures InSync(s', i)
    {
      if i < |s.all| {
        assert Tile(s, i) && old(InSync(s, i));
      }
    }
  }

  ghost function Appended(s: Stream, c: Chunk): Stream {
    s.(all := s.all + [c], starts := s.starts + [0], hist := s.hist + c.data)
  }

  lemma AppendedWellFormed(s: Stream, c: Chunk)
    requires WellFormed(s) && c.id == |s.all| && c.base == |s.hist| && c.data != []
    ensures WellFormed(Appended(s, c)) && First(Appended(s, c)) == First(s)
  {
    var s' := Appended(s, c);
    forall i | 0 <= i < |s'.all|
      ensures Tile(s', i) && Stored(s', i)
    {
      assert i < |s.all| ==> Tile(s, i) && Stored(s, i);
    }
    forall i, j | 0 <= i < j < |s'.all|
      ensures Apart(s', i, j)
    {
      assert Tile(s, i);
      assert j < |s.all| ==> Apart(s, i, j);
    }
  }

  // ----- The abstract object: what appending, trimming and freezing mean

  datatype View = View(hist: seq<Byte>, first: int, frozen: bool)

  ghost function Abs(s: Stream): View
    requires |s.all| == |s.starts| > 0
  {
    View(s.hist, First(s), s.frozen)
  }

  datatype Op = Append(data: seq<Byte>) | Trim(to: int) | Freeze(on: bool)

  // Appending nothing succeeds even on a frozen object; trimming at the end keeps everything.
  function Step(v: View, op: Op): View {
    match op
    case Append(data) => if data == [] || v.frozen then v else v.(hist := v.hist + data)
    case Trim(to) => if v.first <= to < |v.hist| then v.(first := to) else v
    case Freeze(on) => v.(frozen := on)
  }

  function Run(v: View, ops: seq<Op>): View
    decreases |ops|
  {
    if ops == [] then v else Run(Step(v, ops[0]), ops[1..])
  }

  // Everything a run appends: what it is given while the object is not frozen.
  function Added(frozen: bool, ops: seq<Op>): seq<Byte>
    decreases |ops|
  {
    if ops == [] then []
    else
      match ops[0]
      case Append(data) => (if frozen then [] else data) + Added(frozen, ops[1..])
      case Trim(_) => Added(frozen, ops[1..])
      case Freeze(on) => Added(on, ops[1..])
  }

  // The positions that a run trims to, as long as there is a byte when it gets to them; n bytes have been appended
  // before.
  function Targets(n: nat, frozen: bool, ops: seq<Op>): set<int>
    decreases |ops|
  {
    if ops == [] then {}
    else
      match ops[0]
      case Append(data) => Targets(if frozen then n else n + |data|, frozen, ops[1..])
      case Trim(to) => (if to < n then {to} else {}) + Targets(n, frozen, ops[1..])
      case Freeze(on) => Targets(n, on, ops[1..])
  }

  // Over every run, positions keep their bytes; the first live position is the furthest it was trimmed to, and never
  // passes the last byte.
  lemma {:induction false} RunKeepsPositions(v: View, ops: seq<Op>)
    requires 0 <= v.first <= |v.hist|
    ensures Run(v, ops).hist == v.hist + Added(v.frozen, ops)
    ensures v.first <= Run(v, ops).first <= |Run(v, ops).hist|
    ensures v.first < |v.hist| ==> Run(v, ops).first < |Run(v, ops).hist|
    ensures Run(v, ops).first in {v.first} + Targets(|v.hist|, v.frozen, ops)
    ensures forall to | to in Targets(|v.hist|, v.frozen, ops) :: to <= Run(v, ops).first
    decreases |ops|
  {
    if ops == [] {
      assert v.hist + [] == v.hist;
    } else {
      var w := Step(v, ops[0]);
      RunKeepsPositions(w, ops[1..]);
      var now := if ops[0].Append? && !v.frozen then ops[0].data else [];
      assert w.hist == v.hist + now;
      assert (v.hist + now) + Added(w.frozen, ops[1..]) == v.hist + (now + Added(w.frozen, ops[1..]));
    }
  }

  // So the live content after a run is the old content followed by what was appended, minus what was trimmed.
  lemma RunContent(v: View, ops: seq<Op>)
    requires 0 <= v.first <= |v.hist|
    ensures v.first <= Run(v, ops).first <= |Run(v, ops).hist|
    ensures Run(v, ops).first - v.first <= |v.hist[v.first..] + Added(v.frozen, ops)|
    ensures Run(v, ops).hist[Run(v, ops).first..] ==
      (v.hist[v.first..] + Added(v.frozen, ops))[Run(v, ops).first - v.first..]
  {
    RunKeepsPositions(v, ops);
    DropSum(v.hist, Added(v.frozen, ops), v.first, Run(v, ops).first);
  }

  lemma DropSum(a: seq<Byte>, b: seq<Byte>, i: nat, j: nat)
    requires i <= |a| && i <= j <= |a| + |b|
    ensures (a + b)[j..] == (a[i..] + b)[j - i..]
  {
    var x, y := (a + b)[j..], (a[i..] + b)[j - i..];
    forall k | 0 <= k < |x|
      ensures x[k] == y[k]
    {
      assert x[k] == (a + b)[j + k] && y[k] == (a[i..] + b)[j - i + k];
    }
  }

  // The later stream has all chunks and all bytes of the earlier one.
  ghost predicate Extends(s: Stream, s': Stream) {
    s.all <= s'.all && s.hist <= s'.hist
  }

  // An iterator survives every run that does not trim past it: it keeps its position, and with it its byte.
  lemma IterSurvives(s: Stream, s': Stream, it: Iter)
    requires Extends(s, s') && WellFormed(s') && it.bytes != null
    requires Member(s, it.bytes) && 0 <= it.cur <= |it.bytes.data| && First(s') <= Pos(s, it)
    ensures InRange(s', it) && Pos(s', it) == Pos(s, it)
    ensures 0 <= Pos(s, it) < |s.hist| ==> s'.hist[Pos(s, it)] == s.hist[Pos(s, it)]
  {
  }

  // hlt_bytes_new and _hlt_bytes_new
  method New(data: seq<Byte>) returns (b: Chunk, ghost s: Stream)
    ensures fresh(b) && s == Stream([b], [0], 1, data, false) && Valid(s) && Head(s, b)
    ensures Abs(s) == View(data, 0, false) && b.data == data && b.marks == []
  {
    b := new Chunk(data, 0, 0);
    s := Stream([b], [0], 1, data, false);
    assert Tile(s, 0) && Stored(s, 0) && InSync(s, 0);
  }

  // hlt_bytes_append_raw
  method AppendRaw(b: Chunk, raw: seq<Byte>, ghost s: Stream) returns (r: Result<(), Problem>, ghost s': Stream)
    requires Valid(s) && Head(s, b) && NoneDeleted(Tail(s).marks)
    modifies s.all
    ensures Valid(s') && Head(s', b) && NoneDeleted(Tail(s').marks)
    ensures Extends(s, s') && Abs(s') == View(if s.frozen then s.hist else s.hist + raw, First(s), s.frozen)
    ensures r == if raw != [] && s.frozen then Err(ValueError) else Ok(())
    ensures raw == [] || s.frozen ==> s' == s && unchanged(s.all)
    ensures raw != [] && !s.frozen ==>
      && fresh(Tail(s')) && Tail(s').data == raw && s' == Appended(s, Tail(s'))
      && Tail(s').marks == Moved(old(Tail(s).marks), |Tail(s).data| - s.starts[|s.all| - 1])
      && Tail(s).marks == Kept(old(Tail(s).marks), |Tail(s).data| - s.starts[|s.all| - 1])
      && forall c | c in s.all && c != Tail(s) :: c.marks == old(c.marks)
  {
    s' := s;
    assert s.hist + [] == s.hist;
    if raw == [] {
      return Ok(()), s;
    }
    Fields(s, b);
    if b.frozen {
      return Err(ValueError), s;
    }
    var c := new Chunk(raw, |s.all|, |s.hist|);
    var tail := TailOf(b, s);
    Fields(s, tail);
    s' := AddChunk(tail, c, s);
    return Ok(()), s';
  }

  // __pred: the chunk before p on the way from b
  method Pred(b: Chunk, p: Chunk, ghost s: Stream) returns (r: Chunk?)
    requires Valid(s) && Head(s, b)
    ensures Live(s, p) && p != b ==> r != null && Live(s, r) && r.next == p
    ensures p !in s.all ==> r == null
  {
    r := b;
    while r != null && r.next != p
      invariant r != null ==> Live(s, r)
      invariant Live(s, p) && p != b ==> r != null && r.id < p.id
      decreases if r == null then 0 else |s.all| - r.id
    {
      Fields(s, r);
      r := r.next;
    }
    if r != null {
      Fields(s, r);
    }
  }

  // hlt_bytes_trim
  method TrimTo(b: Chunk, p: Iter, ghost s: Stream) returns (r: Result<(), Problem>, ghost s': Stream)
    requires Valid(s) && Head(s, b) && InRange(s, p)
    modifies s.all
    ensures Valid(s') && Head(s', b) && r == Ok(())
    ensures Extends(s, s') && Abs(s') == View(s.hist, if Pos(s, p) < |s.hist| then Pos(s, p) else First(s), s.frozen)
    ensures Pos(s, p) == |s.hist| ==> s' == s && unchanged(s.all)
    ensures s'.all == s.all && forall c | c in s.all :: c.marks == old(c.marks)
  {
    s' := s;
    var q := NormalizeIter(p, s);
    var end := IsEnd(q, s);
    if end {
      return Ok(()), s;
    }
    NormalInRange(s, q);
    Fields(s, q.bytes);
    if q.bytes == b {
      s' := TrimHead(b, q.cur, s);
      return Ok(()), s';
    }
    var pred := Pred(b, q.bytes, s);
    if pred == null {
      return Err(ValueError), s;
    }
    s' := CutTo(b, q.bytes, q.cur, s);
    return Ok(()), s';
  }

  // hlt_bytes_trim with an iterator of another object t: refused, unless it is at that object's end.
  method TrimForeign(b: Chunk, p: Iter, ghost s: Stream, ghost t: Stream) returns (r: Result<(), Problem>)
    requires Valid(s) && Head(s, b) && Valid(t) && InRange(t, p) && forall c | c in t.all :: c !in s.all
    ensures r == if Pos(t, p) == |t.hist| then Ok(()) else Err(ValueError)
  {
    var q := NormalizeIter(p, t);
    var end := IsEnd(q, t);
    if end {
      return Ok(());
    }
    var pred := Pred(b, q.bytes, s);
    assert q.bytes in t.all && b in s.all;
    return Err(ValueError);
  }

  // The part of hlt_bytes_trim that stays inside the head.
  method TrimHead(b: Chunk, cur: int, ghost s: Stream) returns (ghost s': Stream)
    requires Valid(s) && Head(s, b) && s.starts[0] <= cur < |b.data|
    modifies b`offset, b`start
    ensures s' == s.(starts := s.starts[0 := cur]) && Valid(s') && First(s') == b.base + cur
  {
    Fields(s, b);
    b.offset := b.offset + (cur - b.start);
    b.start := cur;
    s' := s.(starts := s.starts[0 := cur]);
    Retrimmed(s, s');
    forall i | 0 <= i < |s'.all|
      ensures InSync(s', i)
    {
      assert Tile(s, i) && old(InSync(s, i));
    }
  }

  // The part of hlt_bytes_trim that empties the head and drops the chunks between it and d.
  method CutTo(b: Chunk, d: Chunk, cur: int, ghost s: Stream) returns (ghost s': Stream)
    requires Valid(s) && Head(s, b) && Live(s, d) && d.id > 0 && s.starts[d.id] <= cur < |d.data|
    modifies b`offset, b`start, b`next, d`offset, d`start
    ensures s' == s.(starts := s.starts[0 := |b.data|][d.id := cur], cut := d.id)
    ensures Valid(s') && First(s') == d.base + cur
  {
    Fields(s, b);
    Fields(s, d);
    b.offset := b.offset + (|b.data| - b.start);
    b.start := |b.data|;
    b.next := d;
    b.next.offset := b.next.offset + (cur - b.next.start);
    b.next.start := cur;
    s' := s.(starts := s.starts[0 := |b.data|][d.id := cur], cut := d.id);
    Retrimmed(s, s');
    forall i | 0 <= i < |s'.all|
      ensures InSync(s', i)
    {
      assert Tile(s, i) && old(InSync(s, i));
    }
  }

  // How far a stream is trimmed, and whether it is frozen, does not matter to how the chunks tile the history.
  lemma Retrimmed(s: Stream, s': Stream)
    requires WellFormed(s) && s' == s.(starts := s'.starts, cut := s'.cut, frozen := s'.frozen)
    requires s.cut <= s'.cut <= |s.all| == |s'.starts| && Trimmed(s')
    requires s'.starts[0] <= |s.all[0].data|
    requires forall i | 0 < i < |s.all| && i != s'.cut :: s'.starts[i] == s.starts[i]
    ensures WellFormed(s')
  {
    forall i | 0 <= i < |s.all|
      ensures Tile(s', i) && Stored(s', i)
    {
      assert Tile(s, i) && Stored(s, i);
    }
    forall i, j | 0 <= i < j < |s.all|
      ensures Apart(s', i, j)
    {
      assert Apart(s, i, j);
    }
  }

  // hlt_bytes_freeze
  method SetFrozen(b: Chunk, freeze: bool, ghost s: Stream) returns (ghost s': Stream)
    requires Valid(s) && Head(s, b)
    modifies s.all`frozen
    ensures s' == s.(frozen := freeze) && Valid(s') && First(s') == First(s)
  {
    FreezeChunks(b, freeze, s);
    s' := s.(frozen := freeze);
    assert Tile(s, 0);
    Retrimmed(s, s');
    forall i | 0 <= i < |s'.all|
      ensures InSync(s', i)
    {
      assert Tile(s, i) && old(InSync(s, i));
      assert i == 0 || s.cut <= i ==> Live(s, s.all[i]);
    }
  }

  method FreezeChunks(b: Chunk, freeze: bool, ghost s: Stream)
    requires Valid(s) && Head(s, b)
    modifies s.all`frozen
    ensures forall d | d in s.all && Live(s, d) :: d.frozen == freeze
  {
    var c: Chunk? := b;
    while c != null
      invariant c != null ==> Live(s, c)
      invariant forall d | d in s.all && Live(s, d) && (c == null || d.id < c.id) :: d.frozen == freeze
      decreases if c == null then 0 else |s.all| - c.id
    {
      assert Tile(s, c.id) && old(InSync(s, c.id));
      assert NextId(s, c.id) < |s.all| ==> Tile(s, NextId(s, c.id));
      c.frozen := freeze;
      c := c.next;
    }
  }
}
