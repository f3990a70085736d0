/**
  Ways of reading a range of a bytes object: copying it out, iterating over its blocks, extracting byte by
  byte. Whatever the chunking, each yields the flat slice between the two positions, with two exceptions that
  the contracts pin down exactly.
*/
module ByteSlices {
  import opened Wrappers
  import opened ByteStream

  // The number of bytes between two positions, as hlt_iterator_bytes_diff counts them.
  ghost function Between(i: int, j: int): (n: nat) {
    if i <= j then j - i else 0
  }

  // __hlt_bytes_sub_raw_internal: copies up to `size` of the `len` bytes from p1 to p2. The second result says
  // whether the source returns a non-null pointer.
  method SubRawInternal(size: nat, len: nat, p1: Iter, p2: Iter, ghost s: Stream) returns (out: seq<Byte>, ok: bool)
    requires Valid(s) && Normal(s, p1) && Normal(s, p2) && len == Between(Pos(s, p1), Pos(s, p2))
    ensures SliceAt(out, s.hist, Pos(s, p1)) && |out| == Min(size, len)
    ensures ok <==> len == 0 || 0 < size <= len
  {
    hide Valid, WellFormed;
    Snapshot(s);
    NormalInRange(s, p1);
    NormalInRange(s, p2);
    if size == 0 {
      return [], len == 0;
    }
    if len == 0 {
      return [], true;
    }
    var q2 := p2;
    if q2.bytes == null {
      q2 := End(p1.bytes, s);
    }
    if p1.bytes == q2.bytes {
      var n := Min(q2.cur - p1.cur, size);
      out := p1.bytes.data[p1.cur..p1.cur + n];
      Piece(s, p1.bytes, p1.cur, p1.cur + n, [], Pos(s, p1));
      assert [] + out == out;
    } else {
      out := CopyChunks(size, p1, q2, s);
    }
    return out, size <= len;
  }

  // The part of the copy that spans chunks.
  method CopyChunks(size: nat, p1: Iter, p2: Iter, ghost s: Stream) returns (out: seq<Byte>)
    requires Valid(s) && Normal(s, p1) && Normal(s, p2) && p1.bytes != null && p2.bytes != null
    requires size > 0 && Pos(s, p1) <= Pos(s, p2) && p1.bytes != p2.bytes
    ensures SliceAt(out, s.hist, Pos(s, p1)) && |out| == Min(size, Pos(s, p2) - Pos(s, p1))
  {
    hide Valid, WellFormed;
    Snapshot(s);
    ghost var i := Pos(s, p1);
    ChunkOrder(s, p1, p2);
    NormalInRange(s, p1);
    NormalInRange(s, p2);
    Walked(s, p1.bytes);
    Fields(s, p1.bytes);
    var n := Min(|p1.bytes.data| - p1.cur, size);
    out := p1.bytes.data[p1.cur..p1.cur + n];
    Piece(s, p1.bytes, p1.cur, p1.cur + n, [], i);
    assert [] + out == out;
    out := CopyRest(size, p1.bytes.next, p2, out, i, s);
  }

  // Whole chunks from c on, and then what precedes p2 in its chunk. At the end of the data, that is all of it.
  method CopyRest(size: nat, first: Chunk?, p2: Iter, begun: seq<Byte>, ghost i: int, ghost s: Stream)
    returns (out: seq<Byte>)
    requires Valid(s) && Normal(s, p2) && p2.bytes != null
    requires if first == null then Pos(s, p2) == |s.hist|
      else Live(s, first) && s.starts[first.id] < |first.data| && first.id <= p2.bytes.id
    requires i <= From(s, first) && |begun| == Min(size, From(s, first) - i) && SliceAt(begun, s.hist, i)
    ensures SliceAt(out, s.hist, i) && |out| == Min(size, Pos(s, p2) - i)
  {
    hide Valid, WellFormed;
    Snapshot(s);
    NormalInRange(s, p2);
    var end2 := IsEnd(p2, s);
    var c := first;
    out := begun;
    while c != null && (c != p2.bytes || end2)
      invariant c != null ==> Live(s, c) && s.starts[c.id] < |c.data| && c.id <= p2.bytes.id
      invariant c == null ==> end2
      invariant i <= From(s, c) && |out| == Min(size, From(s, c) - i)
      invariant SliceAt(out, s.hist, i)
      decreases if c == null then 0 else |s.all| - c.id
    {
      var n := Min(|c.data| - c.start, size - |out|);
      CopyStep(s, c, p2, out, i, size);
      out := out + c.data[c.start..c.start + n];
      c := c.next;
    }
    if c != null {
      Walked(s, c);
      var n := Min(p2.cur - p2.bytes.start, size - |out|);
      Piece(s, c, c.start, c.start + n, out, i);
      out := out + p2.bytes.data[p2.bytes.start..p2.bytes.start + n];
    }
  }

  // One iteration of that loop: what copying chunk c, as far as it fits, keeps.
  lemma CopyStep(s: Stream, c: Chunk, p2: Iter, out: seq<Byte>, i: int, size: nat)
    requires Valid(s) && p2.bytes != null && Live(s, p2.bytes)
    requires Live(s, c) && c.id <= p2.bytes.id && s.starts[c.id] < |c.data|
    requires i <= From(s, c) && |out| == Min(size, From(s, c) - i) && SliceAt(out, s.hist, i)
    ensures c.start == s.starts[c.id]
    ensures var n := Min(|c.data| - c.start, size - |out|);
      0 <= n && c.start + n <= |c.data| && SliceAt(out + c.data[c.start..c.start + n], s.hist, i)
    ensures (c.next == null <==> c == Tail(s)) && (c.id == p2.bytes.id ==> c == p2.bytes)
    ensures c.next == null ==> c == p2.bytes
    ensures c.next != null ==> Live(s, c.next) && c.id < c.next.id && s.starts[c.next.id] < |c.next.data|
    ensures c.next != null && c.id < p2.bytes.id ==> c.next.id <= p2.bytes.id
    ensures i <= From(s, c.next) && |out| + Min(|c.data| - c.start, size - |out|) == Min(size, From(s, c.next) - i)
  {
    Walked(s, c);
    Fields(s, c);
    Piece(s, c, c.start, c.start + Min(|c.data| - c.start, size - |out|), out, i);
  }

  // hlt_bytes_sub: a new bytes object holding exactly the slice.
  method Sub(i1: Iter, i2: Iter, ghost s: Stream) returns (r: Chunk?, ghost t: Stream)
    requires Valid(s) && InRange(s, i1) && InRange(s, i2)
    ensures r != null && fresh(r) && t.all == [r] && Valid(t) && Head(t, r) && NoneDeleted(r.marks)
    ensures Abs(t) == View(t.hist, 0, false)
    ensures SliceAt(t.hist, s.hist, Pos(s, i1)) && |t.hist| == Between(Pos(s, i1), Pos(s, i2))
  {
    var p1 := NormalizeIter(i1, s);
    var p2 := NormalizeIter(i2, s);
    NormalInRange(s, p1);
    NormalInRange(s, p2);
    var len := Diff(p1, p2, s);
    var out, ok := SubRawInternal(len, len, p1, p2, s);
    r, t := New(out);
    if !ok {
      r := null;
    }
  }

  // hlt_bytes_sub_raw: fills a buffer of the given size. It reports success when the buffer is not larger than
  // the range, and failure when there is space to spare, although it has copied everything.
  method SubRaw(size: nat, i1: Iter, i2: Iter, ghost s: Stream) returns (out: seq<Byte>, ok: bool)
    requires Valid(s) && InRange(s, i1) && InRange(s, i2)
    ensures SliceAt(out, s.hist, Pos(s, i1))
    ensures var len := Between(Pos(s, i1), Pos(s, i2));
      |out| == Min(size, len) && (ok <==> len == 0 || 0 < size <= len)
  {
    var p1 := NormalizeIter(i1, s);
    var p2 := NormalizeIter(i2, s);
    NormalInRange(s, p1);
    NormalInRange(s, p2);
    var len := Diff(p1, p2, s);
    out, ok := SubRawInternal(size, len, p1, p2, s);
  }

  // __hlt_bytes_append: b gets one new chunk with all bytes of `other`, which may be b itself. Other than
  // hlt_bytes_append_raw, it refuses a frozen b even if there is nothing to append.
  method AppendBytes(b: Chunk, other: Chunk, ghost s: Stream, ghost t: Stream)
    returns (r: Result<(), Problem>, ghost s': Stream)
    requires Valid(s) && Head(s, b) && NoneDeleted(Tail(s).marks)
    requires Valid(t) && Head(t, other)
    modifies s.all
    ensures Valid(s') && Head(s', b) && NoneDeleted(Tail(s').marks)
    ensures Extends(s, s') && 0 <= First(t) <= |t.hist|
    ensures Abs(s') == View(if s.frozen then s.hist else s.hist + Content(t), First(s), s.frozen)
    ensures s' == s || (s'.all == s.all + [Tail(s')] && fresh(Tail(s')))
    ensures r == if s.frozen then Err(ValueError) else Ok(())
  {
    FirstInBounds(t);
    Fields(s, b);
    if b.frozen {
      return Err(ValueError), s;
    }
    var data := Flatten(other, t);
    if |data| == 0 {
      return Ok(()), s;
    }
    var ok;
    ok, s' := AppendRaw(b, data, s);
    return Ok(()), s';
  }

  // The copying loop of __hlt_bytes_append, hlt_bytes_concat and hlt_bytes_copy.
  method Flatten(b: Chunk, ghost s: Stream) returns (out: seq<Byte>)
    requires Valid(s) && Head(s, b)
    ensures 0 <= First(s) <= |s.hist| && out == Content(s)
  {
    FirstInBounds(s);
    out := [];
    var c: Chunk? := b;
    Walked(s, b);
    while c != null
      invariant c != null ==> Live(s, c)
      invariant SliceAt(out, s.hist, First(s)) && |out| == From(s, c) - First(s)
      decreases if c == null then 0 else |s.all| - c.id
    {
      Walked(s, c);
      Piece(s, c, c.start, |c.data|, out, First(s));
      out := out + c.data[c.start..|c.data|];
      c := c.next;
    }
    SliceAtIs(out, s.hist, First(s));
  }

  // ----- Block iteration

  // A block as hlt_bytes_iterate_raw hands it out: memory [start, end) of chunk `of`, and the chunk to
  // continue with.
  datatype Block = Block(of: Chunk?, start: int, end: int, next: Chunk?)

  // The block's bytes are those from position i on.
  ghost predicate BlockIs(s: Stream, b: Block, i: int) {
    if b.of == null then b.start == b.end
    else 0 <= b.start <= b.end <= |b.of.data| && SliceAt(b.of.data[b.start..b.end], s.hist, i)
  }

  // The position behind a block that begins at i
  ghost function UpTo(b: Block, i: int): int {
    i + b.end - b.start
  }

  // The iteration has handed out everything before position j, which is where the next block begins, and p2 is
  // not before j.
  ghost predicate MoreAt(s: Stream, b: Block, p2: Iter, j: int) {
    && b.next != null && Live(s, b.next) && s.starts[b.next.id] < |b.next.data|
    && From(s, b.next) == j <= Pos(s, p2)
  }

  // The block handed out at position `at`, on the way to p2; its next chunk is null for the last one.
  ghost predicate Handed(s: Stream, b: Block, p2: Iter, at: int) {
    var upTo := UpTo(b, at);
    && BlockIs(s, b, at) && at <= upTo <= Pos(s, p2)
    && if b.next != null then MoreAt(s, b, p2, upTo) && at < upTo else upTo == Pos(s, p2)
  }

  // hlt_bytes_iterate_raw. `at` is the position up to which blocks have been handed out; the result says
  // whether there are more. It is an error to start at the end when that is not where to stop.
  method IterateRaw(block: Block, cookie: bool, i1: Iter, i2: Iter, ghost at: int, ghost s: Stream)
    returns (more: Result<bool, Problem>, block': Block)
    requires Valid(s) && InRange(s, i1) && InRange(s, i2) && (Pos(s, i1) <= Pos(s, i2) || Pos(s, i1) == |s.hist|)
    requires if cookie then MoreAt(s, block, i2, at) else at == Pos(s, i1)
    ensures more.Err? <==> !cookie && Pos(s, i1) > Pos(s, i2)
    ensures if more.Err? then more.error == ValueError && block' == block
      else Handed(s, block', i2, at) && (more.value <==> block'.next != null)
  {
    var p1 := NormalizeIter(i1, s);
    var p2 := NormalizeIter(i2, s);
    InRangeBounds(s, i2);
    if !cookie {
      var equal := Eq(p1, p2, s);
      var end1 := IsEnd(p1, s);
      var end2 := IsEnd(p2, s);
      if !equal && end1 && !end2 {
        return Err(ValueError), block;
      }
      block' := FirstBlock(p1, p2, s);
    } else {
      block' := NextBlock(block, p2, at, s);
    }
    more := Ok(block'.next != null);
  }

  method FirstBlock(p1: Iter, p2: Iter, ghost s: Stream) returns (block': Block)
    requires Valid(s) && Normal(s, p1) && Normal(s, p2) && Pos(s, p1) <= Pos(s, p2)
    ensures Handed(s, block', p2, Pos(s, p1))
  {
    NormalInRange(s, p1);
    NormalInRange(s, p2);
    var equal := Eq(p1, p2, s);
    if equal {
      return Block(p1.bytes, p1.cur, p1.cur, null);
    }
    if p1.bytes != p2.bytes {
      block' := Block(p1.bytes, p1.cur, |p1.bytes.data|, p1.bytes.next);
    } else {
      block' := Block(p1.bytes, p1.cur, p2.cur, null);
    }
    HandOut(s, p1, p2, block');
  }

  method NextBlock(block: Block, p2: Iter, ghost at: int, ghost s: Stream) returns (block': Block)
    requires Valid(s) && Normal(s, p2) && MoreAt(s, block, p2, at)
    ensures Handed(s, block', p2, at)
  {
    Walked(s, block.next);
    if block.next != p2.bytes {
      block' := Block(block.next, block.next.start, |block.next.data|, block.next.next);
    } else {
      block' := Block(p2.bytes, p2.bytes.start, p2.cur, null);
    }
    HandOut(s, Iter(block.next, block.next.start), p2, block');
  }

  // A block from p to the end of its chunk, or to p2 if that comes first, is what the history holds there.
  lemma HandOut(s: Stream, p: Iter, p2: Iter, b: Block)
    requires Valid(s) && Normal(s, p) && Normal(s, p2) && p.bytes != null && Pos(s, p) <= Pos(s, p2)
    requires p.bytes != p2.bytes ==> p.cur < |p.bytes.data|
    requires b == if p.bytes != p2.bytes then Block(p.bytes, p.cur, |p.bytes.data|, p.bytes.next)
                  else Block(p.bytes, p.cur, p2.cur, null)
    ensures Handed(s, b, p2, Pos(s, p))
  {
    NormalInRange(s, p);
    NormalInRange(s, p2);
    Walked(s, p.bytes);
    Fields(s, p.bytes);
    if p2.bytes != null {
      ChunkOrder(s, p, p2);
      if p.bytes != p2.bytes {
        BeforeNext(s, p.bytes, p2);
      }
    }
    Piece(s, p.bytes, b.start, b.end, [], Pos(s, p));
    assert [] + p.bytes.data[b.start..b.end] == p.bytes.data[b.start..b.end];
  }

  // A position in a later chunk is not before the successor's first live byte.
  lemma BeforeNext(s: Stream, c: Chunk, p2: Iter)
    requires Valid(s) && Live(s, c) && Normal(s, p2) && p2.bytes != null && c.id < p2.bytes.id
    ensures c.next != null && Member(s, c.next) && From(s, c.next) <= Pos(s, p2)
  {
    Fields(s, c);
    Walked(s, c);
    Walked(s, c.next);
    Ordered(s, c.next.id, p2.bytes.id);
  }

  // The caller's loop, as in hlt_file_write_bytes: the blocks make up the range, whatever the chunking.
  method CollectBlocks(i1: Iter, i2: Iter, ghost s: Stream) returns (out: seq<Byte>)
    requires Valid(s) && InRange(s, i1) && InRange(s, i2) && Pos(s, i1) <= Pos(s, i2)
    ensures SliceAt(out, s.hist, Pos(s, i1)) && |out| == Pos(s, i2) - Pos(s, i1)
  {
    out := [];
    var block, cookie := Block(null, 0, 0, null), false;
    ghost var i, at := Pos(s, i1), Pos(s, i1);
    InRangeBounds(s, i1);
    while true
      invariant if cookie then MoreAt(s, block, i2, at) else at == i
      invariant i <= at <= Pos(s, i2) && |out| == at - i && SliceAt(out, s.hist, i)
      decreases Pos(s, i2) - at, !cookie
    {
      var more;
      more, block := IterateRaw(block, cookie, i1, i2, at, s);
      cookie := more.value;
      if block.of != null {
        out := out + block.of.data[block.start..block.end];
      }
      at := UpTo(block, at);
      if !cookie {
        break;
      }
    }
  }

  // ----- Extracting byte by byte

  // Whether __hlt_bytes_extract_one reads past `end`: both iterators denote the same position, but `end` still
  // sits at the end of an earlier chunk, and the fast path compares pointers without normalising.
  ghost predicate Overruns(s: Stream, p: Iter, end: Iter) {
    Pos(s, p) == Pos(s, end) && p.bytes != null && p.bytes != end.bytes && p.cur + 1 < |p.bytes.data|
  }

  // __hlt_bytes_extract_one
  method ExtractOne(p: Iter, end: Iter, ghost s: Stream) returns (r: Result<Byte, Problem>, p': Iter)
    requires Valid(s) && InRange(s, p) && InRange(s, end) && p.bytes != null && Pos(s, p) <= Pos(s, end)
    ensures InRange(s, p') && p'.bytes != null && 0 <= Pos(s, p) <= |s.hist|
    ensures if Pos(s, p) < Pos(s, end) || Overruns(s, p, end)
      then Pos(s, p) < |s.hist| && r == Ok(s.hist[Pos(s, p)]) && Pos(s, p') == Pos(s, p) + 1
      else r == Err(WouldBlock) && Pos(s, p') == Pos(s, p)
  {
    InRangeBounds(s, p);
    InRangeBounds(s, end);
    if (p.bytes == end.bytes && p.cur < end.cur - 1) || (p.bytes != end.bytes && p.cur < |p.bytes.data| - 1) {
      InRangeSettled(s, p);
      NormalInRange(s, p);
      return Ok(p.bytes.data[p.cur]), Iter(p.bytes, p.cur + 1);
    }
    r, p' := ExtractOneSlowpath(p, end, s);
  }

  // __hlt_bytes_extract_one_slowpath
  method ExtractOneSlowpath(p: Iter, end: Iter, ghost s: Stream) returns (r: Result<Byte, Problem>, p': Iter)
    requires Valid(s) && InRange(s, p) && InRange(s, end) && p.bytes != null && Pos(s, p) <= Pos(s, end)
    ensures InRange(s, p') && p'.bytes != null && 0 <= Pos(s, p) <= |s.hist|
    ensures if Pos(s, p) < Pos(s, end)
      then Pos(s, p) < |s.hist| && r == Ok(s.hist[Pos(s, p)]) && Pos(s, p') == Pos(s, p) + 1
      else r == Err(WouldBlock) && Pos(s, p') == Pos(s, p)
  {
    InRangeBounds(s, p);
    InRangeBounds(s, end);
    p' := NormalizeIter(p, s);
    var end' := NormalizeIter(end, s);
    NormalInRange(s, p');
    var isEnd := IsEnd(p', s);
    var equal := Eq(p', end', s);
    if isEnd || equal {
      return Err(WouldBlock), p';
    }
    r := Deref(p', s);
    p' := Incr(p', s);
    NormalInRange(s, p');
  }

  // With an end iterator in normal form the fast path never overruns: it agrees with the slow path.
  lemma NormalEndIsSafe(s: Stream, p: Iter, end: Iter)
    requires Valid(s) && InRange(s, p) && Normal(s, end) && end.bytes != null
    ensures !Overruns(s, p, end)
  {
    if Overruns(s, p, end) {
      InRangeSettled(s, p);
      NormalUnique(s, p, end);
    }
  }

  // The generic end position is safe as well.
  lemma GenericEndIsSafe(s: Stream, p: Iter, end: Iter)
    requires Valid(s) && InRange(s, p) && end.bytes == null
    ensures !Overruns(s, p, end)
  {
    if Overruns(s, p, end) {
      InRangeSettled(s, p);
      NormalInRange(s, p);
    }
  }

  // A chunk appended after an end iterator was taken makes the fast path run past it.
  method OverrunExample() returns (r: Result<Byte, Problem>)
    ensures r == Ok(2)
  {
    var b, s := New([1]);
    var end := End(b, s);
    var ok;
    ok, s := AppendRaw(b, [2, 3], s);
    var p := Offset(b, 1, s);
    NormalInRange(s, p);
    var p';
    assert Pos(s, p) == Pos(s, end) == 1;
    assert p.bytes == s.all[1];
    r, p' := ExtractOne(p, end, s);
  }

  // Repeated extraction, as generated parsers do it, yields exactly the range.
  method ExtractAll(i1: Iter, end: Iter, ghost s: Stream) returns (out: seq<Byte>, p: Iter)
    requires Valid(s) && InRange(s, i1) && i1.bytes != null && Normal(s, end) && Pos(s, i1) <= Pos(s, end)
    ensures SliceAt(out, s.hist, Pos(s, i1)) && |out| == Pos(s, end) - Pos(s, i1) && Pos(s, p) == Pos(s, end)
  {
    out, p := [], i1;
    InRangeBounds(s, i1);
    NormalInRange(s, end);
    while true
      invariant InRange(s, p) && p.bytes != null && Pos(s, p) <= Pos(s, end)
      invariant SliceAt(out, s.hist, Pos(s, i1)) && |out| == Pos(s, p) - Pos(s, i1)
      decreases Pos(s, end) - Pos(s, p)
    {
      if end.bytes == null {
        GenericEndIsSafe(s, p, end);
      } else {
        NormalEndIsSafe(s, p, end);
      }
      var r;
      r, p := ExtractOne(p, end, s);
      if r.Err? {
        return;
      }
      out := out + [r.value];
    }
  }
}
