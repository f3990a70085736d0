/**
  Searching, splitting and comparing bytes objects. Searching is sound for every chunking, but complete only if
  every chunk before the match ends with the first byte searched for: the loop of __hlt_bytes_find_byte_from
  over the later chunks stores what it finds in a variable of its own.
*/
module ByteSearch {
  import opened ByteStream

  // ----- Matching at a position

  // x begins with the bytes of h from position i on, as far as h reaches.
  ghost predicate Runs(x: seq<Byte>, h: seq<Byte>, i: int, n: nat) {
    0 <= i && n <= |x| && i + n <= |h| && forall k | 0 <= k < n :: x[k] == h[i + k]
  }

  // The content of t is x.
  ghost predicate Shows(t: Stream, x: seq<Byte>)
    requires |t.all| == |t.starts| > 0
  {
    First(t) + |x| == |t.hist| && SliceAt(x, t.hist, First(t))
  }

  // __hlt_bytes_match_at, for a pattern with content x: 1 for a match, -1 if the input ends inside a match, and
  // 0 otherwise. An empty pattern matches only at the end.
  method MatchAt(p: Iter, b: Chunk, ghost s: Stream, ghost t: Stream, ghost x: seq<Byte>) returns (r: int)
    requires Valid(s) && Normal(s, p) && Valid(t) && Head(t, b) && Shows(t, x)
    ensures Pos(s, p) == |s.hist| || x == [] ==> r == if Pos(s, p) == |s.hist| && x == [] then 1 else 0
    ensures Pos(s, p) < |s.hist| && x != [] ==>
      && r in {-1, 0, 1}
      && (r == 1 <==> SliceAt(x, s.hist, Pos(s, p)))
      && (r == -1 <==> |s.hist| - Pos(s, p) < |x| && Runs(x, s.hist, Pos(s, p), |s.hist| - Pos(s, p)))
  {
    var empty := IsEmpty(b, t);
    var end := IsEnd(p, s);
    if end {
      return if empty then 1 else 0;
    }
    if empty {
      return 0;
    }
    r := MatchLoop(p, b, s, t, x);
  }

  method MatchLoop(p: Iter, b: Chunk, ghost s: Stream, ghost t: Stream, ghost x: seq<Byte>) returns (r: int)
    requires Valid(s) && Normal(s, p) && Valid(t) && Head(t, b) && Shows(t, x)
    requires Pos(s, p) < |s.hist| && x != []
    ensures r in {-1, 0, 1}
    ensures r == 1 <==> SliceAt(x, s.hist, Pos(s, p))
    ensures r == -1 <==> |s.hist| - Pos(s, p) < |x| && Runs(x, s.hist, Pos(s, p), |s.hist| - Pos(s, p))
  {
    hide Valid, WellFormed;
    Snapshot(s);
    NormalInRange(s, p);
    var c1 := p;
    var c2 := Begin(b, t);
    ghost var n := 0;
    while true
      invariant Normal(s, c1) && Normal(t, c2) && c1.bytes != null && c2.bytes != null
      invariant Pos(s, c1) == Pos(s, p) + n < |s.hist| && Pos(t, c2) == First(t) + n && n < |x|
      invariant Runs(x, s.hist, Pos(s, p), n)
      decreases |s.hist| - Pos(s, c1)
    {
      var b1 := Peek(c1, s);
      var b2 := Peek(c2, t);
      if b1 != b2 {
        assert s.hist[Pos(s, p) + n] != x[n];
        return 0;
      }
      c1 := Incr(c1, s);
      c2 := Incr(c2, t);
      n := n + 1;
      var end2 := IsEnd(c2, t);
      if end2 {
        return 1;
      }
      var end1 := IsEnd(c1, s);
      if end1 {
        return -1;
      }
    }
  }

  // ----- Finding

  // __hlt_bytes_find_byte_from: the first such byte in what is left of the current chunk, or the end. The source
  // goes on to look through the chunks that follow, but drops what it finds there.
  method FindByteFrom(i: Iter, chr: Byte, ghost s: Stream) returns (p: Iter)
    requires Valid(s) && Normal(s, i) && i.bytes != null
    ensures p.bytes != null && Normal(s, p) && Pos(s, i) <= Pos(s, p) <= |s.hist|
    ensures 0 <= Pos(s, i) <= ChunkEnd(i) <= |s.hist|
    ensures Pos(s, p) < |s.hist| ==>
      Pos(s, p) < ChunkEnd(i) && s.hist[Pos(s, p)] == chr && Absent(s, chr, Pos(s, i), Pos(s, p))
    ensures Pos(s, p) == |s.hist| ==> Absent(s, chr, Pos(s, i), ChunkEnd(i))
  {
    NormalInRange(s, i);
    assert Stored(s, i.bytes.id) && Tile(s, i.bytes.id);
    var c := i.cur;
    while c < |i.bytes.data| && i.bytes.data[c] != chr
      invariant i.cur <= c <= |i.bytes.data|
      invariant Absent(s, chr, Pos(s, i), i.bytes.base + c)
    {
      c := c + 1;
    }
    if c < |i.bytes.data| {
      return Iter(i.bytes, c);
    }
    p := End(i.bytes, s);
  }

  ghost predicate Absent(s: Stream, chr: Byte, from: int, upTo: int) {
    forall k | 0 <= from <= k < upTo <= |s.hist| :: s.hist[k] != chr
  }

  ghost predicate NoMatch(x: seq<Byte>, h: seq<Byte>, from: int, upTo: int) {
    forall k | from <= k < upTo :: !SliceAt(x, h, k)
  }

  ghost predicate FirstMatch(x: seq<Byte>, h: seq<Byte>, from: int, m: int) {
    from <= m && SliceAt(x, h, m) && NoMatch(x, h, from, m)
  }

  // Every chunk that ends at or before position m ends with chr.
  ghost predicate Bridged(s: Stream, m: int, chr: Byte) {
    forall c | c in s.all && Live(s, c) && s.starts[c.id] < |c.data| && c.base + |c.data| <= m ::
      c.data[|c.data| - 1] == chr
  }

  // The search for x reaches its first match.
  ghost predicate Reaches(s: Stream, x: seq<Byte>, m: int)
    requires |s.all| == |s.starts| > 0
  {
    x != [] && FirstMatch(x, s.hist, First(s), m) && Bridged(s, m, x[0])
  }

  // __hlt_bytes_find_bytes: what it finds is the first match, and it finds it exactly if the search gets there.
  method FindBytes(b: Chunk, other: Chunk, ghost s: Stream, ghost t: Stream, ghost x: seq<Byte>)
    returns (p: Iter, found: bool)
    requires Valid(s) && Head(s, b) && Valid(t) && Head(t, other) && Shows(t, x)
    ensures p.bytes != null && Normal(s, p)
    ensures x == [] ==> found && Pos(s, p) == First(s)
    ensures x != [] && found ==> Reaches(s, x, Pos(s, p))
    ensures !found ==> Pos(s, p) == |s.hist| && forall m :: !Reaches(s, x, m)
  {
    var empty := IsEmpty(other, t);
    if empty {
      p := Begin(b, s);
      return p, true;
    }
    var begin := Begin(other, t);
    var chr := Peek(begin, t);
    p, found := FindLoop(b, other, chr, s, t, x);
    if !found {
      p := End(b, s);
    }
  }

  method FindLoop(b: Chunk, other: Chunk, chr: Byte, ghost s: Stream, ghost t: Stream, ghost x: seq<Byte>)
    returns (p: Iter, found: bool)
    requires Valid(s) && Head(s, b) && Valid(t) && Head(t, other) && Shows(t, x) && x != [] && chr == x[0]
    ensures found ==> p.bytes != null && Normal(s, p) && Reaches(s, x, Pos(s, p))
    ensures !found ==> forall m :: !Reaches(s, x, m)
  {
    hide Valid, WellFormed;
    Snapshot(s);
    var i := Begin(b, s);
    NothingBefore(s, chr);
    while true
      invariant i.bytes != null && Normal(s, i) && First(s) <= Pos(s, i) <= |s.hist|
      invariant NoMatch(x, s.hist, First(s), Pos(s, i)) && Bridged(s, Pos(s, i), chr)
      decreases |s.hist| - Pos(s, i)
    {
      p := FindByteFrom(i, chr, s);
      var end := IsEnd(p, s);
      if end {
        SearchStops(s, x, i);
        return p, false;
      }
      var m := MatchAt(p, other, s, t, x);
      if m > 0 {
        StillBridged(s, i, Pos(s, p), chr);
        return p, true;
      }
      var next := Incr(i, s);
      StepOn(s, x, i, Pos(s, p));
      i := next;
      var endI := IsEnd(i, s);
      if endI {
        return p, false;
      }
    }
  }

  // In the chunks [1] and [2], searching for [2] finds nothing.
  method MissedExample() returns (found: bool, ghost s: Stream)
    ensures |s.all| == |s.starts| > 0 && s.hist == [1, 2] && FirstMatch([2], s.hist, First(s), 1) && !found
  {
    var b, ok, p;
    b, s := New([1]);
    ok, s := AppendRaw(b, [2], s);
    var other, t := New([2]);
    assert s.all[0].data == [1] && s.hist == [1, 2] && First(s) == 0;
    OneMatch();
    assert !Bridged(s, 1, 2) by {
      assert Live(s, s.all[0]);
    }
    hide Bridged, Valid;
    p, found := FindBytes(b, other, s, t, [2]);
  }

  lemma OneMatch()
    ensures forall m :: FirstMatch([2], [1, 2], 0, m) <==> m == 1
  {
    var x: seq<Byte>, h: seq<Byte> := [2], [1, 2];
    assert x[0] != h[0];
    assert SliceAt(x, h, 1);
  }

  lemma NothingBefore(s: Stream, chr: Byte)
    requires WellFormed(s)
    ensures Bridged(s, First(s), chr)
  {
    forall c | c in s.all && Live(s, c) && s.starts[c.id] < |c.data|
      ensures First(s) < c.base + |c.data|
    {
      NormalInRange(s, Iter(c, s.starts[c.id]));
    }
  }

  // Inside the chunk of i, no further chunk has ended.
  lemma StillBridged(s: Stream, i: Iter, m: int, chr: Byte)
    requires WellFormed(s) && i.bytes != null && Normal(s, i) && Pos(s, i) <= m < ChunkEnd(i) && Bridged(s, Pos(s, i), chr)
    ensures Bridged(s, m, chr)
  {
    forall c | c in s.all && Live(s, c) && s.starts[c.id] < |c.data| && c.base + |c.data| <= m
      ensures c.base + |c.data| <= Pos(s, i)
    {
      Ordered(s, c.id, i.bytes.id);
    }
  }

  // If the first byte does not occur in what is left of the chunk, the source gives up: rightly at the end, and
  // otherwise because this chunk does not end with that byte.
  lemma SearchStops(s: Stream, x: seq<Byte>, i: Iter)
    requires WellFormed(s) && i.bytes != null && Normal(s, i) && x != []
    requires NoMatch(x, s.hist, First(s), Pos(s, i)) && Absent(s, x[0], Pos(s, i), ChunkEnd(i))
    ensures forall m :: !Reaches(s, x, m)
  {
    NormalInRange(s, i);
    assert Stored(s, i.bytes.id) && Tile(s, i.bytes.id);
    forall m | FirstMatch(x, s.hist, First(s), m)
      ensures !Bridged(s, m, x[0])
    {
      assert m >= Pos(s, i) && s.hist[m] == x[0];
      assert m >= ChunkEnd(i);
      var c := i.bytes;
      assert c in s.all && c.data[|c.data| - 1] == s.hist[ChunkEnd(i) - 1];
    }
  }

  // No match at position i: the search moves on by one, even if the byte was found further ahead.
  lemma StepOn(s: Stream, x: seq<Byte>, i: Iter, q: int)
    requires WellFormed(s) && i.bytes != null && Normal(s, i) && x != []
    requires NoMatch(x, s.hist, First(s), Pos(s, i)) && Bridged(s, Pos(s, i), x[0])
    requires Pos(s, i) <= q < ChunkEnd(i) <= |s.hist| && Absent(s, x[0], Pos(s, i), q)
    requires s.hist[q] == x[0] && !SliceAt(x, s.hist, q)
    ensures NoMatch(x, s.hist, First(s), Pos(s, i) + 1) && Bridged(s, Pos(s, i) + 1, x[0])
  {
    NormalInRange(s, i);
    assert Stored(s, i.bytes.id);
    if Pos(s, i) + 1 < ChunkEnd(i) {
      StillBridged(s, i, Pos(s, i) + 1, x[0]);
    } else {
      forall c | c in s.all && Live(s, c) && s.starts[c.id] < |c.data| && c.base + |c.data| <= Pos(s, i) + 1
        ensures c.data[|c.data| - 1] == x[0]
      {
        Ordered(s, c.id, i.bytes.id);
      }
    }
  }
}
