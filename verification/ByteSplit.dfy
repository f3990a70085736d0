/**
  Splitting bytes objects at a separator, or at white-space if the separator is empty, and comparing them.
*/
module ByteSplit {
  import opened Wrappers
  import opened ByteStream
  import opened ByteSlices
  import opened ByteSearch

  // isspace() in the C locale
  predicate IsSpace(b: Byte) {
    b == 32 || 9 <= b <= 13
  }

  // ----- Where a sequence is cut

  // The piece before the cut ends at m, the piece after it begins at j.
  datatype Cut = Cut(m: int, j: int)

  // For a separator x, the cut surrounds its first match. For an empty one it covers the first run of
  // white-space, but only the run's first character if nothing follows the run.
  ghost predicate IsCut(h: seq<Byte>, from: int, x: seq<Byte>, cut: Cut) {
    if x != [] then FirstMatch(x, h, from, cut.m) && cut.j == cut.m + |x|
    else SpaceRun(h, from, cut)
  }

  ghost predicate SpaceRun(h: seq<Byte>, from: int, cut: Cut) {
    && 0 <= from <= cut.m < cut.j <= |h|
    && (forall k | from <= k < cut.m :: !SpaceAt(h, k))
    && (forall k | cut.m <= k < cut.j :: SpaceAt(h, k))
    && (SpaceAt(h, cut.j) || cut.j == |h| ==> cut.j == cut.m + 1 && forall k | cut.m <= k < |h| :: SpaceAt(h, k))
  }

  ghost predicate SpaceAt(h: seq<Byte>, k: int) {
    0 <= k < |h| && IsSpace(h[k])
  }

  lemma CutUnique(h: seq<Byte>, from: int, x: seq<Byte>, a: Cut, b: Cut)
    requires IsCut(h, from, x, a) && IsCut(h, from, x, b)
    ensures a == b
  {
    if x == [] {
      assert SpaceAt(h, a.m) && SpaceAt(h, b.m);
      assert a.m == b.m;
    }
  }

  // The pieces of h, independently of any chunking.
  ghost function Pieces(h: seq<Byte>, x: seq<Byte>): (ps: seq<seq<Byte>>)
    decreases |h|
  {
    if exists cut :: IsCut(h, 0, x, cut) then
      var cut :| IsCut(h, 0, x, cut);
      [h[..cut.m]] + Pieces(h[cut.j..], x)
    else
      [h]
  }

  function Join(ps: seq<seq<Byte>>, gaps: seq<seq<Byte>>): seq<Byte>
    requires |ps| == |gaps| + 1
  {
    if gaps == [] then ps[0] else ps[0] + gaps[0] + Join(ps[1..], gaps[1..])
  }

  ghost predicate Gap(x: seq<Byte>, g: seq<Byte>) {
    g != [] && if x != [] then g == x else forall k | 0 <= k < |g| :: IsSpace(g[k])
  }

  // Putting the pieces together with what stood between them rebuilds the input. With a separator, that is
  // nothing but the separator, and no piece contains it; otherwise it is white-space.
  lemma {:induction false} PiecesRebuild(h: seq<Byte>, x: seq<Byte>) returns (gaps: seq<seq<Byte>>)
    ensures |Pieces(h, x)| == |gaps| + 1 && Join(Pieces(h, x), gaps) == h
    ensures forall g | g in gaps :: Gap(x, g)
    ensures x != [] ==> forall p | p in Pieces(h, x) :: NoMatch(x, p, 0, |p|)
    decreases |h|
  {
    if exists cut :: IsCut(h, 0, x, cut) {
      var cut :| IsCut(h, 0, x, cut) && Pieces(h, x) == [h[..cut.m]] + Pieces(h[cut.j..], x);
      var rest := PiecesRebuild(h[cut.j..], x);
      gaps := [h[cut.m..cut.j]] + rest;
      CutOff(h, x, cut);
      assert Pieces(h, x)[1..] == Pieces(h[cut.j..], x) && gaps[1..] == rest;
    } else {
      gaps := [];
      if x != [] && |h| > 0 {
        NoFirstNoMatch(h, x, |h| - 1);
      }
    }
  }

  // Matches within a slice of h are matches within h.
  lemma SliceOf(x: seq<Byte>, h: seq<Byte>, from: nat, to: nat, k: int)
    requires from <= to <= |h|
    ensures SliceAt(x, h[from..to], k) <==> 0 <= k && from + k + |x| <= to && SliceAt(x, h, from + k)
  {
  }

  lemma CutOff(h: seq<Byte>, x: seq<Byte>, cut: Cut)
    requires IsCut(h, 0, x, cut)
    ensures 0 <= cut.m < cut.j <= |h|
    ensures h[..cut.m] + h[cut.m..cut.j] + h[cut.j..] == h
    ensures Gap(x, h[cut.m..cut.j])
    ensures x != [] ==> NoMatch(x, h[..cut.m], 0, cut.m)
  {
    var p, g := h[..cut.m], h[cut.m..cut.j];
    if x != [] {
      forall k | 0 <= k < cut.m
        ensures !SliceAt(x, p, k)
      {
        assert !SliceAt(x, h, k);
        SliceOf(x, h, 0, cut.m, k);
      }
    } else {
      forall k | 0 <= k < |g|
        ensures IsSpace(g[k])
      {
        assert SpaceAt(h, cut.m + k);
      }
    }
  }

  // Where there is a match, there is a first one.
  lemma {:induction false} NoFirstNoMatch(h: seq<Byte>, x: seq<Byte>, k: int)
    requires x != [] && 0 <= k && forall cut :: !IsCut(h, 0, x, cut)
    ensures NoMatch(x, h, 0, k + 1)
    decreases k
  {
    if k > 0 {
      NoFirstNoMatch(h, x, k - 1);
    }
    assert !IsCut(h, 0, x, Cut(k, k + |x|));
  }

  // How much white-space there is at the end.
  function Trailing(h: seq<Byte>): (r: nat)
    ensures r <= |h| && (forall k | |h| - r <= k < |h| :: IsSpace(h[k]))
    ensures r < |h| ==> !IsSpace(h[|h| - r - 1])
  {
    if h == [] || !IsSpace(h[|h| - 1]) then 0 else 1 + Trailing(h[..|h| - 1])
  }

  ghost predicate Word(p: seq<Byte>) {
    forall k | 0 <= k < |p| :: !IsSpace(p[k])
  }

  // Without a separator the pieces are free of white-space. The first one is empty exactly if there is nothing in front
  // of the first white-space. Of the others, exactly as many are empty as there are white-space characters at the end,
  // and these are the last ones.
  lemma {:induction false} WordsAndSpaces(h: seq<Byte>)
    ensures var ps := Pieces(h, []);
      && |ps| > Trailing(h) && (Trailing(h) == |h| ==> |ps| == |h| + 1)
      && (forall i | 0 <= i < |ps| :: Word(ps[i]))
      && (ps[0] == [] <==> h == [] || IsSpace(h[0]))
      && (forall i | 0 < i < |ps| :: ps[i] == [] <==> i >= |ps| - Trailing(h))
    decreases |h|
  {
    if exists cut :: IsCut(h, 0, [], cut) {
      var cut :| IsCut(h, 0, [], cut) && Pieces(h, []) == [h[..cut.m]] + Pieces(h[cut.j..], []);
      WordsAndSpaces(h[cut.j..]);
      FirstWord(h, cut);
      TrailingAfter(h, cut);
    } else {
      NoSpace(h);
    }
  }

  lemma FirstWord(h: seq<Byte>, cut: Cut)
    requires SpaceRun(h, 0, cut)
    ensures Word(h[..cut.m]) && h != [] && (cut.m == 0 <==> IsSpace(h[0]))
  {
    assert SpaceAt(h, cut.m);
    forall k | 0 <= k < cut.m
      ensures !IsSpace(h[k])
    {
      assert !SpaceAt(h, k);
    }
  }

  lemma TrailingAfter(h: seq<Byte>, cut: Cut)
    requires SpaceRun(h, 0, cut)
    ensures var rest := h[cut.j..];
      if rest == [] || IsSpace(rest[0]) then
        Trailing(h) == |h| - cut.m == |rest| + 1 && Trailing(rest) == |rest|
      else
        Trailing(h) == Trailing(rest) < |rest|
  {
    var rest, r := h[cut.j..], Trailing(h);
    assert rest != [] ==> (IsSpace(rest[0]) <==> SpaceAt(h, cut.j));
    if rest == [] || IsSpace(rest[0]) {
      forall k | cut.m <= k < |h|
        ensures IsSpace(h[k])
      {
        assert SpaceAt(h, k);
      }
      assert cut.m > 0 ==> !SpaceAt(h, cut.m - 1);
      AllTrailing(h, cut.m);
      AllTrailing(rest, 0);
    } else {
      TrailingOf(h, cut.j);
    }
  }

  lemma AllTrailing(h: seq<Byte>, m: nat)
    requires m <= |h| && (forall k | m <= k < |h| :: IsSpace(h[k])) && (m > 0 ==> !IsSpace(h[m - 1]))
    ensures Trailing(h) == |h| - m
  {
  }

  lemma TrailingOf(h: seq<Byte>, j: nat)
    requires j < |h| && !IsSpace(h[j])
    ensures Trailing(h) == Trailing(h[j..]) < |h| - j
  {
    var r := Trailing(h[j..]);
    assert h[j..][0] == h[j];
    forall k | |h| - r <= k < |h|
      ensures IsSpace(h[k])
    {
      assert h[k] == h[j..][k - j];
    }
    assert h[|h| - r - 1] == h[j..][|h| - j - r - 1];
    AllTrailing(h, |h| - r);
  }

  // Where there is white-space, there is a cut.
  lemma NoSpace(h: seq<Byte>)
    requires forall cut :: !IsCut(h, 0, [], cut)
    ensures Word(h)
  {
    if k: nat :| k < |h| && IsSpace(h[k]) {
      var m := FirstWith(h, 0, true);
      assert SpaceAt(h, k) && m < |h| && SpaceAt(h, m);
      var e := FirstWith(h, m, false);
      assert e < |h| ==> !SpaceAt(h, e);
      assert SpaceRun(h, 0, Cut(m, if e == |h| then m + 1 else e));
      assert IsCut(h, 0, [], Cut(m, if e == |h| then m + 1 else e));
    }
  }

  // The first position from i on where white-space begins, or ends
  function FirstWith(h: seq<Byte>, i: nat, space: bool): (k: nat)
    requires i <= |h|
    ensures i <= k <= |h| && (k < |h| ==> IsSpace(h[k]) == space)
    ensures forall l | i <= l < k :: SpaceAt(h, l) != space
    decreases |h| - i
  {
    if i == |h| || IsSpace(h[i]) == space then i else FirstWith(h, i + 1, space)
  }

  // ----- Splitting once

  // What the scan for white-space knows when it reaches position q.
  ghost predicate Scanned(s: Stream, looking: bool, i: Iter, j: Iter, q: int)
    requires |s.all| == |s.starts| > 0
  {
    if looking then forall k | First(s) <= k < q :: !SpaceAt(s.hist, k)
    else
      && Normal(s, i) && i.bytes != null && Normal(s, j) && Pos(s, j) == Pos(s, i) + 1
      && First(s) <= Pos(s, i) < q
      && (forall k | First(s) <= k < Pos(s, i) :: !SpaceAt(s.hist, k))
      && (forall k | Pos(s, i) <= k < q :: SpaceAt(s.hist, k))
  }

  // The white-space case of split1.
  method FindSpace(b: Chunk, ghost s: Stream) returns (found: bool, i: Iter, j: Iter)
    requires Valid(s) && Head(s, b)
    ensures found ==> i.bytes != null && Normal(s, i) && Normal(s, j)
    ensures found ==> SpaceRun(s.hist, First(s), Cut(Pos(s, i), Pos(s, j)))
    ensures !found ==> forall k | First(s) <= k < |s.hist| :: !SpaceAt(s.hist, k)
  {
    hide Valid, WellFormed;
    Snapshot(s);
    FirstInBounds(s);
    i, j, found := Iter(null, 0), Iter(null, 0), false;
    var c: Chunk? := b;
    Walked(s, b);
    while c != null
      invariant c != null ==> Live(s, c)
      invariant First(s) <= From(s, c) && Scanned(s, !found, i, j, From(s, c))
      decreases if c == null then 0 else |s.all| - c.id
    {
      Walked(s, c);
      var done;
      done, found, i, j := ScanChunk(c, found, i, j, s);
      if done {
        return true, i, j;
      }
      c := c.next;
    }
  }

  // The scan of one chunk, which ends early at the first character after the white-space.
  method ScanChunk(c: Chunk, found: bool, i: Iter, j: Iter, ghost s: Stream)
    returns (done: bool, found': bool, i': Iter, j': Iter)
    requires Valid(s) && Live(s, c) && First(s) <= From(s, c) && Scanned(s, !found, i, j, From(s, c))
    ensures if done then
        && found' && i'.bytes != null && Normal(s, i') && Normal(s, j')
        && SpaceRun(s.hist, First(s), Cut(Pos(s, i'), Pos(s, j')))
      else
        Scanned(s, !found', i', j', From(s, c) + |c.data| - s.starts[c.id])
  {
    hide Valid, WellFormed;
    Snapshot(s);
    Walked(s, c);
    found', i', j' := found, i, j;
    var p := c.start;
    while p < |c.data|
      invariant c.start <= p <= |c.data|
      invariant Scanned(s, !found', i', j', From(s, c) + p - c.start)
    {
      NormalInRange(s, Iter(c, p));
      assert SpaceAt(s.hist, Pos(s, Iter(c, p))) == IsSpace(c.data[p]);
      if !found' {
        if IsSpace(c.data[p]) {
          i' := Iter(c, p);
          j' := Incr(i', s);
          found' := true;
        }
      } else if !IsSpace(c.data[p]) {
        return true, true, i', Iter(c, p);
      }
      p := p + 1;
    }
    done := false;
  }

  // Cuts of the content are cuts of the history, counted from the first live byte.
  lemma CutShift(s: Stream, h: seq<Byte>, x: seq<Byte>, cut: Cut)
    requires WellFormed(s) && Shows(s, h)
    ensures IsCut(h, 0, x, cut) <==> IsCut(s.hist, First(s), x, Cut(cut.m + First(s), cut.j + First(s)))
  {
    var f := First(s);
    SliceAtIs(h, s.hist, f);
    if x != [] {
      forall k | 0 <= k
        ensures SliceAt(x, h, k) <==> SliceAt(x, s.hist, k + f)
      {
        SliceOf(x, s.hist, f, |s.hist|, k);
      }
      assert NoMatch(x, h, 0, cut.m) ==> NoMatch(x, s.hist, f, cut.m + f) by {
        if NoMatch(x, h, 0, cut.m) {
          forall k | f <= k < cut.m + f
            ensures !SliceAt(x, s.hist, k)
          {
            SliceOf(x, s.hist, f, |s.hist|, k - f);
          }
        }
      }
    } else {
      assert forall k | 0 <= k :: SpaceAt(h, k) <==> SpaceAt(s.hist, k + f);
      assert forall k | f <= k :: SpaceAt(s.hist, k) <==> SpaceAt(h, k - f);
    }
  }

  // Whether the search for x finds out everything about s: it gives up early only if a chunk before the first
  // match does not end with the separator's first byte.
  ghost predicate SearchGivesUp(s: Stream, x: seq<Byte>)
    requires |s.all| == |s.starts| > 0
  {
    x != [] && exists m :: FirstMatch(x, s.hist, First(s), m) && !Bridged(s, m, x[0])
  }

  // split1
  method Split1(b: Chunk, sep: Chunk, ghost s: Stream, ghost t: Stream, ghost x: seq<Byte>, ghost h: seq<Byte>)
    returns (found: bool, first: Chunk, second: Chunk, ghost s1: Stream, ghost s2: Stream, ghost cut: Cut)
    requires Valid(s) && Head(s, b) && Shows(s, h) && Valid(t) && Head(t, sep) && Shows(t, x)
    ensures Valid(s1) && Head(s1, first) && Valid(s2) && Head(s2, second) && fresh(second)
    ensures found ==> IsCut(h, 0, x, cut) && 0 <= cut.m < cut.j <= |h| && !SearchGivesUp(s, x)
    ensures found ==> Shows(s1, h[..cut.m]) && Shows(s2, h[cut.j..]) && |s2.all| == 1
    ensures !found ==> first == b && s1 == s && Shows(s2, [])
    ensures !found ==> SearchGivesUp(s, x) || forall cut :: !IsCut(h, 0, x, cut)
  {
    hide Valid, WellFormed;
    Snapshot(s);
    Snapshot(t);
    cut := Cut(0, 0);
    var i, j;
    found, i, j := LocateCut(b, sep, s, t, x, h);
    if !found {
      first, s1 := b, s;
      second, s2 := New([]);
      return;
    }
    cut := Cut(Pos(s, i) - First(s), Pos(s, j) - First(s));
    first, s1 := SubFrom(b, i, s, h);
    second, s2 := SubTo(b, j, s, h);
  }

  // hlt_bytes_sub from the begin to i
  method SubFrom(b: Chunk, i: Iter, ghost s: Stream, ghost h: seq<Byte>) returns (r: Chunk, ghost t: Stream)
    requires Valid(s) && Head(s, b) && Shows(s, h) && Normal(s, i)
    ensures fresh(r) && Valid(t) && Head(t, r) && |t.all| == 1
    ensures 0 <= Pos(s, i) - First(s) <= |h| && Shows(t, h[..Pos(s, i) - First(s)])
  {
    NormalInRange(s, i);
    var begin := Begin(b, s);
    NormalInRange(s, begin);
    r, t := Sub(begin, i, s);
  }

  // hlt_bytes_sub from j to the end
  method SubTo(b: Chunk, j: Iter, ghost s: Stream, ghost h: seq<Byte>) returns (r: Chunk, ghost t: Stream)
    requires Valid(s) && Head(s, b) && Shows(s, h) && Normal(s, j)
    ensures fresh(r) && Valid(t) && Head(t, r) && |t.all| == 1
    ensures 0 <= Pos(s, j) - First(s) <= |h| && Shows(t, h[Pos(s, j) - First(s)..])
  {
    NormalInRange(s, j);
    var end := End(b, s);
    NormalInRange(s, end);
    r, t := Sub(j, end, s);
  }

  method LocateCut(b: Chunk, sep: Chunk, ghost s: Stream, ghost t: Stream, ghost x: seq<Byte>, ghost h: seq<Byte>)
    returns (found: bool, i: Iter, j: Iter)
    requires Valid(s) && Head(s, b) && Shows(s, h) && Valid(t) && Head(t, sep) && Shows(t, x)
    ensures found ==> Normal(s, i) && Normal(s, j) && !SearchGivesUp(s, x)
    ensures found ==> IsCut(h, 0, x, Cut(Pos(s, i) - First(s), Pos(s, j) - First(s)))
    ensures !found ==> SearchGivesUp(s, x) || forall cut :: !IsCut(h, 0, x, cut)
  {
    hide Valid, WellFormed;
    Snapshot(s);
    Snapshot(t);
    var sepLen := Len(sep, t);
    Walked(t, sep);
    if sepLen > 0 {
      i, found := FindBytes(b, sep, s, t, x);
      j := i;
      if found {
        j := IncrBy(i, sepLen, s);
        OneFirstMatch(s, x, Pos(s, i));
      } else {
        forall cut | IsCut(h, 0, x, cut)
          ensures SearchGivesUp(s, x)
        {
          CutShift(s, h, x, cut);
          assert !Reaches(s, x, cut.m + First(s));
        }
      }
    } else {
      found, i, j := FindSpace(b, s);
      forall cut | IsCut(h, 0, x, cut)
        ensures found
      {
        CutShift(s, h, x, cut);
        assert SpaceAt(s.hist, cut.m + First(s));
      }
    }
    if found {
      CutShift(s, h, x, Cut(Pos(s, i) - First(s), Pos(s, j) - First(s)));
    }
  }

  lemma OneFirstMatch(s: Stream, x: seq<Byte>, m: int)
    requires |s.all| == |s.starts| > 0 && Reaches(s, x, m)
    ensures !SearchGivesUp(s, x)
  {
  }

  // ----- Splitting completely

  // An object of a single chunk is always searched to the end.
  lemma SingleChunkComplete(s: Stream, x: seq<Byte>)
    requires WellFormed(s) && |s.all| == 1
    ensures !SearchGivesUp(s, x)
  {
  }

  lemma PiecesStep(h: seq<Byte>, x: seq<Byte>, cut: Cut)
    requires IsCut(h, 0, x, cut)
    ensures 0 <= cut.m < cut.j <= |h| && Pieces(h, x) == [h[..cut.m]] + Pieces(h[cut.j..], x)
  {
    var c :| IsCut(h, 0, x, c) && Pieces(h, x) == [h[..c.m]] + Pieces(h[c.j..], x);
    CutUnique(h, 0, x, c, cut);
  }

  // What the loop still has to produce from an object with content h.
  ghost function Expected(s: Stream, x: seq<Byte>, h: seq<Byte>): seq<seq<Byte>>
    requires |s.all| == |s.starts| > 0
  {
    if SearchGivesUp(s, x) then [h] else Pieces(h, x)
  }

  // The k-th object holds the k-th piece.
  ghost predicate Holds(v: seq<Chunk>, ts: seq<Stream>, ps: seq<seq<Byte>>) {
    |v| == |ts| == |ps| && forall k | 0 <= k < |v| :: Head(ts[k], v[k]) && Shows(ts[k], ps[k])
  }

  // hlt_bytes_split: for every object that the search gets through, the pieces of its flat content; otherwise
  // the object itself.
  method Split(b: Chunk, sep: Chunk, ghost s: Stream, ghost t: Stream, ghost x: seq<Byte>, ghost h: seq<Byte>)
    returns (v: seq<Chunk>, ghost ts: seq<Stream>, ghost ps: seq<seq<Byte>>)
    requires Valid(s) && Head(s, b) && Shows(s, h) && Valid(t) && Head(t, sep) && Shows(t, x)
    ensures Holds(v, ts, ps) && forall k | 0 <= k < |ts| :: Valid(ts[k])
    ensures ps == if SearchGivesUp(s, x) then [h] else Pieces(h, x)
  {
    hide WellFormed, Holds, Shows, Expected, IsCut;
    v, ts, ps := [], [], [];
    HoldsNothing();
    var rest := b;
    ghost var r, g := s, h;
    while true
      invariant Valid(r) && Head(r, rest) && Shows(r, g) && Valid(t)
      invariant Holds(v, ts, ps) && forall k | 0 <= k < |ts| :: Valid(ts[k])
      invariant ps + Expected(r, x, g) == Expected(s, x, h)
      decreases |g|
    {
      var found, first, second;
      ghost var s1, s2, cut;
      found, first, second, s1, s2, cut := Split1(rest, sep, r, t, x, g);
      if !found {
        HoldsMore(v, ts, ps, rest, r, g);
        LastPiece(r, x, g);
        v, ts, ps := v + [rest], ts + [r], ps + [g];
        WholeContent(s, x, h);
        return;
      }
      NextPiece(r, s2, x, g, cut);
      HoldsMore(v, ts, ps, first, s1, g[..cut.m]);
      v, ts, ps := v + [first], ts + [s1], ps + [g[..cut.m]];
      rest, r, g := second, s2, g[cut.j..];
    }
  }

  lemma HoldsNothing()
    ensures Holds([], [], [])
  {
  }

  lemma HoldsMore(v: seq<Chunk>, ts: seq<Stream>, ps: seq<seq<Byte>>, c: Chunk, t: Stream, p: seq<Byte>)
    requires Holds(v, ts, ps) && Head(t, c) && Shows(t, p)
    requires Valid(t) && forall k | 0 <= k < |ts| :: Valid(ts[k])
    ensures Holds(v + [c], ts + [t], ps + [p]) && forall k | 0 <= k < |ts| + 1 :: Valid((ts + [t])[k])
  {
  }

  lemma WholeContent(s: Stream, x: seq<Byte>, h: seq<Byte>)
    requires |s.all| == |s.starts| > 0
    ensures Expected(s, x, h) == if SearchGivesUp(s, x) then [h] else Pieces(h, x)
  {
  }

  lemma LastPiece(r: Stream, x: seq<Byte>, g: seq<Byte>)
    requires |r.all| == |r.starts| > 0
    requires SearchGivesUp(r, x) || forall cut :: !IsCut(g, 0, x, cut)
    ensures Expected(r, x, g) == [g]
  {
  }

  lemma NextPiece(r: Stream, r': Stream, x: seq<Byte>, g: seq<Byte>, cut: Cut)
    requires |r.all| == |r.starts| > 0 && Valid(r') && |r'.all| == 1
    requires IsCut(g, 0, x, cut) && !SearchGivesUp(r, x)
    ensures 0 <= cut.m < cut.j <= |g| && Expected(r, x, g) == [g[..cut.m]] + Expected(r', x, g[cut.j..])
  {
    PiecesStep(g, x, cut);
    SingleChunkComplete(r', x);
  }

  // ----- Comparing

  // a comes before b in the lexicographic order of signed bytes.
  ghost predicate LexLess(a: seq<Byte>, b: seq<Byte>) {
    exists k: nat :: LexLessAt(a, b, k)
  }

  ghost predicate LexLessAt(a: seq<Byte>, b: seq<Byte>, k: nat) {
    Agree(a, b, k) && k < |b| && (k < |a| ==> a[k] < b[k])
  }

  ghost predicate Agree(a: seq<Byte>, b: seq<Byte>, k: nat) {
    k <= |a| && k <= |b| && forall i | 0 <= i < k :: a[i] == b[i]
  }

  // Exactly one of two contents comes first, or they are the same.
  lemma LexTrichotomy(a: seq<Byte>, b: seq<Byte>)
    ensures a == b || LexLess(a, b) || LexLess(b, a)
    ensures LexLess(a, b) ==> a != b && !LexLess(b, a)
  {
    LexTotal(a, b, 0);
  }

  lemma {:induction false} LexTotal(a: seq<Byte>, b: seq<Byte>, k: nat)
    requires Agree(a, b, k)
    ensures a == b || LexLess(a, b) || LexLess(b, a)
    decreases |a| - k
  {
    if k < |a| && k < |b| && a[k] == b[k] {
      LexTotal(a, b, k + 1);
    } else {
      assert LexLessAt(a, b, k) || LexLessAt(b, a, k) || (k == |a| == |b| && a == b);
    }
  }

  // hlt_bytes_cmp: 0 for equal contents, and otherwise the opposite of what its documentation says: 1 if b1
  // comes first, -1 if b2 does.
  method Cmp(b1: Chunk, b2: Chunk, ghost s1: Stream, ghost s2: Stream, ghost h1: seq<Byte>, ghost h2: seq<Byte>)
    returns (r: int)
    requires Valid(s1) && Head(s1, b1) && Shows(s1, h1) && Valid(s2) && Head(s2, b2) && Shows(s2, h2)
    ensures r in {-1, 0, 1}
    ensures r == 0 <==> h1 == h2
    ensures r == 1 <==> LexLess(h1, h2)
    ensures r == -1 <==> LexLess(h2, h1)
  {
    var empty1 := IsEmpty(b1, s1);
    var empty2 := IsEmpty(b2, s2);
    if empty1 || empty2 {
      r := if empty1 then (if empty2 then 0 else 1) else -1;
      CmpDecided(h1, h2, 0, r);
      return;
    }
    r := CmpLoop(b1, b2, s1, s2, h1, h2);
  }

  method CmpLoop(b1: Chunk, b2: Chunk, ghost s1: Stream, ghost s2: Stream, ghost h1: seq<Byte>, ghost h2: seq<Byte>)
    returns (r: int)
    requires Valid(s1) && Head(s1, b1) && Shows(s1, h1) && Valid(s2) && Head(s2, b2) && Shows(s2, h2)
    ensures r in {-1, 0, 1}
    ensures r == 0 <==> h1 == h2
    ensures r == 1 <==> LexLess(h1, h2)
    ensures r == -1 <==> LexLess(h2, h1)
  {
    hide Valid, WellFormed;
    var p1 := Begin(b1, s1);
    var p2 := Begin(b2, s2);
    ghost var k := 0;
    while true
      invariant Normal(s1, p1) && Normal(s2, p2) && p1.bytes != null && p2.bytes != null
      invariant Pos(s1, p1) == First(s1) + k && Pos(s2, p2) == First(s2) + k && Agree(h1, h2, k)
      decreases |h1| - k
    {
      var end1 := IsEnd(p1, s1);
      var end2 := IsEnd(p2, s2);
      if end1 || end2 {
        r := if end1 then (if end2 then 0 else 1) else -1;
        CmpDecided(h1, h2, k, r);
        return;
      }
      var c1 := Peek(p1, s1);
      var c2 := Peek(p2, s2);
      if c1 != c2 {
        r := if c1 > c2 then -1 else 1;
        CmpDecided(h1, h2, k, r);
        return;
      }
      p1 := Incr(p1, s1);
      p2 := Incr(p2, s2);
      k := k + 1;
    }
  }

  lemma CmpDecided(h1: seq<Byte>, h2: seq<Byte>, k: nat, r: int)
    requires Agree(h1, h2, k)
    requires k < |h1| && k < |h2| ==> h1[k] != h2[k]
    requires r == if k == |h1| && k == |h2| then 0
                  else if k == |h1| || (k < |h2| && h1[k] < h2[k]) then 1 else -1
    ensures r == 0 <==> h1 == h2
    ensures r == 1 <==> LexLess(h1, h2)
    ensures r == -1 <==> LexLess(h2, h1)
  {
    if r == 1 {
      assert LexLessAt(h1, h2, k);
      LexTrichotomy(h1, h2);
    } else if r == -1 {
      assert LexLessAt(h2, h1, k);
      LexTrichotomy(h2, h1);
    } else {
      assert h1 == h2;
    }
  }
}
