/**
  Marks on bytes objects that have not been trimmed. A mark is an offset stored with a chunk; one at the end of
  the data has to move on to the next chunk as soon as there is one, since an iterator at that position does.
*/
module ByteMarks {
  import opened Wrappers
  import opened ByteStream

  ghost predicate TrimFree(s: Stream) {
    |s.all| == |s.starts| && s.cut == 1 && forall i | 0 <= i < |s.starts| :: s.starts[i] == 0
  }

  // The chunks store the marks ms.
  ghost predicate Stores(s: Stream, ms: seq<seq<int>>)
    reads s.all
  {
    |ms| == |s.all| && forall i | 0 <= i < |ms| :: s.all[i].marks == ms[i]
  }

  // The stored marks denote exactly the absolute positions in `at`.
  ghost predicate Denotes(s: Stream, ms: seq<seq<int>>, at: set<int>) {
    && |ms| == |s.all|
    && (forall i | 0 <= i < |ms| :: RowOk(s, ms, i))
    && (forall i, k | EntryAt(ms, i, k) :: EntryPos(s, ms, i, k) in at)
    && (forall p | p in at :: HasEntry(s, ms, p))
  }

  ghost predicate EntryAt(ms: seq<seq<int>>, i: int, k: int) {
    0 <= i < |ms| && 0 <= k < |ms[i]| && ms[i][k] >= 0
  }

  ghost function EntryPos(s: Stream, ms: seq<seq<int>>, i: int, k: int): int
    requires EntryAt(ms, i, k) && |ms| == |s.all|
  {
    s.all[i].base + ms[i][k]
  }

  ghost predicate HasEntry(s: Stream, ms: seq<seq<int>>, p: int)
    requires |ms| == |s.all|
  {
    exists i, k :: EntryAt(ms, i, k) && EntryPos(s, ms, i, k) == p
  }

  // Offsets lie within the data, ascend, and reach its end only in the last chunk; the others are deleted (-2).
  ghost predicate RowOk(s: Stream, ms: seq<seq<int>>, i: nat)
    requires i < |ms| == |s.all|
  {
    && (forall k | 0 <= k < |ms[i]| :: EntryOk(s, i, ms[i][k]))
    && (forall k, l | 0 <= k < l < |ms[i]| && ms[i][k] >= 0 && ms[i][l] >= 0 :: ms[i][k] <= ms[i][l])
  }

  ghost predicate EntryOk(s: Stream, i: nat, m: int)
    requires i < |s.all|
  {
    if m < 0 then m == -2 && i < |s.all| - 1
    else m <= |s.all[i].data| && (i < |s.all| - 1 ==> m < |s.all[i].data|)
  }

  // The state of a trim-free bytes object with marks at the given positions.
  ghost predicate Marked(s: Stream, at: set<int>)
    reads s.all
  {
    TrimFree(s) && Denotes(s, RowsOf(s), at)
  }

  ghost function RowsOf(s: Stream): (ms: seq<seq<int>>)
    reads s.all
    ensures Stores(s, ms)
  {
    seq(|s.all|, i requires 0 <= i < |s.all| reads s.all => s.all[i].marks)
  }

  lemma RowsUnique(s: Stream, ms: seq<seq<int>>)
    requires Stores(s, ms)
    ensures RowsOf(s) == ms
  {
  }

  // hlt_bytes_new: no marks
  lemma NewMarked(s: Stream, b: Chunk)
    requires s == Stream([b], [0], 1, b.data, false) && b.marks == []
    ensures Marked(s, {})
  {
  }

  // hlt_bytes_append_mark: a mark at the current length
  method AppendMark(b: Chunk, ghost s: Stream, ghost at: set<int>)
    requires Valid(s) && Head(s, b) && Marked(s, at)
    modifies s.all
    ensures Valid(s) && Marked(s, at + {|s.hist|})
    ensures NoneDeleted(Tail(s).marks)
  {
    var tail := TailOf(b, s);
    Fields(s, tail);
    ghost var ms, n := RowsOf(s), |s.all| - 1;
    assert RowOk(s, ms, n);
    AppendMarkTo(tail, -1);
    ghost var ms' := ms[n := ms[n] + [|tail.data|]];
    forall i | 0 <= i < |s.all|
      ensures InSync(s, i) && s.all[i].marks == ms'[i]
    {
      assert old(InSync(s, i)) && Tile(s, i);
    }
    RowsUnique(s, ms');
    AddEntry(s, ms, ms', at);
  }

  lemma AddEntry(s: Stream, ms: seq<seq<int>>, ms': seq<seq<int>>, at: set<int>)
    requires WellFormed(s) && Denotes(s, ms, at) && |s.all| > 0
    requires ms' == ms[|ms| - 1 := ms[|ms| - 1] + [|Tail(s).data|]]
    ensures Denotes(s, ms', at + {|s.hist|})
  {
    var n := |ms| - 1;
    forall i | 0 <= i < |ms'|
      ensures RowOk(s, ms', i)
    {
      assert RowOk(s, ms, i);
    }
    forall i, k | EntryAt(ms', i, k)
      ensures EntryPos(s, ms', i, k) in at + {|s.hist|}
    {
      if i < n || k < |ms[n]| {
        assert EntryAt(ms, i, k);
      }
    }
    forall p | p in at + {|s.hist|}
      ensures HasEntry(s, ms', p)
    {
      if p in at {
        var i, k :| EntryAt(ms, i, k) && EntryPos(s, ms, i, k) == p;
        assert EntryAt(ms', i, k);
      } else {
        assert EntryAt(ms', n, |ms[n]|);
      }
    }
  }

  // hlt_bytes_append_raw leaves every mark where it is, although a mark at the end changes chunks.
  method AppendRawMarked(b: Chunk, raw: seq<Byte>, ghost s: Stream, ghost at: set<int>)
    returns (r: Result<(), Problem>, ghost s': Stream)
    requires Valid(s) && Head(s, b) && Marked(s, at)
    modifies s.all
    ensures Valid(s') && Head(s', b) && Marked(s', at)
    ensures Abs(s') == View(if s.frozen then s.hist else s.hist + raw, First(s), s.frozen)
    ensures Extends(s, s') && (s' == s || (s'.all == s.all + [Tail(s')] && fresh(Tail(s'))))
  {
    hide Denotes, RowOk, Moved, Kept;
    ghost var ms := RowsOf(s);
    LastRow(s, ms, at);
    r, s' := AppendRaw(b, raw, s);
    if raw != [] && !s.frozen {
      ghost var c := Tail(s');
      ghost var ms' := MovedRows(s, ms);
      forall i | 0 <= i < |s'.all|
        ensures s'.all[i].marks == ms'[i]
      {
        if i < |s.all| {
          assert Tile(s, i) && Tile(s, |s.all| - 1);
        }
      }
      RowsUnique(s', ms');
      MoveEntries(s, c, ms, at);
    } else {
      RowsUnique(s, ms);
    }
  }

  lemma LastRow(s: Stream, ms: seq<seq<int>>, at: set<int>)
    requires Denotes(s, ms, at) && |s.all| > 0
    ensures NoneDeleted(ms[|ms| - 1])
  {
    assert RowOk(s, ms, |ms| - 1);
  }

  ghost function MovedRows(s: Stream, ms: seq<seq<int>>): seq<seq<int>>
    requires |ms| == |s.all| > 0
  {
    var n, len := |ms| - 1, |Tail(s).data|;
    ms[n := Kept(ms[n], len)] + [Moved(ms[n], len)]
  }

  ghost predicate Zeros(x: seq<int>) {
    forall k | 0 <= k < |x| :: x[k] == 0
  }

  lemma {:induction false} MovedZeros(marks: seq<int>, len: nat)
    requires forall k | 0 <= k < |marks| :: marks[k] <= len
    ensures Zeros(Moved(marks, len))
    ensures Moved(marks, len) != [] <==> exists k :: 0 <= k < |marks| && marks[k] == len
  {
    if marks != [] {
      MovedZeros(marks[1..], len);
      assert marks == [marks[0]] + marks[1..];
      if exists k :: 0 <= k < |marks| && marks[k] == len {
        var k :| 0 <= k < |marks| && marks[k] == len;
        assert k > 0 ==> marks[1..][k - 1] == len;
      }
      if marks[0] != len && Moved(marks, len) != [] {
        var k :| 0 <= k < |marks[1..]| && marks[1..][k] == len;
        assert marks[k + 1] == len;
      }
    }
  }

  lemma MoveEntries(s: Stream, c: Chunk, ms: seq<seq<int>>, at: set<int>)
    requires WellFormed(s) && Denotes(s, ms, at) && c.base == |s.hist| && c.data != []
    ensures Denotes(Appended(s, c), MovedRows(s, ms), at)
  {
    var s', ms', n, len := Appended(s, c), MovedRows(s, ms), |ms| - 1, |Tail(s).data|;
    assert RowOk(s, ms, n);
    assert forall k | 0 <= k < |ms[n]| :: EntryOk(s, n, ms[n][k]);
    MovedZeros(ms[n], len);
    forall i | 0 <= i < |ms'|
      ensures RowOk(s', ms', i)
    {
      MovedRowOk(s, c, ms, i);
    }
    hide RowOk, MovedRows;
    forall i, k | EntryAt(ms', i, k)
      ensures EntryPos(s', ms', i, k) in at
    {
      MovedFrom(s, c, ms, at, i, k);
    }
    forall p | p in at
      ensures HasEntry(s', ms', p)
    {
      MovedTo(s, c, ms, at, p);
    }
  }

  // Each entry of the new chunk comes from one at the end of the old last chunk, and the others have stayed.
  lemma MovedFrom(s: Stream, c: Chunk, ms: seq<seq<int>>, at: set<int>, i: int, k: int)
    requires WellFormed(s) && Denotes(s, ms, at) && c.base == |s.hist| && EntryAt(MovedRows(s, ms), i, k)
    requires var x, len := ms[|ms| - 1], |Tail(s).data|;
      Zeros(Moved(x, len)) && (Moved(x, len) != [] ==> exists l :: 0 <= l < |x| && x[l] == len)
    ensures EntryPos(Appended(s, c), MovedRows(s, ms), i, k) in at
  {
    var n := |ms| - 1;
    if i <= n {
      assert EntryAt(ms, i, k) && EntryPos(s, ms, i, k) in at;
    } else {
      var l :| 0 <= l < |ms[n]| && ms[n][l] == |Tail(s).data|;
      assert EntryAt(ms, n, l) && EntryPos(s, ms, n, l) in at;
    }
  }

  lemma MovedTo(s: Stream, c: Chunk, ms: seq<seq<int>>, at: set<int>, p: int)
    requires WellFormed(s) && Denotes(s, ms, at) && c.base == |s.hist| && p in at
    requires var x, len := ms[|ms| - 1], |Tail(s).data|;
      Zeros(Moved(x, len)) && (Moved(x, len) != [] <==> exists l :: 0 <= l < |x| && x[l] == len)
    ensures HasEntry(Appended(s, c), MovedRows(s, ms), p)
  {
    var ms', n := MovedRows(s, ms), |ms| - 1;
    assert HasEntry(s, ms, p);
    var i, k :| EntryAt(ms, i, k) && EntryPos(s, ms, i, k) == p;
    assert RowOk(s, ms, i);
    if i < n || ms[n][k] < |Tail(s).data| {
      assert EntryAt(ms', i, k);
    } else {
      assert EntryOk(s, i, ms[i][k]);
      assert EntryAt(ms', n + 1, 0);
    }
  }

  lemma MovedRowOk(s: Stream, c: Chunk, ms: seq<seq<int>>, i: nat)
    requires |ms| == |s.all| > 0 && i <= |ms| && (i < |ms| ==> RowOk(s, ms, i))
    requires Zeros(Moved(ms[|ms| - 1], |Tail(s).data|))
    ensures RowOk(Appended(s, c), MovedRows(s, ms), i)
  {
  }

  // hlt_bytes_at_mark
  method AtMark(i: Iter, ghost s: Stream, ghost at: set<int>) returns (r: bool)
    requires Valid(s) && InRange(s, i) && Marked(s, at)
    ensures r <==> i.bytes != null && Pos(s, i) in at
  {
    var p := NormalizeIter(i, s);
    if p.bytes == null {
      return false;
    }
    Fields(s, p.bytes);
    ghost var ms, n := RowsOf(s), p.bytes.id;
    r := false;
    var k := 0;
    while k < |p.bytes.marks| && !r
      invariant 0 <= k <= |p.bytes.marks|
      invariant r ==> Pos(s, p) in at
      invariant !r ==> forall l | 0 <= l < k :: ms[n][l] != p.cur
    {
      if p.bytes.marks[k] == p.cur - p.bytes.start {
        assert EntryAt(ms, n, k) && EntryPos(s, ms, n, k) in at;
        r := true;
      }
      k := k + 1;
    }
    if !r {
      forall j, l | EntryAt(ms, j, l)
        ensures EntryPos(s, ms, j, l) != Pos(s, p)
      {
        EntryChunk(s, ms, at, j, l, p);
      }
      assert Pos(s, p) in at ==> HasEntry(s, ms, Pos(s, p));
    }
  }

  // The mark at a position is stored with the chunk that the position's normal form is in.
  lemma EntryChunk(s: Stream, ms: seq<seq<int>>, at: set<int>, j: int, l: int, p: Iter)
    requires WellFormed(s) && TrimFree(s) && Denotes(s, ms, at) && EntryAt(ms, j, l) && Normal(s, p) && p.bytes != null
    ensures j < p.bytes.id ==> EntryPos(s, ms, j, l) < Pos(s, p)
    ensures j > p.bytes.id ==> EntryPos(s, ms, j, l) > Pos(s, p)
    ensures j == p.bytes.id ==> EntryPos(s, ms, j, l) - Pos(s, p) == ms[j][l] - p.cur
  {
    assert RowOk(s, ms, j);
    assert EntryOk(s, j, ms[j][l]);
    Ordered(s, j, p.bytes.id);
    assert Tile(s, j) && Tile(s, |s.all| - 1);
  }

  // r is the first mark after position p, or the end.
  ghost predicate NextOf(at: set<int>, p: int, end: int, r: int) {
    if exists q :: q in at && q > p then r in at && r > p && forall q | q in at && q > p :: r <= q
    else r == end
  }

  // No mark after p has been passed when the search reaches offset c of chunk n.
  ghost predicate NonePassed(s: Stream, ms: seq<seq<int>>, p: int, n: int)
    requires |ms| == |s.all|
  {
    forall i, k | EntryAt(ms, i, k) && i < n :: EntryPos(s, ms, i, k) <= p
  }

  // hlt_bytes_next_mark
  method NextMark(i: Iter, ghost s: Stream, ghost at: set<int>) returns (r: Iter)
    requires Valid(s) && InRange(s, i) && i.bytes != null && Marked(s, at)
    ensures r.bytes != null && Normal(s, r) && NextOf(at, Pos(s, i), |s.hist|, Pos(s, r))
  {
    var p := NormalizeIter(i, s);
    ghost var ms := RowsOf(s);
    NormalInRange(s, p);
    forall j, l | EntryAt(ms, j, l) && j < p.bytes.id
      ensures EntryPos(s, ms, j, l) <= Pos(s, p)
    {
      EntryChunk(s, ms, at, j, l, p);
    }
    r := SearchFrom(p, s, ms, at);
  }

  method SearchFrom(p: Iter, ghost s: Stream, ghost ms: seq<seq<int>>, ghost at: set<int>) returns (r: Iter)
    requires Valid(s) && Normal(s, p) && p.bytes != null && 0 <= p.cur && TrimFree(s) && Stores(s, ms)
    requires SearchAt(s, ms, at, Pos(s, p), p.bytes.id, p.cur + 1)
    ensures r.bytes != null && Normal(s, r) && NextOf(at, Pos(s, p), |s.hist|, Pos(s, r))
  {
    var b: Chunk, c := p.bytes, p.cur + 1;
    while true
      invariant Live(s, b) && SearchAt(s, ms, at, Pos(s, p), b.id, c)
      invariant b == p.bytes || (Pos(s, p) < b.base && c == 0)
      decreases |s.all| - b.id
    {
      Fields(s, b);
      var found, k := FindMark(b, c, s, ms, at);
      if found {
        r := Iter(b, b.start + b.marks[k]);
        assert RowOk(s, ms, b.id);
        assert EntryOk(s, b.id, ms[b.id][k]);
        FirstFound(s, ms, at, Pos(s, p), b.id, c, k);
        return;
      }
      if b.next == null {
        r := Iter(b, |b.data|);
        NotFound(s, ms, at, Pos(s, p), b.id, c);
        return;
      }
      PassChunk(s, ms, at, Pos(s, p), b.id, c);
      Fields(s, b.next);
      Ordered(s, p.bytes.id, b.next.id);
      NormalInRange(s, p);
      b := b.next;
      c := b.start;
    }
  }

  // The loop over one chunk's marks: the first that is not before offset c.
  method FindMark(b: Chunk, c: int, ghost s: Stream, ghost ms: seq<seq<int>>, ghost at: set<int>)
    returns (found: bool, k: nat)
    requires Valid(s) && Live(s, b) && TrimFree(s) && Stores(s, ms) && c >= 0
    ensures b.marks == ms[b.id]
    ensures if found then k < |b.marks| && b.marks[k] >= c && Below(ms[b.id], k, c) else Below(ms[b.id], |ms[b.id]|, c)
  {
    Fields(s, b);
    k := 0;
    while k < |b.marks|
      invariant 0 <= k <= |b.marks| && Below(ms[b.id], k, c)
    {
      if b.marks[k] >= c - b.start {
        return true, k;
      }
      k := k + 1;
    }
    found := false;
  }

  ghost predicate Below(row: seq<int>, k: nat, c: int) {
    k <= |row| && forall l | 0 <= l < k :: row[l] < c
  }

  // Position p lies just before offset c of chunk n.
  ghost predicate SearchAt(s: Stream, ms: seq<seq<int>>, at: set<int>, p: int, n: nat, c: int) {
    && WellFormed(s) && Denotes(s, ms, at) && n < |ms| && NonePassed(s, ms, p, n)
    && c >= 0 && (if c > 0 then s.all[n].base + c == p + 1 else p < s.all[n].base)
  }

  lemma FirstFound(s: Stream, ms: seq<seq<int>>, at: set<int>, p: int, n: nat, c: int, k: nat)
    requires SearchAt(s, ms, at, p, n, c) && k < |ms[n]| && ms[n][k] >= c && Below(ms[n], k, c)
    ensures NextOf(at, p, |s.hist|, s.all[n].base + ms[n][k])
  {
    assert EntryAt(ms, n, k) && EntryPos(s, ms, n, k) in at;
    assert RowOk(s, ms, n);
    assert EntryOk(s, n, ms[n][k]);
    forall q | q in at && q > p
      ensures s.all[n].base + ms[n][k] <= q
    {
      assert HasEntry(s, ms, q);
      var i, l :| EntryAt(ms, i, l) && EntryPos(s, ms, i, l) == q;
      Ordered(s, n, i);
    }
  }

  lemma PassChunk(s: Stream, ms: seq<seq<int>>, at: set<int>, p: int, n: nat, c: int)
    requires SearchAt(s, ms, at, p, n, c) && Below(ms[n], |ms[n]|, c)
    ensures NonePassed(s, ms, p, n + 1)
  {
  }

  lemma NotFound(s: Stream, ms: seq<seq<int>>, at: set<int>, p: int, n: nat, c: int)
    requires SearchAt(s, ms, at, p, n, c) && Below(ms[n], |ms[n]|, c) && n == |ms| - 1
    ensures NextOf(at, p, |s.hist|, |s.hist|)
  {
  }

  // ----- Runs of appends and marks

  datatype MarkOp = AddData(data: seq<Byte>) | AddMark | SetFreeze(on: bool)

  // The lengths the object has had whenever a mark was appended; it starts with n bytes.
  function Recorded(n: nat, frozen: bool, ops: seq<MarkOp>): set<int>
    decreases |ops|
  {
    if ops == [] then {}
    else
      match ops[0]
      case AddData(data) => Recorded(if frozen then n else n + |data|, frozen, ops[1..])
      case AddMark => {n} + Recorded(n, frozen, ops[1..])
      case SetFreeze(on) => Recorded(n, on, ops[1..])
  }

  // Everything a run appends.
  function Data(frozen: bool, ops: seq<MarkOp>): seq<Byte>
    decreases |ops|
  {
    if ops == [] then []
    else
      match ops[0]
      case AddData(data) => (if frozen then [] else data) + Data(frozen, ops[1..])
      case AddMark => Data(frozen, ops[1..])
      case SetFreeze(on) => Data(on, ops[1..])
  }

  method PerformOne(b: Chunk, op: MarkOp, ghost s: Stream, ghost at: set<int>) returns (ghost s': Stream)
    requires Valid(s) && Head(s, b) && Marked(s, at)
    modifies s.all
    ensures Valid(s') && Head(s', b) && Marked(s', at + if op.AddMark? then {|s.hist|} else {})
    ensures Extends(s, s') && Abs(s') == View(
      if op.AddData? && !s.frozen then s.hist + op.data else s.hist,
      First(s),
      if op.SetFreeze? then op.on else s.frozen)
    ensures forall i | 0 <= i < |s'.all| :: s'.all[i] in s.all || fresh(s'.all[i])
  {
    hide Denotes, Valid, TrimFree;
    s' := s;
    match op {
      case AddData(data) =>
        var r;
        r, s' := AppendRawMarked(b, data, s, at);
      case AddMark =>
        AppendMark(b, s, at);
      case SetFreeze(on) =>
        s' := SetFrozenMarked(b, on, s, at);
    }
    assert at + {} == at;
  }

  // hlt_bytes_freeze leaves the marks alone.
  method SetFrozenMarked(b: Chunk, on: bool, ghost s: Stream, ghost at: set<int>) returns (ghost s': Stream)
    requires Valid(s) && Head(s, b) && Marked(s, at)
    modifies s.all`frozen
    ensures s' == s.(frozen := on) && Valid(s') && Marked(s', at) && First(s') == First(s)
  {
    ghost var ms := RowsOf(s);
    s' := SetFrozen(b, on, s);
    RowsUnique(s', ms);
    FrozenDenotes(s, on, ms, at);
  }

  lemma FrozenDenotes(s: Stream, on: bool, ms: seq<seq<int>>, at: set<int>)
    requires Denotes(s, ms, at)
    ensures Denotes(s.(frozen := on), ms, at)
  {
    hide EntryAt;
    var s' := s.(frozen := on);
    forall i | 0 <= i < |ms|
      ensures RowOk(s', ms, i)
    {
      assert RowOk(s, ms, i);
      assert forall k | 0 <= k < |ms[i]| :: EntryOk(s, i, ms[i][k]) && EntryOk(s', i, ms[i][k]);
    }
    forall i, k | EntryAt(ms, i, k)
      ensures EntryPos(s', ms, i, k) in at
    {
      assert EntryPos(s, ms, i, k) in at;
    }
    forall p | p in at
      ensures HasEntry(s', ms, p)
    {
      var i, k :| EntryAt(ms, i, k) && EntryPos(s, ms, i, k) == p;
      assert EntryPos(s', ms, i, k) == p;
    }
  }

  method PerformAll(b: Chunk, ops: seq<MarkOp>, ghost s: Stream, ghost at: set<int>) returns (ghost s': Stream)
    requires Valid(s) && Head(s, b) && Marked(s, at)
    modifies s.all
    ensures Valid(s') && Head(s', b) && Marked(s', at + Recorded(|s.hist|, s.frozen, ops))
    ensures Extends(s, s') && s'.hist == s.hist + Data(s.frozen, ops) && First(s') == First(s)
    ensures forall i | 0 <= i < |s'.all| :: s'.all[i] in s.all || fresh(s'.all[i])
    decreases |ops|
  {
    hide Marked, Valid;
    s' := s;
    if ops == [] {
      assert at + {} == at && s.hist + [] == s.hist;
      return;
    }
    ghost var now := if ops[0].AddMark? then {|s.hist|} else {};
    s' := PerformOne(b, ops[0], s, at);
    ghost var h, data := s'.hist, Data(s'.frozen, ops[1..]);
    ghost var later := Recorded(|h|, s'.frozen, ops[1..]);
    s' := PerformAll(b, ops[1..], s', at + now);
    assert at + now + later == at + (now + later);
    assert ops[0].AddData? && !s.frozen ==> s.hist + ops[0].data + data == s.hist + (ops[0].data + data);
    assert now + later == Recorded(|s.hist|, s.frozen, ops);
  }

  lemma StillInRange(s: Stream, s': Stream, i: Iter)
    requires WellFormed(s') && Extends(s, s') && InRange(s, i) && i.bytes != null && First(s') == First(s)
    ensures InRange(s', i) && Pos(s', i) == Pos(s, i)
  {
  }

  // Over every run, from a new object (which has no marks) or any other: the marks seen through an iterator, however
  // old, are those there were and those at the lengths the object had when they were appended; and the next mark is
  // the least of them behind the iterator.
  method Perform(b: Chunk, ops: seq<MarkOp>, i: Iter, ghost s: Stream, ghost at: set<int>)
    returns (marked: bool, next: Iter, ghost s': Stream)
    requires Valid(s) && Head(s, b) && Marked(s, at) && InRange(s, i) && i.bytes != null
    modifies s.all
    ensures Valid(s') && Head(s', b) && InRange(s', i)
    ensures First(s') == First(s) && s'.hist == s.hist + Data(s.frozen, ops)
    ensures marked <==> Pos(s, i) in at + Recorded(|s.hist|, s.frozen, ops)
    ensures next.bytes != null && Normal(s', next)
    ensures NextOf(at + Recorded(|s.hist|, s.frozen, ops), Pos(s, i), |s'.hist|, Pos(s', next))
  {
    Snapshot(s);
    hide Valid, Marked, Recorded, Data, NextOf, InRange, Normal;
    ghost var all := at + Recorded(|s.hist|, s.frozen, ops);
    s' := PerformAll(b, ops, s, at);
    Snapshot(s');
    StillInRange(s, s', i);
    marked := AtMark(i, s', all);
    next := NextMark(i, s', all);
  }
}
