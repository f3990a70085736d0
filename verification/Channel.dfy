/**
  Channels (libhilti/channel.c): a queue of items in a chain of chunks, of which the reader is in the first and the
  writer in the last. A bounded channel refuses items when it is full. Critical sections are atomic steps.
*/
module Channel {
  import opened Wrappers

  type Item(0)

  const INITIAL_CHUNK_SIZE := 256
  const MAX_CHUNK_SIZE := 16384

  datatype Refusal = WouldBlock

  class Chunk {
    const capacity: nat
    var wcnt: nat
    var rcnt: nat
    const data: array<Item>
    var next: Chunk?
    ghost const base: nat     // how many items have been written to the channel before this chunk

    // _hlt_chunk_create
    constructor (capacity: nat, ghost base: nat)
      ensures this.capacity == capacity && this.base == base && wcnt == 0 && rcnt == 0 && next == null
      ensures data.Length == capacity && fresh(data)
    {
      this.capacity, this.base, wcnt, rcnt, next := capacity, base, 0, 0, null;
      data := new Item[capacity];
    }
  }

  // ----- The size of the next chunk

  // The halving loop of _hlt_channel_write_item
  function Halved(cap: nat, room: nat): (r: nat)
    ensures r <= room || r == cap
  {
    if cap > room then Halved(cap / 2, room) else cap
  }

  // The new chunk fits into the room there is, and holds at least an item exactly if there is room for one.
  lemma {:induction false} HalvedFits(cap: nat, room: nat)
    requires cap >= 1
    ensures Halved(cap, room) <= room && (Halved(cap, room) >= 1 <==> room >= 1)
    ensures cap > room ==> 2 * Halved(cap, room) + 1 > room
  {
    if cap > room {
      if cap / 2 >= 1 {
        HalvedFits(cap / 2, room);
      }
    }
  }

  function HalvedTimes(cap: nat, k: nat): nat {
    if k == 0 then cap else HalvedTimes(cap / 2, k - 1)
  }

  // It is the previous size, halved k times and no more often than that takes.
  lemma {:induction false} HalvedOften(cap: nat, room: nat) returns (k: nat)
    ensures Halved(cap, room) == HalvedTimes(cap, k) <= room && forall j: nat | j < k :: HalvedTimes(cap, j) > room
  {
    if cap <= room {
      return 0;
    }
    var j := HalvedOften(cap / 2, room);
    return j + 1;
  }

  // ----- The chain

  ghost function At(chunks: seq<Chunk>, i: int): Chunk? {
    if 0 <= i < |chunks| then chunks[i] else null
  }

  // A chunk of the chain: only the first has been read from, only the last may have room. The chunks hold what has
  // been written, one stretch after the other.
  ghost predicate ChunkOk(c: Chunk, next: Chunk?, first: bool, written: seq<Item>)
    reads c, c.data
  {
    && c.rcnt <= c.wcnt <= c.capacity == c.data.Length && 1 <= c.capacity && c.base + c.wcnt <= |written|
    && (!first ==> c.rcnt == 0) && c.next == next
    && (forall k | 0 <= k < c.wcnt :: c.data[k] == written[c.base + k])
    && (if next != null then c.wcnt == c.capacity && next.base == c.base + c.capacity
        else c.base + c.wcnt == |written|)
  }

  ghost predicate OkAt(chunks: seq<Chunk>, written: seq<Item>, i: nat)
    reads At(chunks, i), if i < |chunks| then {chunks[i].data} else {}
  {
    i < |chunks| ==> ChunkOk(chunks[i], At(chunks, i + 1), i == 0, written)
  }

  lemma OnlyChunk(c: Chunk)
    requires ChunkOk(c, null, true, [])
    ensures forall i: nat :: OkAt([c], [], i)
  {
  }

  // A chunk before the last does not care what is written later.
  lemma WriteLater(chunks: seq<Chunk>, written: seq<Item>, i: nat, x: Item)
    requires OkAt(chunks, written, i) && i + 1 < |chunks|
    ensures OkAt(chunks, written + [x], i)
  {
  }

  class Shared {
    const capacity: nat             // 0 for unbounded
    var size: int
    var chunkCap: nat
    var rc: Chunk
    var wc: Chunk
    var head: nat                   // in the data of rc
    var tail: nat                   // in the data of wc
    ghost var chunks: seq<Chunk>    // from rc to wc
    ghost var written: seq<Item>    // all items ever written
    var refCnt: int
    ghost var handles: set<nat>     // the channel objects sharing this state

    ghost function Repr(): set<object>
      reads this`chunks, chunks
    {
      (set c: Chunk | c in chunks :: c as object) + (set c: Chunk | c in chunks :: c.data as object)
    }

    lemma InRepr()
      ensures forall c | c in chunks :: c in Repr() && c.data in Repr()
    {
    }

    ghost predicate Valid()
      reads this`chunkCap, this`rc, this`wc, this`head, this`tail, this`size, this`chunks, this`written
      reads chunks, rc, set c: Chunk | c in chunks :: c.data
    {
      Linked() && CapOk()
    }

    // The chain holds the items, whether or not there are too many.
    ghost predicate Linked()
      reads this`rc, this`wc, this`head, this`tail, this`size, this`chunks, this`written
      reads chunks, rc, set c: Chunk | c in chunks :: c.data
    {
      && chunks != [] && rc == chunks[0] && wc == chunks[|chunks| - 1]
      && (forall i, j | 0 <= i < j < |chunks| :: chunks[i] != chunks[j] && chunks[i].data != chunks[j].data)
      && (forall i: nat | i < |chunks| :: OkAt(chunks, written, i))
      && head == rc.rcnt && tail == wc.wcnt && size == |written| - ReadSoFar()
    }

    // The size of the next chunk stays between one item and the maximum, and a bounded channel's bound is kept.
    ghost predicate CapOk()
      reads this`size, this`chunkCap
    {
      && chunkCap >= 1
      && (capacity > 0 ==> size <= capacity)
      && (capacity == 0 ==> chunkCap in {256, 512, 1024, 2048, 4096, 8192, MAX_CHUNK_SIZE})
    }

    ghost function ReadSoFar(): nat
      reads this`rc, rc
    {
      rc.base + rc.rcnt
    }

    // The items still to be read
    ghost function Contents(): seq<Item>
      reads this`chunkCap, this`rc, this`wc, this`head, this`tail, this`size, this`chunks, this`written
      reads chunks, rc, set c: Chunk | c in chunks :: c.data
      requires Valid()
    {
      assert OkAt(chunks, written, 0);
      written[ReadSoFar()..]
    }

    lemma SizeIs()
      requires Valid()
      ensures size == |Contents()| && ReadSoFar() <= |written| && wc.wcnt <= wc.capacity && wc in chunks
    {
      assert OkAt(chunks, written, 0) && OkAt(chunks, written, |chunks| - 1);
    }

    // _hlt_channel_init
    constructor (capacity: nat, ghost handle: nat)
      ensures Valid() && fresh(Repr()) && this.capacity == capacity && written == [] && Contents() == []
      ensures Counted() && handles == {handle}
    {
      hide Valid, Contents, Repr, Counted;
      this.capacity := capacity;
      refCnt, handles := 1, {handle};
      size := 0;
      chunkCap := INITIAL_CHUNK_SIZE;
      var c := new Chunk(INITIAL_CHUNK_SIZE, 0);
      rc, wc, head, tail := c, c, 0, 0;
      chunks, written := [c], [];
      new;
      OneChunk();
      OneRepr();
      OneHandle(handle);
    }

    lemma OneHandle(handle: nat)
      requires refCnt == 1 && handles == {handle}
      ensures Counted()
    {
    }

    // A channel of one chunk, with nothing written
    lemma OneChunk()
      requires chunks == [wc] && rc == wc && written == [] && head == tail == size == 0
      requires wc.rcnt == wc.wcnt == wc.base == 0 && wc.next == null
      requires chunkCap == wc.capacity == wc.data.Length == INITIAL_CHUNK_SIZE
      ensures Valid() && Contents() == []
    {
      OnlyChunk(wc);
    }

    lemma OneRepr()
      requires chunks == [wc]
      ensures Repr() == {wc, wc.data}
    {
      assert chunks[0] in chunks && forall c | c in chunks :: c == wc;
      InRepr();
      forall o | o in Repr()
        ensures o in {wc, wc.data}
      {
      }
    }

    // _hlt_channel_read_item: the assertion on the next chunk holds.
    method ReadItem() returns (item: Item)
      requires Valid() && size > 0
      modifies this`rc, this`head, this`size, this`chunks, chunks`rcnt
      ensures Valid() && (chunks == old(chunks) || chunks == old(chunks)[1..]) && written == old(written)
      ensures item == old(Contents())[0] && Contents() == old(Contents())[1..]
    {
      assert OkAt(chunks, written, 0);
      hide ChunkOk;
      if rc.rcnt == rc.capacity {
        NextThere();
        assert rc.next != null;
        Advance();
      }
      item := TakeItem();
    }

    lemma NextThere()
      requires Valid() && size > 0
      ensures rc.rcnt <= rc.capacity
      ensures rc.rcnt == rc.capacity ==> |chunks| > 1 && rc.next == chunks[1]
    {
      assert OkAt(chunks, written, 0);
    }

    method Advance()
      requires Valid() && size > 0 && rc.rcnt == rc.capacity && rc.next != null
      modifies this`rc, this`head, this`chunks
      ensures Valid() && Contents() == old(Contents()) && chunks == old(chunks)[1..] && rc.rcnt < rc.capacity
    {
      ghost var was := chunks;
      assert OkAt(was, written, 0) && OkAt(was, written, 1);
      rc := rc.next;
      head := 0;
      chunks := chunks[1..];
      forall i: nat | i < |chunks|
        ensures OkAt(chunks, written, i)
      {
        assert old(OkAt(was, written, i + 1));
        assert chunks[i] == was[i + 1] && At(chunks, i + 1) == At(was, i + 2);
      }
    }

    method TakeItem() returns (item: Item)
      requires Valid() && size > 0 && rc.rcnt < rc.capacity
      modifies this`head, this`size, rc`rcnt
      ensures Valid() && item == old(Contents())[0] && Contents() == old(Contents())[1..]
    {
      assert OkAt(chunks, written, 0);
      assert rc.rcnt < rc.wcnt;
      item := rc.data[head];
      rc.rcnt := rc.rcnt + 1;
      head := head + 1;
      size := size - 1;
      assert OkAt(chunks, written, 0);
      hide ChunkOk;
      forall i: nat | i < |chunks|
        ensures OkAt(chunks, written, i)
      {
        assert old(OkAt(chunks, written, i));
      }
    }

    // _hlt_channel_write_item, with room for an item
    method WriteItem(x: Item)
      requires Valid() && (capacity > 0 ==> size < capacity)
      modifies this, Repr()
      ensures Valid() && fresh(Repr() - old(Repr())) && written == old(written) + [x]
      ensures Contents() == old(Contents()) + [x]
    {
      hide Linked, ChunkOk, OkAt;
      SizeIs();
      InRepr();
      ghost var r := ReadSoFar();
      if wc.wcnt == wc.capacity {
        NextChunk();
      }
      PutItem(x);
      assert written[r..] == old(written)[r..] + [x];
    }

    // hlt_channel_write: if a bounded channel is full, it does not wait. Then the item is one too many; or, if the
    // last chunk is full as well, the next one would have no room at all, and the item would be written beyond it,
    // which is as far as this method goes.
    method Write(x: Item) returns (stored: bool)
      requires Valid()
      modifies this, Repr()
      ensures Valid() <==> !(capacity > 0 && |old(Contents())| == capacity)
      ensures Valid() ==> Contents() == old(Contents()) + [x] && fresh(Repr() - old(Repr()))
      ensures stored <==> !(capacity > 0 && |old(Contents())| == capacity && old(wc.wcnt == wc.capacity))
      ensures stored ==> Linked() && written == old(written) + [x] && size == |old(Contents())| + 1
      ensures !stored ==> chunkCap == 0 && Linked() && written == old(written) && size == |old(Contents())|
    {
      hide ChunkOk, OkAt;
      SizeIs();
      InRepr();
      ghost var r := ReadSoFar();
      if wc.wcnt < wc.capacity {
        PutItem(x);
        assert written[r..] == old(written)[r..] + [x];
        return true;
      }
      if capacity > 0 && size == capacity {
        HalvedFits(chunkCap, 0);
        ResizeChunk();
        return false;
      }
      NextChunk();
      PutItem(x);
      assert written[r..] == old(written)[r..] + [x];
      return true;
    }

    // A full bounded channel gets a size of 0.
    method ResizeChunk()
      requires CapOk() && size >= 0
      modifies this`chunkCap
      ensures (capacity > 0 ==> size < capacity) ==> CapOk()
      ensures chunkCap == if capacity > 0 then Halved(old(chunkCap), capacity - size)
                          else if old(chunkCap) < MAX_CHUNK_SIZE then 2 * old(chunkCap) else old(chunkCap)
    {
      if capacity > 0 {
        HalvedFits(chunkCap, capacity - size);
        while chunkCap > capacity - size
          invariant Halved(chunkCap, capacity - size) == Halved(old(chunkCap), capacity - size)
        {
          chunkCap := chunkCap / 2;
        }
      } else if chunkCap < MAX_CHUNK_SIZE {
        chunkCap := chunkCap * 2;
      }
    }

    method NextChunk()
      requires Valid() && 0 <= size && (capacity > 0 ==> size < capacity) && wc.wcnt == wc.capacity
      modifies this`chunkCap, this`wc, this`tail, this`chunks, wc`next
      ensures Valid() && wc.wcnt < wc.capacity && fresh(wc) && fresh(wc.data) && chunks == old(chunks) + [wc]
      ensures ReadSoFar() == old(ReadSoFar()) && fresh(Repr() - old(Repr()))
    {
      hide Linked, ChunkOk, OkAt;
      ResizeChunk();
      AddChunk();
    }

    method AddChunk()
      requires Linked() && wc.wcnt == wc.capacity && chunkCap >= 1
      modifies this`wc, this`tail, this`chunks, wc`next
      ensures Linked() && wc.wcnt < wc.capacity && fresh(wc) && fresh(wc.data) && chunks == old(chunks) + [wc]
      ensures ReadSoFar() == old(ReadSoFar())
    {
      ghost var was := chunks;
      assert OkAt(was, written, |was| - 1);
      var c := new Chunk(chunkCap, |written|);
      wc.next := c;
      wc := c;
      tail := 0;
      chunks := chunks + [c];
      assert OkAt(chunks, written, |was|) && OkAt(chunks, written, |was| - 1);
      hide ChunkOk;
      forall i: nat | i < |chunks|
        ensures OkAt(chunks, written, i)
      {
        assert i < |was| - 1 ==> old(OkAt(was, written, i)) && At(chunks, i + 1) == At(was, i + 1);
      }
    }

    method PutItem(x: Item)
      requires Linked() && wc.wcnt < wc.capacity
      modifies this`tail, this`size, this`written, wc`wcnt, wc.data
      ensures Linked() && written == old(written) + [x] && size == old(size) + 1 && ReadSoFar() == old(ReadSoFar())
    {
      ghost var was := written;
      assert OkAt(chunks, written, |chunks| - 1);
      wc.data[tail] := x;
      wc.wcnt := wc.wcnt + 1;
      tail := tail + 1;
      size := size + 1;
      written := written + [x];
      assert OkAt(chunks, written, |chunks| - 1);
      hide ChunkOk;
      forall i: nat | i < |chunks|
        ensures OkAt(chunks, written, i)
      {
        if i < |chunks| - 1 {
          assert old(OkAt(chunks, was, i));
          WriteLater(chunks, was, i, x);
        }
      }
    }

    // hlt_channel_write_try
    method WriteTry(x: Item) returns (r: Result<(), Refusal>)
      requires Valid()
      modifies this, Repr()
      ensures Valid() && fresh(Repr() - old(Repr()))
      ensures r.Err? <==> capacity > 0 && |old(Contents())| == capacity
      ensures Contents() == if r.Err? then old(Contents()) else old(Contents()) + [x]
    {
      SizeIs();
      if capacity > 0 && size == capacity {
        return Err(WouldBlock);
      }
      WriteItem(x);
      return Ok(());
    }

    // hlt_channel_read_try
    method ReadTry() returns (r: Result<Item, Refusal>)
      requires Valid()
      modifies this`rc, this`head, this`size, this`chunks, chunks`rcnt
      ensures Valid() && (chunks == old(chunks) || chunks == old(chunks)[1..])
      ensures r.Err? <==> old(Contents()) == []
      ensures if r.Err? then Contents() == [] else old(Contents()) == [r.value] + Contents()
      ensures Repr() <= old(Repr())
    {
      SizeIs();
      if size == 0 {
        return Err(WouldBlock);
      }
      var item := ReadItem();
      assert forall c | c in chunks :: c in old(chunks);
      return Ok(item);
    }

    // hlt_channel_size
    method Size() returns (n: int)
      requires Valid()
      ensures n == |Contents()| && (capacity > 0 ==> n <= capacity)
    {
      SizeIs();
      return size;
    }
  
    // The reference count is the number of channel objects.
    ghost predicate Counted()
      reads this`refCnt, this`handles
    {
      refCnt == |handles|
    }

    // hlt_channel_clone_init
    method Clone(ghost handle: nat)
      requires Counted() && handle !in handles
      modifies this`refCnt, this`handles
      ensures Counted() && handles == old(handles) + {handle}
    {
      refCnt := refCnt + 1;
      handles := handles + {handle};
    }

    // hlt_channel_dtor: the last channel object to go, and no other, drains the queue and frees the state.
    method Destroy(ghost handle: nat) returns (freed: bool)
      requires Valid() && Counted() && handle in handles
      modifies this`refCnt, this`handles, this`rc, this`head, this`size, this`chunks, chunks`rcnt
      ensures Valid() && Counted() && handles == old(handles) - {handle}
      ensures freed <==> handles == {}
      ensures if freed then Contents() == [] else Contents() == old(Contents())
    {
      DropRef(handle);
      if refCnt > 0 {
        return false;
      }
      Drain();
      return true;
    }

    method Drain()
      requires Valid()
      modifies this`rc, this`head, this`size, this`chunks, chunks`rcnt
      ensures Valid() && Contents() == []
    {
      SizeIs();
      ghost var k := 0;
      while size > 0
        invariant Valid() && size >= 0 && 0 <= k < |old(chunks)| && chunks == old(chunks)[k..]
        decreases size
      {
        assert forall c | c in chunks :: c in old(chunks);
        k := k + |chunks|;
        var item := ReadItem();
        k := k - |chunks|;
        SizeIs();
      }
      SizeIs();
    }

    method DropRef(ghost handle: nat)
      requires Valid() && Counted() && handle in handles
      modifies this`refCnt, this`handles
      ensures Valid() && Counted() && handles == old(handles) - {handle} && Contents() == old(Contents())
      ensures refCnt == 0 <==> handles == {}
    {
      hide ChunkOk;
      refCnt := refCnt - 1;
      handles := handles - {handle};
    }
  }

  // ----- Runs

  datatype Op = Write(item: Item) | Read

  // What a run of write_try and read_try hands out, and what it leaves in the queue
  function Run(queue: seq<Item>, capacity: nat, ops: seq<Op>): (r: (seq<Item>, seq<Item>))
    decreases |ops|
  {
    if ops == [] then ([], queue)
    else match ops[0]
      case Write(x) => Run(if capacity > 0 && |queue| == capacity then queue else queue + [x], capacity, ops[1..])
      case Read =>
        if queue == [] then Run(queue, capacity, ops[1..])
        else
          var (out, left) := Run(queue[1..], capacity, ops[1..]);
          ([queue[0]] + out, left)
  }

  // What is let in, if there are n items to begin with: a write counts unless the channel is bounded and full.
  function Accepted(n: nat, capacity: nat, ops: seq<Op>): seq<Item>
    decreases |ops|
  {
    if ops == [] then []
    else match ops[0]
      case Write(x) =>
        if capacity > 0 && n == capacity then Accepted(n, capacity, ops[1..])
        else [x] + Accepted(n + 1, capacity, ops[1..])
      case Read => Accepted(if n == 0 then 0 else n - 1, capacity, ops[1..])
  }

  // How many reads find an item
  function Served(n: nat, capacity: nat, ops: seq<Op>): nat
    decreases |ops|
  {
    if ops == [] then 0
    else match ops[0]
      case Write(_) => Served(if capacity > 0 && n == capacity then n else n + 1, capacity, ops[1..])
      case Read => if n == 0 then Served(0, capacity, ops[1..]) else 1 + Served(n - 1, capacity, ops[1..])
  }

  // Items come out in the order they went in, one for each read that finds any; none is lost, and the bound is kept.
  lemma {:induction false} FirstInFirstOut(queue: seq<Item>, capacity: nat, ops: seq<Op>)
    requires capacity > 0 ==> |queue| <= capacity
    ensures var (out, left) := Run(queue, capacity, ops);
      && out + left == queue + Accepted(|queue|, capacity, ops) && |out| == Served(|queue|, capacity, ops)
      && (capacity > 0 ==> |left| <= capacity)
    decreases |ops|
  {
    if ops == [] {
      assert [] + queue == queue + [];
    } else {
      match ops[0]
      case Write(x) =>
        var next := if capacity > 0 && |queue| == capacity then queue else queue + [x];
        FirstInFirstOut(next, capacity, ops[1..]);
        var rest := Accepted(|next|, capacity, ops[1..]);
        assert queue + ([x] + rest) == queue + [x] + rest;
      case Read =>
        if queue == [] {
          FirstInFirstOut(queue, capacity, ops[1..]);
        } else {
          FirstInFirstOut(queue[1..], capacity, ops[1..]);
          var (out, left) := Run(queue[1..], capacity, ops[1..]);
          var rest := Accepted(|queue| - 1, capacity, ops[1..]);
          assert [queue[0]] + out + left == [queue[0]] + (out + left);
          assert queue + rest == [queue[0]] + (queue[1..] + rest);
        }
    }
  }

  // One operation hands out `out` and leaves `left`.
  ghost predicate OneIs(queue: seq<Item>, capacity: nat, op: Op, out: seq<Item>, left: seq<Item>) {
    match op
    case Write(x) => out == [] && left == if capacity > 0 && |queue| == capacity then queue else queue + [x]
    case Read => |out| <= 1 && queue == out + left && (out == [] ==> left == [])
  }

  lemma RunOne(queue: seq<Item>, capacity: nat, ops: seq<Op>, out: seq<Item>, left: seq<Item>)
    requires ops != [] && OneIs(queue, capacity, ops[0], out, left)
    ensures Run(queue, capacity, ops) ==
      (out + Run(left, capacity, ops[1..]).0, Run(left, capacity, ops[1..]).1)
  {
    match ops[0]
    case Write(x) =>
      assert out + Run(left, capacity, ops[1..]).0 == Run(left, capacity, ops[1..]).0;
    case Read =>
      if queue == [] {
        assert out + Run(left, capacity, ops[1..]).0 == Run(left, capacity, ops[1..]).0;
      } else {
        assert queue[1..] == left && out == [queue[0]];
      }
  }

  lemma RunNone(queue: seq<Item>, capacity: nat)
    ensures Run(queue, capacity, []) == ([], queue)
  {
  }

  method PerformOne(ch: Shared, op: Op) returns (out: seq<Item>)
    requires ch.Valid()
    modifies ch, ch.Repr()
    ensures ch.Valid() && fresh(ch.Repr() - old(ch.Repr()))
    ensures OneIs(old(ch.Contents()), ch.capacity, op, out, ch.Contents())
  {
    hide Shared.Valid, Shared.Contents, Shared.Repr;
    ch.InRepr();
    out := [];
    match op {
      case Write(x) =>
        var r := ch.WriteTry(x);
      case Read =>
        var r := ch.ReadTry();
        if r.Ok? {
          out := [r.value];
        }
    }
  }

  // Over every run, what comes out of a channel is what the run says, in the order it went in, and the rest stays.
  method Perform(ch: Shared, ops: seq<Op>) returns (out: seq<Item>)
    requires ch.Valid()
    modifies ch, ch.Repr()
    ensures ch.Valid() && fresh(ch.Repr() - old(ch.Repr()))
    ensures (out, ch.Contents()) == Run(old(ch.Contents()), ch.capacity, ops)
    ensures out + ch.Contents() == old(ch.Contents()) + Accepted(|old(ch.Contents())|, ch.capacity, ops)
    ensures |out| == Served(|old(ch.Contents())|, ch.capacity, ops)
    ensures ch.capacity > 0 ==> |ch.Contents()| <= ch.capacity
  {
    var n := ch.Size();
    FirstInFirstOut(ch.Contents(), ch.capacity, ops);
    out := PerformAll(ch, ops);
  }

  method PerformAll(ch: Shared, ops: seq<Op>) returns (out: seq<Item>)
    requires ch.Valid()
    modifies ch, ch.Repr()
    ensures ch.Valid() && fresh(ch.Repr() - old(ch.Repr()))
    ensures (out, ch.Contents()) == Run(old(ch.Contents()), ch.capacity, ops)
    decreases |ops|
  {
    hide Shared.Valid, Shared.Contents, Run;
    ghost var queue := ch.Contents();
    if ops == [] {
      RunNone(queue, ch.capacity);
      return [];
    }
    var first := PerformOne(ch, ops[0]);
    RunOne(queue, ch.capacity, ops, first, ch.Contents());
    out := PerformAll(ch, ops[1..]);
    out := first + out;
  }
}
