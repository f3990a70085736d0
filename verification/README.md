# HILTI runtime and AST: a verified model

A Dafny model of the data structures at the heart of HILTI: the runtime's byte streams, files, clones, lists,
channels, fibers and classifiers (`libhilti/`), the graph of AST nodes with its visitors and class masks (`ast/`), and
the flow information of blocks (`hilti/`). Where the original updates objects in place, the model does so as well: a
class or an array with the same fields, changed by methods with the same loops and branches. Each method is proved
against a function of the old state, and the properties the original relies on are proved about these functions.
`dafny verify dfyconfig.toml` checks everything.

## What is modelled

- **Byte streams** (`ByteStream`, `ByteRuns`, `ByteBeyond`, `ByteSlices`, `ByteSearch`, `ByteSplit`, `ByteMarks`):
  chains of chunks that grow at the end and are trimmed at the front. The methods carry a ghost snapshot (`Stream`)
  with all chunks there ever were and all bytes ever appended, `hist`. An iterator denotes an absolute position in
  `hist`, independently of the heap, and `Valid` says that the chunks in memory agree with the snapshot. All
  operations are then stated about slices of `hist`, so that the chunking never shows, except where it does (see
  below). `ByteRuns` and `ByteMarks` then perform whole runs on the chunks and look at what an old iterator sees.
- **Binary integers** (`Integers`): decoding 1 to 8 bytes in both byte orders, flipping, and powers.
- **Shared files** (`FileProtocol`, `FileHistory`, `FileManager`): a state machine over the critical sections of all
  threads and the manager, with one record per path; the class has the same steps over mutable fields. The invariant
  accounts for every writer: `writers == sessions + pending closes + dropped closes`.
- **Cloning** (`Clone`, `Cloner`): the memoised deep copy and the shallow copy, as a function over heaps and as the
  recursion that updates its state in place. `Go` is a walk of the source graph alone that decides whether the deep
  copy will be right.
- **AST nodes** (`AstNode`, `AstRuns`, `AstCells`, `AstSearch`, `AstVisitor`, `AstReverse`): the parent and child
  lists of a multigraph that may be cyclic, searches with visited sets, and traversals.
- **Lists** (`List`, `ListRuns`): doubly linked, with iterators, invalidation and timers, and any runs of edits on
  them.
- **Channels** (`Channel`): a queue over chunks of changing size, runs on it, and its reference count.
- **Fibers** (`Fiber`, `FiberJobs`, `FiberDiscard`, `FiberPool`): the life cycle as a state machine over what `setjmp`
  and `longjmp` do, with pools per thread and a global one; what is read without the lock is an arbitrary argument.
  The pointer loops of the pools, and creating and deleting a fiber as a whole, are proved against the state machine's
  steps.
- **Flow information** (`Flow`): the summaries of blocks with a semantics of straight-line execution, and the removal
  of useless statements.
- **Classifiers** (`Classifier`) and **class masks** (`Rtti`): the fast forms against bit-by-bit agreement and against
  the recursive walk.
- `Wrappers` and `Sequences` hold what several modules use.

## Where the code does not do what it promises

The model follows the code. Each of these is proved, with the exact condition or a concrete input:

- `__hlt_bytes_extract_one` compares pointers without normalising the end iterator. If data has been appended since
  the end iterator was taken, the fast path hands out a byte beyond it (`ByteSlices.OverrunExample`). It is safe
  whenever the end is in normal form (`ByteSlices.NormalEndIsSafe`).
- `__hlt_bytes_find_byte_from` shadows its result in the loop over the following chunks, so that a search over several
  chunks gives up early. Exactly when is stated by `ByteSearch.FindBytes`; `ByteSearch.MissedExample` is an input.
- `hlt_bytes_cmp` has the opposite sign of what its documentation says (`ByteSplit.Cmp`).
- `hlt_bytes_sub_raw` reports failure although it has copied the range, if the buffer is larger than the range, and
  success although it has copied only a part, if the buffer is smaller (`ByteSlices.SubRaw`).
- `hlt_bytes_trim` at the end of the data keeps everything. Appending nothing succeeds on a frozen object with
  `hlt_bytes_append_raw`, but not with `hlt_bytes_append`.
- A position beyond the end, which iterators can record, is moved too far when some data arrives but not enough
  (`ByteBeyond.NormalizeRecorded`).
- Splitting at white-space cuts only the first character of a run at the end of the data.
- `hlt_bytes_to_uint_binary` (little-endian) and `hlt_bytes_to_int_binary` shift by the full width if there are no
  bytes at all, which is undefined in C; the model requires at least one byte there.
- `hlt_int_pow` keeps 32 bits of its result (`Integers.IntPowExact`).
- A close that the manager gets to see before the file is open, or after opening it has failed, is dropped. The record
  and its descriptor then stay until shutdown (`FileProtocol.LossExample`, `FileProtocol.LostStays`), and nothing else
  ever stays (`FileProtocol.LeftoversAreLost`).
- Deep copies memoise the first word of a tuple as if it were an object. Sharing with it is then lost, and cycles
  through it never end (`Clone.DeepCopyIff`, `Clone.PairIsGarbled`, `Clone.CycleNeverEnds`), although `clone.h`
  promises to preserve both. The destination of a clone is not initialised, so that what it held before may end up in
  the copy of a tuple (`Clone.ShallowTuple`).
- The copy constructor of a node leaves its children without their new parent (`AstNode.CopyLawIff`), and replacing
  through a slot cell that other slots share bypasses the bookkeeping (`AstCells.ReplaceLawIff`).
- The visitor's `reverse` only concerns the children of the start node (`AstVisitor.ReverseExample`). When that is all
  there is to reverse is stated by `AstReverse.ReverseIff` and `AstReverse.PalindromesSuffice`.
- `hlt_channel_write` does not wait for room in a bounded channel. The bound is then exceeded, or the item is written
  behind a chunk without room (`Channel.Shared.Write`, `Channel.HalvedFits`).
- With several threads, a fiber pool with a bound of 0 holds one fiber (`Fiber.BoundKeptIff`). Deleting a fiber that
  has not finished, together with its context, may keep it in a pool as it is. Unless it is idle, because its job was
  never started, whoever gets it next fails an assertion (`FiberDiscard.DiscardsIff`). Even then it is in the pool
  with its old job (`FiberDiscard.StaleJob`).
- A classifier's field of n bits is compared in n - 1 bits (`Classifier.LastBitIgnored`). A rule's field without bits,
  which the compiler makes of a field that is not set, is no wildcard in the code: it compares the byte in front of
  the data, a part of the number of bits (`Classifier.MatchSingleRule`). Priorities are compared in 32 bits; when that
  matters is stated by `Classifier.SortsIff`.

## Model

| member | source | states |
|---|---|---|
| ByteStream.NormalUnique | libhilti/bytes.c:215-235 | Every position before the end has exactly one normal representation: two normal iterators denote the same position if and only if they are equal. |
| ByteStream.NormalizeIter | libhilti/bytes.c:215-235 | For any iterator in range, however old, the result is the normal representation of the same absolute position, also when a chunk was appended behind an end iterator or the chunk was cut off by a trim. |
| ByteStream.StepPreservesPos | libhilti/bytes.c:215-235 | Moving from the end of a chunk to the first live byte of its successor does not change the absolute position: chunks tile the stream. |
| ByteStream.IsEnd | libhilti/bytes.c:112-116 | For a position in normal form, true exactly if it is after the last byte; an old end iterator that has meanwhile got a successor is not recognised. |
| ByteStream.IsEmpty | libhilti/bytes.c:177-188 | An object is empty exactly if everything has been trimmed (or nothing was ever appended). |
| ByteStream.TailOf | libhilti/bytes.c:77-90 | From any chunk, also one that a trim has cut off, the walk ends at the last chunk. |
| ByteStream.Begin | libhilti/bytes.c:864-875 | The begin iterator is the first position not trimmed away, in normal form. |
| ByteStream.End | libhilti/bytes.c:851-862 | The end iterator is the position after the last byte, in normal form, from any chunk of the chain. |
| ByteStream.Incr | libhilti/bytes.c:877-905 | One step moves to the next absolute position and stays at the end; the result is in normal form. |
| ByteStream.IncrBy | libhilti/bytes.c:907-950 | Moving by n over any number of chunks is n added to the absolute position, as long as that is within the data. |
| ByteStream.Deref | libhilti/bytes.c:952-962 | The byte at a position is the byte appended at that absolute position; the end raises a value error. |
| ByteStream.Eq | libhilti/bytes.c:964-971 | Two iterators are equal exactly if they denote the same absolute position, generic ends included. |
| ByteStream.Len | libhilti/bytes.c:259-267 | The lengths of all chunks add up to the number of bytes not trimmed away. |
| ByteStream.Index | libhilti/bytes.c:2445-2457 | The index of any iterator in range is its absolute stream position, whatever was appended or trimmed since; -1 for the generic end. |
| ByteStream.Diff | libhilti/bytes.c:974-993 | The distance of two iterators is the difference of their absolute positions, and 0 if they are in the wrong order. |
| ByteStream.Offset | libhilti/bytes.c:1433-1468 | Offset n is the nth position after the first live byte, or counted from the end if negative. |
| ByteStream.AppendMarkTo | libhilti/bytes.c:291-305 | A mark is recorded behind all earlier ones, at the given offset or at the current end of the chunk. |
| ByteStream.MoveMarks | libhilti/bytes.c:341-360 | Marks at the end of the old last chunk move to the start of the new one; all others stay. |
| ByteStream.AddChunk | libhilti/bytes.c:341-360 | A new chunk is linked in with the offset at which its first byte stands in the stream; every chunk keeps its place. |
| ByteStream.Chunk.constructor | libhilti/bytes.c:362-380 | A new chunk holds exactly its data, at offset 0, with no marks and no successor. |
| ByteStream.New | libhilti/bytes.c:547-556 | A new object has its data as its content, starting at position 0. |
| ByteStream.AppendRaw | libhilti/bytes.c:669-695 | The abstract stream grows by exactly the data; a frozen object refuses, unless there is nothing to append; all chunks and iterators keep their positions. |
| ByteStream.Pred | libhilti/bytes.c:191-197 | The predecessor of a live chunk is the live chunk that links to it. |
| ByteStream.TrimTo | libhilti/bytes.c:1522-1569 | If there is a byte at the position, it becomes exactly the first one, and every byte and position from it on stays; if the position is the end, nothing changes at all. Only the head may become empty. |
| ByteStream.SetFrozen | libhilti/bytes.c:1504-1520 | Freezing changes nothing but whether appending is refused. |
| ByteStream.RunKeepsPositions | libhilti/bytes.c:341-360 | Of the abstract object: over every run of appends, trims and freezes, absolute positions keep their bytes; the first live position is the furthest one that was trimmed to while there was a byte at it, or the old one; and the last byte is never trimmed. |
| ByteStream.RunContent | libhilti/bytes.c:1522-1569 | Of the abstract object: after any run the content is the old content followed by everything appended, minus exactly the bytes trimmed. |
| ByteStream.IterSurvives | libhilti/bytes.c:215-235 | In any later state of the object that is not trimmed past the iterator, it is in range, with the same absolute position and the same byte. |
| ByteStream.TrimForeign | libhilti/bytes.c:1522-1569 | An iterator of another object is refused with a value error and nothing changes, unless it is at the end of that object. |
| ByteRuns.PerformAll | libhilti/bytes.c:341-360 | Performing any sequence of appends, trims and freezes on the chunks, in whatever order, gives a valid object that stands for exactly what the run makes of the abstract one. |
| ByteRuns.Perform | libhilti/bytes.c:2445-2457 | Over every such run on the chunks, an iterator that nothing is trimmed past shows the same index before and after and gives the same byte; an end iterator then gives the first byte that was appended. The content is the old content and what was appended, from the furthest position on that the run trimmed to. |
| ByteBeyond.IncrBeyond | libhilti/bytes.c:907-950 | Moving on with permission to go beyond the end: the right position if there is data at it, and otherwise a position strictly beyond the one asked for. |
| ByteBeyond.NormalizeRecorded | libhilti/bytes.c:215-235 | An iterator that records a position beyond the end keeps it if and only if no data has arrived yet or so much that the position has a byte; in between it is moved too far. |
| ByteSlices.SubRawInternal | libhilti/bytes.c:1238-1320 | Copying across chunks gives the first bytes of the range, in order, as far as the buffer reaches. |
| ByteSlices.Sub | libhilti/bytes.c:1337-1353 | The sub-object holds exactly the flat slice between the two positions, whatever the chunking; nothing if they are in the wrong order. |
| ByteSlices.SubRaw | libhilti/bytes.c:1355-1368 | The buffer receives the flat slice; the code reports success if and only if the buffer is not larger than the range. |
| ByteSlices.AppendBytes | libhilti/bytes.c:698-731 | Appending another object (or the object itself) appends its flat content as one chunk; a frozen object refuses even if there is nothing to append. |
| ByteSlices.Flatten | libhilti/bytes.c:761-788 | Walking the chunks in order yields exactly the flat content, with nothing of what was trimmed. |
| ByteSlices.IterateRaw | libhilti/bytes.c:1783-1835 | Each call hands out the block that starts where the previous one ended, and reports exactly whether more follow; starting at the end without stopping there is a value error. |
| ByteSlices.CollectBlocks | libhilti/bytes.c:1783-1835 | The concatenated blocks are exactly the flat slice of the range, and the iteration ends. |
| ByteSlices.ExtractOne | libhilti/bytes.c:1421-1431 | The fast path gives the same byte and position as the slow path, unless it overruns: then the exact byte beyond the end is given. |
| ByteSlices.ExtractOneSlowpath | libhilti/bytes.c:1400-1418 | The byte at the position and the next position; at the end, a would-block exception with the position unchanged. |
| ByteSlices.NormalEndIsSafe | libhilti/bytes.c:1421-1431 | With an end iterator in normal form the fast path never overruns. |
| ByteSlices.GenericEndIsSafe | libhilti/bytes.c:1499-1502 | Nor does it with the generic end. |
| ByteSlices.OverrunExample | libhilti/bytes.c:1421-1431 | With an end iterator that has meanwhile gained a successor, the fast path does hand out a byte beyond the range. |
| ByteSlices.ExtractAll | libhilti/bytes.c:1400-1431 | Repeated extraction up to a normal end yields exactly the flat slice. |
| ByteSearch.MatchAt | libhilti/bytes.c:1086-1124 | 1 exactly if the pattern occurs at the position across chunks, -1 exactly if the input ends inside a match, 0 otherwise; an empty pattern matches only at the end. |
| ByteSearch.FindByteFrom | libhilti/bytes.c:995-1016 | The first occurrence within the rest of the current chunk, otherwise the end: occurrences in later chunks are dropped. |
| ByteSearch.FindBytes | libhilti/bytes.c:1018-1059 | What is found is the first occurrence in the flat content, and it is found if and only if every chunk that ends before it ends with the first byte of the pattern. |
| ByteSearch.MissedExample | libhilti/bytes.c:995-1016 | In a stream of the chunks [1] and [2], the search for [2] finds nothing, although it occurs at position 1. |
| ByteSearch.SearchStops | libhilti/bytes.c:1018-1059 | When the search gives up, there is no occurrence at all, or a chunk before the first one does not end with the pattern's first byte. |
| ByteSearch.StepOn | libhilti/bytes.c:1018-1059 | No occurrence is skipped when the search moves on by one byte. |
| ByteSplit.CutUnique | libhilti/bytes.c:2119-2187 | What split1 cuts out is determined by the flat content alone. |
| ByteSplit.PiecesRebuild | libhilti/bytes.c:2197-2217 | Interleaving the pieces with what was cut out rebuilds the input; with a separator every gap is the separator and no piece contains it, otherwise every gap is white-space. |
| ByteSplit.WordsAndSpaces | libhilti/bytes.c:2197-2217 | Without a separator no piece contains white-space; the first piece is empty exactly if the input is or starts with white-space, and of the others exactly the last ones are, as many as there are white-space characters at the end. |
| ByteSplit.FindSpace | libhilti/bytes.c:2119-2187 | The white-space scan across chunks finds the cut of the flat content exactly if there is one; at the end of the data it covers only the first character of the run. |
| ByteSplit.Split1 | libhilti/bytes.c:2119-2187 | Both halves have exactly the flat content before and after the cut; without a cut the whole comes first and nothing second. |
| ByteSplit.SingleChunkComplete | libhilti/bytes.c:1018-1059 | An object of a single chunk is always searched to the end. |
| ByteSplit.Split | libhilti/bytes.c:2197-2217 | The loop ends, and the vector holds exactly the pieces of the flat content, in order, for every object the search gets through. |
| ByteSplit.LexTrichotomy | libhilti/bytes.c:1837-1879 | For two byte strings exactly one holds: the first comes before the second in lexicographic order, they are equal, or the second comes before the first. |
| ByteSplit.Cmp | libhilti/bytes.c:1837-1879 | Across any two chunkings: 0 for the same content, 1 if the first is lexicographically smaller, -1 if it is larger. |
| ByteMarks.NewMarked | libhilti/bytes.c:547-556 | A new object has no marks. |
| ByteMarks.AppendMark | libhilti/bytes.c:2459-2462 | The marked positions are the old ones and the current end of the stream. |
| ByteMarks.AppendRawMarked | libhilti/bytes.c:272-360 | Appending data leaves every marked absolute position as it is, although marks at the end move to the next chunk; the object is extended by at most one fresh chunk. |
| ByteMarks.MoveEntries | libhilti/bytes.c:341-360 | Moving the end marks into the new chunk preserves the set of absolute positions the marks denote. |
| ByteMarks.AtMark | libhilti/bytes.c:2491-2495 | True exactly if the iterator is inside the object at an absolute position at which a mark was appended. |
| ByteMarks.NextMark | libhilti/bytes.c:2464-2489 | The least marked position strictly after the iterator, or the end if there is none. |
| ByteMarks.Perform | libhilti/bytes.c:272-360 | Over every run of appends, marks and freezes: an iterator from before the run is at a mark exactly if its position was marked before or is one of the lengths the object had when a mark was appended, and the next mark is the least of these positions behind it, or the end. |
| Integers.FlipReverses | libhilti/int.c:156-159 | Flipping an n-byte number (1 to 8) gives the number with its bytes reversed. |
| Integers.FlipInvolution | libhilti/int.c:156-159 | Flipping twice gives back every n-byte number, and the result fits n bytes. |
| Integers.ToUintBinary | libhilti/bytes.c:1928-1958 | In any chunking, byte k of the content has the weight 256^(n - 1 - k) in big-endian order and 256^k in little-endian order in the result, as a 64-bit number; more than 8 bytes are a value error. |
| Integers.ToIntBinary | libhilti/bytes.c:1960-1997 | For 1 to 8 bytes in any chunking, the number between -256^n / 2 and 256^n / 2 of which, modulo 256^n, byte k of the content has the weight 256^(n - 1 - k) in big-endian order and 256^k in little-endian order. |
| Integers.DecodeBoth | libhilti/bytes.c:1928-1997 | Of two objects, in whatever chunks, with the same bytes in opposite order, decoding the one in either byte order equals decoding the other in the other order, signed and unsigned, errors included; the signed reading is the two's complement of the unsigned one. |
| Integers.SignExtended | libhilti/bytes.c:1980-1996 | The complement arithmetic of the code is two's complement sign extension from n bytes. |
| Integers.IntPow | libhilti/int.c:61-74 | Square and multiply yields the power, cut to the 32 bits of its result variable and sign-extended. |
| Integers.IntPowExact | libhilti/int.c:61-74 | That is the power modulo 2^64 if and only if the 64-bit value is in the range of a 32-bit int. |
| Integers.IntPowExample | libhilti/int.c:61-74 | 2 to the power of 31 is not computed correctly. |
| FileProtocol.InitInv | libhilti/file.c:80-84 | The invariant holds initially: for each record, writers == sessions + pending closes + dropped closes. |
| FileProtocol.StepInv | libhilti/file.c:123-228 | Every step of any thread or of the manager, in every interleaving, keeps the invariant. |
| FileProtocol.InvSafe | libhilti/file.c:325-435 | In a state with the invariant no step touches a freed record, the writers assertion holds, and a record to be freed is in the list. |
| FileProtocol.RunsAreSafe | libhilti/file.c:325-435 | All steps of every run are safe, and the accounts balance afterwards. |
| FileProtocol.OneRecordPerPath | libhilti/file.c:149-210 | In no run are there two live records with the same path. |
| FileProtocol.FreedExactly | libhilti/file.c:387-429 | A close frees the record if and only if the file is open, nobody holds the record, it is the last close queued, and none was dropped before. |
| FileProtocol.LostStays | libhilti/file.c:387-429 | A record of which a close was dropped is never freed again, whatever happens. |
| FileProtocol.LeftoversAreLost | libhilti/file.c:387-429 | In every run that ends with no file open and nothing queued, a record is still in memory if and only if a close of it was dropped, and its writers are the dropped closes. |
| FileProtocol.LossExample | libhilti/file.c:212-228 | A concrete interleaving in which a clone in another thread is closed first: the record and its descriptor stay although nobody refers to them. |
| FileProtocol.UndisturbedRuns | libhilti/file.c:123-228 | If clones stay in their thread and no open fails, no close is dropped in any run. |
| FileHistory.OpenFilesAreRight | libhilti/file.c:149-200 | In every interleaving, each open file object refers to a record in memory with the path that it, or what it was cloned from, was opened with. |
| FileHistory.FirstAskedFirstDone | libhilti/file.c:202-323 | In every interleaving and for each thread: the commands the manager has executed, followed by those still queued, are exactly the opens, writes and closes that the thread has asked for, in its order, for the paths its file objects were opened with, and with the lengths it wrote. |
| FileHistory.QueueStep | libhilti/cmdqueue.c:45-81 | Each step adds what its thread asks for to the end of that queue, or takes what the manager executes from the front of one; commands still queued keep their file. |
| FileHistory.FromTheStart | libhilti/file.c:80-84 | From the empty state on, both hold of every run. |
| FileManager.Shared.constructor | libhilti/file.c:80-84 | No records, no file objects, nothing queued. |
| FileManager.Shared.NewFile | libhilti/file.c:104-115 | A new object, in its thread, is closed and about to queue nothing; everything else stays. |
| FileManager.Shared.OpenFile | libhilti/file.c:149-200 | An open object is refused and nothing changes. Otherwise the object gets the record of exactly this path: the one there is, with one writer more, or a new one at the front of the list; all other objects and records stay. |
| FileManager.Shared.QueueOpen | libhilti/file.c:202-210 | The open command for the record comes last in the queue of the owner; only after that may the object be used again. |
| FileManager.Shared.CloneFile | libhilti/file.c:123-147 | A clone refers to the same record and is open exactly if its source is, and then counts as one more writer; everything else stays. |
| FileManager.Shared.WriteFile | libhilti/file.c:253-323 | A write to an open object comes last in the queue of its owner, with its record and length; a closed object is refused. Everything else stays. |
| FileManager.Shared.CloseFile | libhilti/file.c:212-228 | A close of an open object comes last in the queue of its owner, and the object is closed; a closed object is refused. Everything else stays. |
| FileManager.Shared.ExecuteNext | libhilti/cmdqueue.c:45-81 | The manager takes exactly the first command of some thread and executes it; no other record and no object changes; the assertion and the list search succeed. |
| FileManager.Shared.ExecuteOpen | libhilti/file.c:331-366 | If the record has neither a descriptor nor an error, it gets the descriptor, or is marked as failed; otherwise, and if its path has no native name, nothing changes. |
| FileManager.Shared.ExecuteWrite | libhilti/file.c:368-385 | At most the error flag of the record changes: it is set exactly if a write of some data to an open descriptor fails. |
| FileManager.Shared.ExecuteClose | libhilti/file.c:387-429 | A close without a descriptor is dropped and counted as lost; otherwise the record has one writer less, or is freed and taken off the list with the last one. |
| FileManager.Shared.DeleteRecord | libhilti/file.c:401-424 | Exactly the first entry of the record is taken out of the list, and it is freed. |
| Clone.LookupAppend | libhilti/util.c:306-331 | The pointer map answers with the first entry of a key; an appended one counts only if there was none. |
| Clone.CopyFollows | libhilti/clone.c:81-166 | The recursive copy agrees step by step with a walk of the source graph alone: same objects, same order, same outcome. |
| Clone.DeepCopyIsRight | libhilti/clone.c:81-166 | When the walk goes through, the deep copy succeeds with at most one stack level per object, allocates exactly one new object per object seen, leaves the source unchanged, and is isomorphic to and disjoint from it, with cycles and sharing. |
| Clone.CopyAgrees | libhilti/clone.c:81-166 | Whenever the result of the code is a copy in that sense, the walk goes through (the converse direction). |
| Clone.DeepCopyIff | libhilti/clone.h:62-90 | With enough stack, the deep copy is right if and only if the walk over the source goes through: all types cloneable and no object met again that was first met as the first word of a tuple. |
| Clone.NotSupportedIsReported | libhilti/clone.c:111-166 | A type without clone functions that the walk reaches ends in the not-supported exception. |
| Clone.CopiesAreReachable | libhilti/clone.c:81-166 | The objects copied are exactly the ones reachable from the value. |
| Clone.PlainGoes | libhilti/clone.c:111-166 | Without tuples that begin with a reference, the walk is never garbled, whatever the cycles and the sharing. |
| Clone.PairIsGarbled | libhilti/tuple.c:39-60 | A tuple of twice the same reference is never deep-copied right. |
| Clone.CycleNeverEnds | libhilti/tuple.c:39-60 | The deep copy of a tuple of one object that refers to itself uses up every stack. |
| Clone.ShallowCopy | libhilti/clone.c:34-41 | A shallow copy adds one object; in it, exactly the references to the root itself lead to the copy, all others stay. |
| Clone.ShallowTuple | libhilti/tuple.c:39-60 | A tuple is its own shallow copy, unless its destination already held a non-zero word; then exactly the elements equal to its first reference become that word. |
| Cloner.CloneState.constructor | libhilti/clone.c:97-109 | The clone state starts with an empty pointer map and level -1. |
| Cloner.CloneState.Find | libhilti/util.c:323-331 | The loop over the map returns the first entry's value, or 0. |
| Cloner.CloneState.Remember | libhilti/util.c:306-321 | An entry is appended after all earlier ones. |
| Cloner.CloneState.CloneSlot | libhilti/clone.c:81-166 | The recursion that updates the state in place computes the specified copy, state and error. |
| Cloner.CloneState.Allocate | libhilti/clone.c:137-151 | One new object, recorded under the address of the original. |
| Cloner.CloneState.CloneSlots | libhilti/struct.c:54-82 | The loop over fields or elements copies them in order with one shared state and stops at the first error. |
| AstNode.AddedLaw | ast/node.cc:51-69 | Adding an edge keeps count(p in n's parents) == count(n in p's children) for all nodes. |
| AstNode.RemovedLaw | ast/node.cc:104-121 | So does removing one occurrence on both sides. |
| AstNode.GoneLaw | ast/node.cc:26-49 | So does the destruction of a node: afterwards nobody refers to it. |
| AstNode.CopyLawIff | ast/node.h:247-252 | The copy constructor keeps the law if and only if the node copied has no children. |
| AstCells.ReplacedLawIff | ast/node.cc:160-168 | One round of the loop keeps the law if and only if no other slot of any node shares the cell of the slot replaced. |
| AstCells.ReplaceLawIff | ast/node.cc:147-186 | For a whole call, with or without a given parent, with whatever cells the slots share: the law holds afterwards if and only if each slot that the call is to replace had a cell of its own before the call. |
| AstCells.ReplaceEnds | ast/node.cc:153-176 | The loop always ends, also if cells are shared and the bookkeeping goes wrong. |
| AstNode.JoinedLaw | ast/node.h:243-245 | A new node without relatives keeps the law. |
| AstNode.Node.constructor | ast/node.h:243-245 | A new node has no parents and no children. |
| AstNode.Node.Copy | ast/node.h:247-252 | The copy has the same children and no parents; the children do not learn of it. |
| AstNode.Node.AddChild | ast/node.cc:51-69 | The node comes last among the children, this node last among its parents, and all other lists stay; null is ignored. |
| AstNode.Node.RemoveChildAt | ast/node.cc:104-121 | Exactly this slot and one matching parent entry go, and all other lists stay; the assertion that one is found holds. |
| AstNode.Node.RemoveChild | ast/node.cc:71-102 | All slots with this child go, with all its parent entries for this node; the others keep their order, and all other lists stay. |
| AstNode.Node.RemoveFromParents | ast/node.cc:123-145 | The loop ends with no parents left; every node has lost exactly its slots with this one. |
| AstNode.Node.Replace | ast/node.cc:147-186 | In the given parent, or in all parents, the slots with this node go and as many with the new one come last; all other lists stay but those of the two nodes, and in the second case the node has no children and is nobody's parent. The law holds again. |
| AstNode.Node.Destroy | ast/node.cc:26-49 | After destruction every other node has lost exactly its entries of this node, among parents and children. |
| AstNode.WithoutAppend | ast/node.cc:71-102 | Taking a node out of a list takes out exactly its entries and keeps the others in their order. |
| AstRuns.Perform | ast/node.cc:51-186 | Each operation, on nodes named by their positions, changes the graph as it says and keeps the law; if its nodes or its slot do not exist, nothing changes. |
| AstRuns.PerformAll | ast/node.cc:51-186 | From nothing, any sequence of creating, linking, taking out, replacing and destroying nodes leads through states that follow the operations one by one, to a graph in which each node is listed among the parents of another as often as that is among its children. |
| AstSearch.Upwards | ast/node.h:269-284 | What can be reached by child edges can be reached back by parent edges. |
| AstSearch.Downwards | ast/node.h:269-284 | And the converse, under the bookkeeping law. |
| AstSearch.DfsCloses | ast/node.cc:237-246 | A search with a visited set ends on cyclic graphs with a set that has the children of all its members. |
| AstSearch.DfsStays | ast/node.cc:237-246 | It never leaves a closed set that contains its start. |
| AstSearch.DfsOnce | ast/visitor.h:682-774 | Each node newly visited is entered exactly once and left exactly once. |
| AstSearch.DfsIsBelow | ast/node.cc:222-235 | The nodes visited from a node's children are exactly those reachable by one or more edges, defined as the least closed set. |
| AstSearch.DfsEnters | ast/visitor.h:682-727 | Every node is entered after some parent of it (or is a start node). |
| AstSearch.DfsLeaves | ast/visitor.h:729-774 | Without cycles, nodes are left only after all their descendants. |
| AstSearch.PostOrderIff | ast/visitor.h:729-774 | Post-order has all descendants first if and only if no visited node is on a cycle. |
| AstSearch.PreOrder | ast/visitor.h:682-727 | Pre-order starts at the root and accepts exactly the root and everything reachable, once each. |
| AstSearch.ChildsInternal | ast/node.cc:237-246 | The recursion over a shared set computes the depth-first search. |
| AstSearch.Childs | ast/node.cc:222-235 | childs(true) is exactly the set of nodes reachable by one or more child edges. |
| AstSearch.HasChildInternal | ast/node.cc:189-209 | Found exactly if the node is newly reached by the search. |
| AstSearch.HasChild | ast/node.cc:216-220 | Recursive: true exactly if reachable by one or more child edges; otherwise exactly if it is a direct child. |
| AstSearch.ParentsInternal | ast/node.h:269-284 | Appends exactly the newly visited nodes of the wanted type, in the order in which they are met going upwards. |
| AstSearch.Parents | ast/node.h:288-295 | parents<T>() lists each node of the type from which this one is reachable exactly once, and nothing else. |
| AstVisitor.PreOrderVisits | ast/visitor.h:682-727 | With or without reverse, each reachable node is accepted exactly once, the root first, all others after a parent. |
| AstVisitor.PostOrderVisits | ast/visitor.h:729-774 | With or without reverse, each reachable node is accepted exactly once, and after its descendants if and only if there is no cycle. |
| AstReverse.ReverseIff | ast/visitor.h:97-111 | For every tree: the reversed walk is the walk of the tree with all lists reversed, in pre-order and in post-order, if and only if no node below the start node has two children. |
| AstReverse.PalindromesSuffice | ast/visitor.h:97-111 | For every graph, cyclic ones included: the two walks are the same if each list of children below the start node reads the same in reverse. |
| AstReverse.SiblingOrder | ast/visitor.h:682-774 | Two children of a node that is their only parent are entered, and left, in the order of the node's list. |
| AstVisitor.ReverseExample | ast/visitor.h:97-111 | A tree on which the reversed walk is not the walk of the tree with all children reversed. |
| AstVisitor.Visitor.PushCurrent | ast/visitor.h:510-516 | One more node on the stack and one level deeper. |
| AstVisitor.Visitor.PopCurrent | ast/visitor.h:517-522 | Undoes pushCurrent. |
| AstVisitor.Visitor.PreOrder | ast/visitor.h:682-727 | The traversal accepts what the search enters, in that order, and restores stack and level. |
| AstVisitor.Visitor.PostOrder | ast/visitor.h:729-774 | The same for what the search leaves. |
| AstVisitor.Visitor.ProcessAllPreOrder | ast/visitor.h:577-592 | A run starts with an empty visited set and no errors, accepts what the search enters, ends with stack and level as before, and is successful exactly if no reachable node has reported an error. |
| AstVisitor.Visitor.ProcessAllPostOrder | ast/visitor.h:594-609 | The same for post-order. |
| List.JoinedChain | libhilti/list.c:68-94 | The pointer updates of _link turn a doubly linked chain into one with the node inserted: both directions agree again. |
| List.CutChain | libhilti/list.c:98-130 | Those of _unlink turn it into the chain without the node. |
| List.InvalidIff | libhilti/list.c:98-130 | A node ever linked is invalid exactly if it is not in the list. |
| ListRuns.EditKeepsOrder | libhilti/list.c:429-446 | One edit keeps the order of the nodes that stay, and an unlinked node never returns. |
| ListRuns.GoneStaysGone | libhilti/list.c:98-130 | Over every run of edits, a node that has left the list is not in it again. |
| ListRuns.RunKeepsOrder | libhilti/list.c:429-446 | Over every run of edits, two nodes still linked are in the same order, so iterators keep their elements. |
| ListRuns.PerformAll | libhilti/list.c:282-411 | Any sequence of pushes, pops, inserts, erasures, expirations, accesses and waits on a list keeps it valid, is a run of putting in new nodes and taking out linked ones, and does what the operations say to the elements and to the times at which they expire: a new one is due one timeout from now, exactly if there are a manager and a timeout; an access starts that time again under its strategy, for this element alone; and an expiration takes out exactly an element that has a timer. |
| ListRuns.Perform | libhilti/list.c:68-130 | After any such sequence the elements and their times are what the operations say, a node is invalid exactly if it is not in the list, one that was invalid still is, the nodes still linked are in their old order, and no node is forgotten, so that every iterator stays genuine. |
| List.List.constructor | libhilti/list.c:183-200 | An empty list with the given timer manager and no timeout. |
| List.List.MakeNode | libhilti/list.c:133-161 | A new unlinked node, with a timer scheduled exactly if there are a manager and a timeout. |
| List.List.Touch | libhilti/list.c:169-181 | Access moves the node's timer exactly under the access strategy with a timeout; nothing else changes. |
| List.List.Link | libhilti/list.c:68-94 | The node is inserted after the given position, or at the front; forward and backward links, ends and size agree. |
| List.List.Unlink | libhilti/list.c:98-130 | Exactly this node is taken out and marked invalid, and its timer does not fire any more. |
| List.List.PushFront | libhilti/list.c:282-294 | The sequence grows by a fresh node with the value at the front, which is due one timeout from now if there are a manager and a timeout; no other timer changes. |
| List.List.PushBack | libhilti/list.c:296-310 | The sequence grows by a fresh node with the value at the back, with the same timer. |
| List.List.PopFront | libhilti/list.c:320-328 | The first node, and no other, is dropped and invalid, and its timer gone; an empty list underflows. |
| List.List.PopBack | libhilti/list.c:330-338 | The last node, and no other, is dropped and invalid, and its timer gone; an empty list underflows. |
| List.List.Front | libhilti/list.c:340-350 | The first element, or underflow; under the access strategy its timer starts again, and no other changes. |
| List.List.Back | libhilti/list.c:352-362 | The last element, or underflow; under the access strategy its timer starts again, and no other changes. |
| List.List.Size | libhilti/list.c:364-367 | The size field is the length of the sequence. |
| List.List.Append | libhilti/list.c:312-318 | The sequence is followed by the elements of the other list in new nodes; the old nodes and the other list stay. |
| List.List.Expire | libhilti/list.c:384-388 | The timer takes out exactly its node, which is known as before; its timer is no longer pending. |
| List.List.SetTimeout | libhilti/list.c:272-280 | New strategy and timeout, no change of the elements; the first manager stays. |
| List.Insert | libhilti/list.c:390-411 | The value is inserted in a new node before the iterator (at the end for the end iterator), with a timer as for push_back, and all other nodes and timers stay; an invalid iterator is refused without a change. |
| List.Erase | libhilti/list.c:369-382 | Exactly the iterator's node and its timer go; the end and invalid iterators are refused without a change. |
| List.Begin | libhilti/list.c:413-419 | Position 0. |
| List.End | libhilti/list.c:421-427 | The position after the last element. |
| List.Incr | libhilti/list.c:429-446 | The next position, the end stays the end; an iterator at an unlinked node is refused. |
| List.Deref | libhilti/list.c:448-459 | The element at the iterator's position in the sequence, of which the timer starts again under the access strategy; the end and unlinked nodes are refused. |
| List.Eq | libhilti/list.c:467-477 | Any two iterators are equal exactly if list and node are the same; usable ones of one list, exactly if they are at the same position. |
| Channel.FirstInFirstOut | libhilti/channel.c:255-314 | Of the queue as a sequence: over every run of write_try and read_try, what was read followed by what is left is what was queued followed by the accepted writes; each read is served exactly if there is an item; and a bounded queue never exceeds its capacity. |
| Channel.Perform | libhilti/channel.c:255-314 | Performing any such run on the chunks of a channel hands out and leaves exactly what the run on the sequence says: first in, first out, across all chunk boundaries and within the bound. |
| Channel.HalvedFits | libhilti/channel.c:150-152 | The halving loop ends with a chunk size of at least 1 that fits if and only if there is room. |
| Channel.HalvedOften | libhilti/channel.c:150-152 | The size is the previous one halved some number of times, and fewer times would not do. |
| Channel.Shared.constructor | libhilti/channel.c:204-228 | An empty channel with one reference. |
| Channel.Shared.ReadItem | libhilti/channel.c:121-141 | Takes the first item, crossing to the next chunk when one is used up; the assertion that there is one holds. |
| Channel.Shared.WriteItem | libhilti/channel.c:144-179 | The item is queued last and nothing queued is lost, whether or not the current chunk is full. |
| Channel.Shared.Write | libhilti/channel.c:238-253 | Without the check, the channel stays valid, and its contents grow by the item at the end, if and only if it was not bounded and full. If it was, the item is stored unless the last chunk is full as well, and the bound is exceeded or the size of the next chunk is 0. |
| Channel.Shared.ResizeChunk | libhilti/channel.c:149-154 | Doubling up to the limit if unbounded, otherwise halving until it fits what is left of the capacity, which is 0 for a full channel. |
| Channel.Shared.AddChunk | libhilti/channel.c:156-164 | The new chunk comes last, has room, and changes nothing that is queued. |
| Channel.Shared.WriteTry | libhilti/channel.c:255-275 | Refuses exactly if the channel is bounded and full, otherwise queues the item last. |
| Channel.Shared.ReadTry | libhilti/channel.c:294-314 | Refuses exactly if the channel is empty, otherwise gives the first item. |
| Channel.Shared.Size | libhilti/channel.c:316-322 | The number of items written and not read, at most the capacity. |
| Channel.Shared.Clone | libhilti/channel.c:187-202 | The clone shares the channel and counts as one more reference. |
| Channel.Shared.Destroy | libhilti/channel.c:63-95 | The queue goes exactly with the last handle; before that its contents stay. |
| Fiber.StepInv | libhilti/fiber.c:163-337 | Every create, start, yield, return, finish and delete, with whatever stale size was read without the lock, keeps the invariant. |
| Fiber.InvSafe | libhilti/fiber.c:39-76 | In a state with the invariant the assertions hold: a fiber taken from a pool is idle, a fiber started has a job and is not running, a yielded one is resumed inside its own job, and what yields or finishes is running. |
| Fiber.RunsAreSafe | libhilti/fiber.c:163-337 | All steps of every run are safe. |
| Fiber.RefilledInv | libhilti/fiber.c:177-203 | Taking fibers from the global pool keeps all lists disjoint and all sizes right. |
| Fiber.HandedInv | libhilti/fiber.c:241-280 | Handing over the local pool to the global one does so as well. |
| Fiber.PoolsAreBounded | libhilti/fiber.c:224-289 | In every run with a bound of at least 1, or without threads, sizes are list lengths, local pools hold at most max and the global one at most 11 * max fibers; all of them are idle without a job, in one pool, once, neither in use nor running. |
| Fiber.ZeroIsNotKept | libhilti/fiber.c:224-289 | With a bound of 0 and several threads, a local pool does come to hold a fiber. |
| Fiber.BoundKeptIff | libhilti/fiber.c:224-289 | The bound of local pools is kept in every run if and only if it is at least 1 or there is only one thread. |
| Fiber.EnteredOnce | libhilti/fiber.c:39-76 | In every run, each job is entered once if its fiber was started and not at all otherwise, with the function and cookie it was created with. |
| FiberJobs.JobsGoOn | libhilti/fiber.c:291-334 | In every run and for each job: it is running on some thread's stack exactly if it has been started once more than it has yielded or finished; it finishes, or its fiber is deleted without a context, at most once, and no fiber has it then; its function is called exactly once if it has been started at all. |
| FiberJobs.RunningAfter | libhilti/fiber.c:291-334 | Each step makes at most one job run or stop running, in any nesting of fibers on any number of threads. |
| FiberDiscard.IdleInUse | libhilti/fiber.c:205-221 | A fiber that is in use and idle has been recycled for a job that was never started. |
| FiberDiscard.DiscardIff | libhilti/context.c:55-56 | Deleting a fiber that has not finished, together with its context, leaves a state in which no run fails an assertion if and only if the fiber is freed or is idle. |
| FiberDiscard.DiscardsIff | libhilti/threading.c:103-110 | Over every history of steps and of such deletions: nothing can go wrong at any point of it if and only if each fiber that a deletion keeps in a pool is idle. |
| FiberDiscard.DiscardedJobs | libhilti/threading.c:103-110 | In such a history, every job is still entered once if its fiber was started and not at all otherwise, with its own cookie, and the sizes of the pools are right. |
| FiberDiscard.StaleJob | libhilti/fiber.c:224-289 | The pools are free of jobs after such a deletion if and only if the fiber was freed rather than kept. |
| FiberPool.LinkedPool.constructor | libhilti/fiber.c:144-150 | An empty pool. |
| FiberPool.LinkedPool.Push | libhilti/fiber.c:282-288 | The fiber is first in the linked list and the size is one more. |
| FiberPool.LinkedPool.Pop | libhilti/fiber.c:206-212 | The first fiber, unlinked, and the size is one less. |
| FiberPool.LinkedPool.TakeFrom | libhilti/fiber.c:184-198 | The pointer loop moves exactly the first nodes of the global list to the front of the local one, in reverse order, and both sizes are right. |
| FiberPool.LinkedPool.HandOver | libhilti/fiber.c:253-266 | The pointer walk appends exactly the local nodes to the global list; the local pool is empty. |
| FiberPool.CreateFiber | libhilti/fiber.c:163-222 | On the linked pools, creating a fiber does what the protocol's step does to the pools of the thread and the global one. In terms of the nodes: an empty pool is given a fifth of the maximum, or all there are, in reverse order; then the first fiber is taken, and there is a new one exactly if the pool is still empty. The fiber is in no pool and has the job and its cookie. |
| FiberPool.DeleteFiber | libhilti/fiber.c:224-289 | Deleting one does what the protocol's recycling does. In terms of the nodes: it is kept exactly if the local pool is not full, or if there are several threads and the global pool has room; it comes first, and the fibers of a full pool go to the end of the global one. |
| Flow.ThenAssociative | hilti/statement.cc:302-333 | Combining summaries is associative, with the empty one as its unit. |
| Flow.FlowInfoOf | hilti/statement.cc:302-333 | The loop over the statements, and over those of nested blocks, computes a summary with exactly these variables: defined or cleared by some instruction; read, or modified, by an instruction before which none defines or clears it. |
| Flow.InfoIsExact | hilti/statement.cc:302-333 | The same of the combined summary of any sequence of instructions. |
| Flow.NestingIsInlining | hilti/statement.cc:302-333 | A block with nested blocks has the same four sets as its instructions one after the other. |
| Flow.InliningRuns | hilti/statement.cc:302-333 | A block with nested blocks does what its instructions do one after the other. |
| Flow.ThenIsRight | hilti/statement.cc:302-333 | If two summaries are right about two pieces of code, so is their combination about both in sequence. |
| Flow.BlockInfoIsRight | hilti/statement.cc:302-333 | Soundness: two stores that agree on what a block reads or modifies lead to stores that agree on all it defines, clears and modifies, and all other variables are unchanged. |
| Flow.DeadBefore | hilti/flow-info.h:51-73 | A variable that the block defines or clears, but neither reads nor modifies, is dead before it: its value makes no difference afterwards. |
| Flow.RemoveUseless | hilti/statement.cc:227-244 | The loop keeps exactly the statements up to the first terminator that are not no-ops. |
| Flow.UselessIsUseless | hilti/statement.cc:227-244 | Executing what is left has the same effect as executing the original block. |
| Flow.NothingUselessLeft | hilti/statement.cc:227-244 | Nothing useless is left: no no-ops, nothing after a terminator, and a second pass changes nothing. |
| Flow.TerminatedIff | hilti/statement.cc:208-225 | A block is terminated exactly if its last instruction, however deep, is a terminator and no empty block comes after it. |
| Flow.FirstNonBlockOf | hilti/statement.cc:274-300 | The loop with its set of visited blocks computes the specified search. |
| Flow.FirstNonBlockIs | hilti/statement.cc:274-300 | The first instruction of the flattened block, or none if it has none. |
| Classifier.BytesAndBits | libhilti/classifier.c:160-192 | Whole bytes equal and the masked next byte equal is the same as agreeing bit by bit on that many leading bits. |
| Classifier.LastBitIgnored | libhilti/classifier.c:160-192 | Agreeing on all bits of a field is what the code checks and the last bit on top: exactly that bit is ignored. |
| Classifier.MatchSingleRule | libhilti/classifier.c:160-192 | True exactly if each value is a wildcard, or is at least as long as the rule's field and agrees on its leading bits - 1 bits; for a field without bits, the first 7 bits of the byte in front of the data are compared. |
| Classifier.CmpRight | libhilti/classifier.c:143-150 | The sign of the comparison of two rules is that of their priorities if and only if their difference keeps its sign when it is cut to 32 bits. |
| Classifier.KeptSorts | libhilti/classifier.c:152-158 | If no difference loses its sign, every outcome that qsort() allows is an order by falling priority. |
| Classifier.SortsIff | libhilti/classifier.c:143-158 | For every set of rules: compiling gives an order by falling priority, whatever qsort() does within its contract, if and only if no difference of two priorities loses its sign in 32 bits. |
| Classifier.FarApartNotSorted | libhilti/classifier.c:152-158 | With priorities 2^32 apart the wrong order is an admissible outcome. |
| Classifier.Classifier.constructor | libhilti/classifier.c:49-71 | No rules, not compiled. |
| Classifier.Classifier.Add | libhilti/classifier.c:99-133 | The rule is added behind all others and the highest priority is kept; a compiled classifier refuses. |
| Classifier.Classifier.AddNoPrio | libhilti/classifier.c:135-140 | The rule is added behind all others with one more than the highest priority so far, which is above that of every earlier rule. |
| Classifier.NoPrioWins | libhilti/classifier.c:135-158 | In whatever order the rules are sorted, the best match is no rule added before a matching one without priority, and is that rule itself if none was added after it. |
| Classifier.Classifier.Compile | libhilti/classifier.c:152-158 | The rules are a permutation, by falling priority whenever no difference loses its sign. |
| Classifier.Classifier.Matches | libhilti/classifier.c:194-217 | True exactly if some rule matches; not compiled is a value error. |
| Classifier.Classifier.Get | libhilti/classifier.c:219-244 | The value of the first matching rule, whose priority is at least that of every matching rule if the rules are sorted; an index error exactly if none matches. |
| Rtti.CastFinds | ast/rtti.h:55-67 | The recursive cast walk finds a class exactly if its bit is in the ancestors' mask. |
| Rtti.AncestorsAre | ast/rtti.cc:24-36 | The mask has the bit of a class exactly if it is an ancestor (or the class itself) in the least reflexive and transitive sense. |
| Rtti.InitOne | ast/rtti.cc:24-36 | The memoised recursion completes the mask of the class and leaves every class below its rank empty or complete. |
| Rtti.InitAll | ast/rtti.cc:8-22 | In whatever order classes are initialised, all masks are complete in the end. |
| Rtti.Registry.constructor | ast/rtti.h:80-86 | No classes, not initialised. |
| Rtti.Registry.Register | ast/rtti.h:80-86 | A new class comes last, with no parents and an empty mask. |
| Rtti.Registry.SetParent | ast/rtti.h:104-109 | One more parent of exactly this class. |
| Rtti.Registry.Init | ast/rtti.cc:8-22 | For every acyclic hierarchy all masks are the ancestors' masks, and the hierarchy is unchanged; a second call, or one without classes, changes nothing. |
| Rtti.Registry.IsA | ast/rtti.h:194-203 | The test of one bit agrees with being an ancestor and with what the cast walk finds; before the initialisation, everything is accepted if the caller allows it. |
| Rtti.CastWalk | ast/rtti.h:55-67 | The walk over the parents, in order, gives the specified cast. |
| Rtti.Registry.TryCast | ast/rtti.h:205-229 | With the quick check first, the result is exactly that of the walk alone; null stays null. |

## Left out

- Bytes: separator objects inside the data, positions beyond the current end, marks together with trimming or copied
  between objects, reference counts and the freeing of chunks, and the overflow of 64-bit offsets.
- Bytes: `find_bytes_at_iter`, `upper`, `lower`, `strip`, `join`, `starts_with` and the decoding of text, which only
  add loops like those modelled.
- ByteStream.IncrBy: does not model moving beyond the end, which is `ByteBeyond.IncrBeyond`.
- ByteStream.NormalizeIter: does not model iterators beyond the end of their chunk, which is
  `ByteBeyond.NormalizeRecorded`; the other operations are stated for iterators within the data.
- ByteStream.TrimTo: is stated for iterators to live bytes of the same object; `ByteStream.TrimForeign` has other
  objects. An iterator from before an earlier trim may be in front of the first live byte; the code then moves `start`
  back (`libhilti/bytes.c:1535-1537`), which `libhilti/bytes.h:403-405` leaves undefined.
- ByteSlices.IterateRaw: does not model a first position behind the second one other than the end, where the code
  walks past the second one or hands out a negative block.
- ByteSlices.Sub: does not model the marks that the code copies into the new object.
- ByteSlices.AppendBytes: does not copy the marks of the other object, whose offset is narrowed to 8 bits
  (`libhilti/bytes.c:307-338`).
- ByteMarks.AppendMark: is stated for objects that have not been trimmed; marks are relative to what trimming moves.
- ByteMarks.AtMark: is stated for objects that have not been trimmed.
- ByteMarks.NextMark: is stated for objects that have not been trimmed.
- Integers.ToUintBinary: requires a byte in little-endian order, because without one the shift is undefined.
- Integers.ToIntBinary: requires a byte, because without one the shift is undefined.
- Files: what is written, escaped and timestamped, the answers of the operating system (arbitrary arguments of a
  step), and the thread queue, of which only the order of each writer's commands is used. A file object is used by one
  thread at a time; without threads, commands are executed at once, which is the run where each is executed next.
- Clone: values of type `any`, reference counts, and cloning into another thread. Each element of a tuple takes at
  least one word. After an error only the error is kept.
- Clone.DeepCopyIff: takes what the destination held before to be the same word at the head of all its tuples.
- Cloner.CloneState.CloneSlots: does not show the fields of a half-made copy, which nobody reads before it is done.
- AstNode.Node.Copy: does not model that the copied slots share their cells with those of the original.
- AstNode.Node.Replace: is stated for slots that do not share their cell; `AstCells.ReplaceLawIff` has the shared
  ones.
- AstVisitor.Visitor.ProcessAllPreOrder: does not model fatal errors, which end the walk with an exception.
- AST: ownership by shared pointers, meta information, dumping, `siblingOfChild`, modifier visitors, saved arguments
  and the dispatch to `visit` methods.
- List.List.Append: does not model appending a list to itself, which never ends.
- ListRuns.Perform: does not include appending another list, which is a run of push_back with its elements.
- Lists: cloning a list together with its timers, element types, and the timer manager, which is a map of pending
  timers.
- Channel.Shared.WriteItem: requires room in a bounded channel; `Channel.Shared.Write` has the other case. Waiting for
  data in `hlt_channel_read`, memory limits and the freeing of chunks are left out.
- Fibers: what is in a fiber besides its place in a list is not in the linked pools; stacks and contexts, the deletion
  of pools and of execution contexts, and the scheduling of threads.
- Flow: the flow information of instructions is given and taken to be right; `ForEach`, `Try` and declarations are
  left out.
- Flow.FlowInfoOf: does not collect the successors, which depend on the operands of instructions.
- Flow.BlockInfoIsRight: is about straight-line execution; jumps out of a block are the business of its successors.
- Classifier.Classifier.Compile: takes `qsort()` by its contract in the C standard; it does not model 64-bit overflow
  of priorities.
- Classifier.MatchSingleRule: requires rules whose fields have data for their bits; the code reads behind a field
  otherwise. The byte in front of a field's data is part of the field, although C does not define what reading it as
  an element of the array gives.
- Rtti.Registry.IsA: takes the parents named to the cast macros to be those registered; the limit of 2048 classes and
  the pointer adjustments of casts are left out.
- Parsers, passes, code generation, formatting, addresses and ports, and everything built with LLVM.
