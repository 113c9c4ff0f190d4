# Buffered asynchronous streams of pretzel, modelled in Dafny

This project models the stream layer of pretzel, a Python library of
asynchronous streams:

- `Buffer`: a FIFO of byte chunks with a consumed offset into the first
  chunk (`stream/buffered.py`).
- `BufferedStream`: a read buffer and a write buffer in front of an inner
  stream, with `read`, `read_until_size`, `read_until_eof`,
  `read_until_sub`, `write`, `write_schedule` and the flush loop.
- The length-prefixed framing over big-endian 32-bit records (struct
  format `'>I'`): `write_bytes`/`read_bytes`,
  `write_struct_list`/`read_struct_list` and
  `write_bytes_list`/`read_bytes_list`.
- `singleton`, which hooks concurrent callers onto one run of an action.
- The base `Stream` (`stream/stream.py`):
  - the state constants and the allowed-transition graph;
  - `StateFlagScope` (the `reading` and `writing` scopes) and
    `StateTransScope` (the `initing` scope);
  - `dispose`/`disposed`, `flush_and_dispose` and `copy_to`.

Asynchronous calls become sequential method calls. The inner stream is a
scripted object (`InnerStream.Inner`). It holds the chunks its reads will
deliver, then broken pipe. It holds how many bytes each write will accept,
then broken pipe. It counts its flushes, and it is told whether every
flush raises broken pipe (a sink whose own base is broken).

On the read side, `BufferedStream.Input()` is everything still to be read:
the buffered bytes, then what the inner stream will deliver.
`read_until_size`, `read_until_sub` and the three frame readers are proved
against a pure parser of that input (`ReadExactly`, `ParseUntil`,
`ParseBytes`, `ParseU32List`, `ParseBytesList`). Each one's result is the
parser's result, and `Input()` afterwards is the parser's remaining input.
`read` and `read_until_eof` are specified directly: `read` gives at most
size bytes off the front of the input, from at most one inner chunk, and
`read_until_eof` gives the whole input. The three
frame parsers (`ParseBytes`, `ParseU32List`, `ParseBytesList`) are in turn
proved to invert the matching writer's encoding, in both directions.
`ReadExactly` and `ParseUntil` have no writer counterpart.
How far `read_until_sub` reads ahead is stated by a separate reference
definition, `Refilled`: from the buffered bytes, one inner read at a time,
only while the buffer holds no occurrence of the delimiter.

On the write side, `Output()` is what reached the inner stream followed by
what is still buffered. Writes append to it, and a flush never changes
it.

The state machine of `Stream` is the transition graph of
`stream/stream.py:26-34`. A lemma over arbitrary interleavings of scope
entries and exits shows three things:

- in a well-bracketed run the state is always one of the seven named
  states;
- at most one read scope and one write scope are open at any time;
- no read or write scope exit is ever refused.

The init scope is the exception: a dispose inside `initing` leaves the
stream disposed, and the scope's exit, which asks for idle or none, is then
refused (`InitExitRefusedAfterDispose`, `DisposeInsideInit`).

Modules:

| file | module | contents |
|---|---|---|
| common.dfy | `Common` | bytes, errors, results, `b''.join`, Python slicing |
| search.dfy | `Search` | `bytes.find` and the lookback of `read_until_sub` |
| framing.dfy | `Framing` | the `'>I'` codec, frame formats, parsers, round trips |
| buffer.dfy | `ChunkBuffer` | class `Buffer` |
| inner.dfy | `InnerStream` | the scripted inner stream |
| streams.dfy | `Streams` | state graph, `StateMachine`, scopes, `Stream`, `copy_to` |
| singleton.dfy | `Coalescing` | `singleton` |
| buffered.dfy | `BufferedStreams` | class `BufferedStream` |

## Model

| member | source | states |
|---|---|---|
| Framing.Pack | stream/buffered.py:16 | `'>I'` packing succeeds exactly for 0 <= n < 2^32, giving 4 bytes that unpack to the value; otherwise struct.error |
| Framing.DecodeU32 | stream/buffered.py:130-131 | unpacking 4 bytes gives a value below 2^32 |
| Framing.DecodeEncodeU32 | stream/buffered.py:16 | unpack(pack(n)) == n for every n below 2^32, and a packed value is 4 bytes |
| Framing.EncodeDecodeU32 | stream/buffered.py:16 | pack(unpack(b)) == b for every 4 bytes |
| Framing.EncodeU32ListSnoc | stream/buffered.py:160-161 | scheduling one more record appends its 4 bytes to the record list |
| Framing.DecodeU32List | stream/buffered.py:149-150 | the record decode succeeds exactly on a multiple of 4 bytes, one value below 2^32 per 4 bytes; otherwise struct.error |
| Framing.EncodeDecodeU32List | stream/buffered.py:149-150 | re-encoding decoded records gives back the bytes |
| Framing.DecodeEncodeU32List | stream/buffered.py:149-150 | decoding the encoding of values below 2^32 gives back the values |
| Framing.U32PrefixLength | stream/buffered.py:159-161 | the records written before `pack` raises: every earlier value fits, and the next one does not |
| Framing.U32PrefixLengthIs | stream/buffered.py:159-161 | a prefix that fits, followed by the end or an oversized value, is exactly that length |
| Framing.AllU32Prefix | stream/buffered.py:159-161 | the loop writes every record exactly when all values fit |
| Framing.Lengths | stream/buffered.py:175 | the length list has one entry per blob, equal to its length |
| Framing.ListFitsLengths | stream/buffered.py:175-176 | a blob list is writable exactly when its record count and every length fit in 32 bits |
| Framing.ReadExactly | stream/buffered.py:45-54 | `read_until_size(n)` over the input: exactly n bytes and the rest of the input, or broken pipe with the input untouched |
| Framing.Prepend | stream/buffered.py:167-170 | adding blobs already read in front of a blob parse keeps its rest and its success |
| Framing.BlobStep | stream/buffered.py:168-169 | one `read_until_size` of the blob loop advances the parse by one blob |
| Framing.BlobStop | stream/buffered.py:168-169 | a blob too long for the input stops the parse with broken pipe, returning to the input at that point |
| Framing.ParseBytesRoundTrip | stream/buffered.py:126-137 | `read_bytes` after `write_bytes(blob)` returns the blob and leaves what follows |
| Framing.ParseBytesIsFrame | stream/buffered.py:126-137 | whatever `read_bytes` accepts is a `write_bytes` frame followed by the rest |
| Framing.ParseU32ListRoundTrip | stream/buffered.py:139-161 | `read_struct_list` after `write_struct_list(xs)` returns xs |
| Framing.U32ListIsFrame | stream/buffered.py:139-161 | whatever `read_struct_list` accepts is a `write_struct_list` frame followed by the rest |
| Framing.ReadFront | stream/buffered.py:45-54 | reading as many bytes as a known prefix gives exactly that prefix |
| Framing.BlobsCons | stream/buffered.py:168-169 | the blob loop is the first read followed by the loop on the remaining sizes |
| Framing.ParseBlobsRoundTrip | stream/buffered.py:168-169 | reading blobs of the written lengths gives the blobs back |
| Framing.BlobsSplit | stream/buffered.py:168-169 | a successful blob parse starts with the first size's bytes and continues on the rest |
| Framing.ParseBlobsLengths | stream/buffered.py:168-169 | the blobs read have exactly the requested sizes |
| Framing.ParseBlobsConsumed | stream/buffered.py:168-169 | the blobs read are the consumed input, in order |
| Framing.ParseBytesListRoundTrip | stream/buffered.py:163-178 | `read_bytes_list` after `write_bytes_list(bl)` returns bl and leaves what follows |
| Framing.ParseBytesListIsFrame | stream/buffered.py:163-178 | whatever `read_bytes_list` accepts is a `write_bytes_list` frame followed by the rest |
| Framing.BlobListExample | stream/buffered.py:163-178 | a concrete round trip with an empty blob in the list |
| Search.Find | stream/buffered.py:79 | `bytes.find`: -1 exactly when there is no occurrence, else the first occurrence |
| Search.ShiftOccurrence | stream/buffered.py:79 | an occurrence in `s[1:]` is an occurrence in s one place later |
| Search.FindIsFirst | stream/buffered.py:79 | an occurrence with none before it is the one `find` returns |
| Search.FindInPrefix | stream/buffered.py:76-84 | a match found in the buffer stays the first match once more data arrives |
| Search.FindFrom | stream/buffered.py:79 | searching `data[offset:]` when nothing occurs before offset gives the global first occurrence, or proves there is none |
| Search.OccursShifted | stream/buffered.py:79 | an occurrence in `data[offset:]` at j - offset is exactly an occurrence in data at j |
| Search.FoundFrom | stream/buffered.py:79 | the first occurrence in `data[offset:]`, shifted by offset, is the first occurrence in data when none lies before offset |
| Search.MissedFrom | stream/buffered.py:79 | no occurrence in `data[offset:]` and none before offset means none in data |
| Search.FindPastMiss | stream/buffered.py:78-83 | after a miss on a prefix, the first occurrence in the longer data ends past that prefix |
| Search.LookbackSound | stream/buffered.py:82 | after a miss, no occurrence in the extended data can start before `max(0, len(data) - len(sub))` |
| Common.PySlice | stream/buffered.py:228 | Python's clipped slice `s[lo:hi]`: the length and every element |
| ChunkBuffer.PopUntil | stream/buffered.py:217-223 | the pop loop takes a prefix of the chunks whose size reaches the limit (or all chunks), and does not overshoot by a whole chunk |
| ChunkBuffer.CutFront | stream/buffered.py:250-273 | the cut of `dequeue`: the first `min(want, len)` logical bytes are taken, the rest stays in order, and the new chunks have the shape `dequeue` leaves |
| ChunkBuffer.BoundaryContent | stream/buffered.py:258-261 | a cut on a chunk boundary drops whole chunks, resets the offset and takes exactly the bytes before the boundary |
| ChunkBuffer.BoundaryShape | stream/buffered.py:258-261 | after a boundary cut, the size counter is the size of the remaining chunks |
| ChunkBuffer.InsideBytes | stream/buffered.py:262-273 | a cut inside a chunk, whether it copies the tail or advances the offset, keeps the untaken bytes in order |
| ChunkBuffer.InsideContent | stream/buffered.py:262-273 | the same cut over whole chunk lists |
| ChunkBuffer.InsideShape | stream/buffered.py:262-273 | after a cut inside a chunk, the offset stays within the first half of the re-queued chunk and the size counter is correct |
| ChunkBuffer.CutRepresents | stream/buffered.py:237-276 | a cut keeps the buffer invariant and moves the taken bytes from the content to the dequeued history |
| ChunkBuffer.MergedNoEmpty | stream/buffered.py:224-226 | merging the front chunks keeps every chunk non-empty |
| ChunkBuffer.MergeFront | stream/buffered.py:206-228 | `slice` joins the front chunks into one, keeps the joined bytes and returns the clipped window; on a buffer without chunks it queues `b''` |
| ChunkBuffer.SliceOfMerged | stream/buffered.py:224-228 | the window of the merged chunk is the window of the logical content |
| ChunkBuffer.FrontOfMerged | stream/buffered.py:224-226 | the offset stays within the first half of the merged chunk |
| ChunkBuffer.Buffer.Len | stream/buffered.py:278-279 | `len(buffer)` is the number of logical bytes |
| ChunkBuffer.Buffer.HasChunks | stream/buffered.py:281-282 | `bool(buffer)` is false only for an empty buffer; it can be true with nothing buffered |
| ChunkBuffer.Buffer.NonEmptyHasLength | stream/buffered.py:278-282 | without empty chunks, `bool` and `len > 0` agree |
| ChunkBuffer.Buffer.DequeuedIsPrefix | stream/buffered.py:198-282 | FIFO: everything dequeued so far is a prefix of everything enqueued |
| ChunkBuffer.Buffer.Enqueue | stream/buffered.py:230-235 | the data is appended to the content; empty data changes nothing |
| ChunkBuffer.Buffer.Slice | stream/buffered.py:206-228 | the window [offset, offset+size) of the content, clipped, where size 0 means all; the content is unchanged |
| ChunkBuffer.Buffer.Dequeue | stream/buffered.py:237-276 | the first `size` bytes (all for 0, fewer when shorter) are removed and returned (None for `returns=False`); the rest stays; `b''` at once without chunks |
| InnerStream.Inner.ContentEmpty | stream/stream.py:57-65 | with no empty chunk scripted, nothing is left to read exactly when the next read raises |
| InnerStream.Inner.Read | stream/stream.py:57-65 | a read gives 1 to size bytes off the front, or broken pipe exactly at the end |
| InnerStream.Inner.Flush | stream/stream.py:77-82 | a flush is counted, changes nothing else, and raises broken pipe exactly when the sink is scripted to |
| InnerStream.Inner.Write | stream/stream.py:67-75 | a write accepts a leading part of the data and returns its length, at least 1 for non-empty data |
| Streams.GraphClosed | stream/stream.py:26-34 | every transition of the graph leads to one of the seven named states |
| Streams.EdgeExamples | stream/stream.py:26-34 | sample refusals and moves: read cannot jump to write nor idle to read-write, read reaches read-write and read-write reaches write, none cannot skip init, idle cannot return to init |
| Streams.DisposedAbsorbing | stream/stream.py:26-34 | every state may be disposed, and disposed only goes to itself |
| Streams.EnterReadExactly | stream/stream.py:143-147 | the read scope can be entered exactly from idle and write, reaching read and read-write; disposed raises broken pipe |
| Streams.EnterWriteExactly | stream/stream.py:143-147 | the write scope can be entered exactly from idle and read, reaching write and read-write; disposed raises broken pipe |
| Streams.NoScopeBeforeInit | stream/stream.py:143-147 | before initialisation, entering a scope is an invalid transition |
| Streams.NoReentry | stream/stream.py:143-147 | a scope cannot be entered again while it is open |
| Streams.EnterExitRestores | stream/stream.py:143-151 | leaving a scope returns to the state it was entered from; leaving on a disposed stream is allowed |
| Streams.InitScope | stream/stream.py:175-184 | `initing` is entered only from none, and leaves to idle unless an Exception propagates, then back to none |
| Streams.ExitNeverRefused | stream/stream.py:149-151 | in a well-bracketed run, closing an open read or write scope is always allowed |
| Streams.InitExitRefusedAfterDispose | stream/stream.py:179-184 | in a well-formed run with `initing` open, its exit is refused exactly when the stream was disposed inside it |
| Streams.DisposeInsideInit | stream/stream.py:118-119 | a fresh stream disposed inside `initing` is disposed with the init scope still open, and leaving the scope is refused |
| Streams.StepSafe | stream/stream.py:143-184 | each scope operation keeps a run well-formed |
| Streams.EnterFlagSafe | stream/stream.py:143-147 | entering a flag scope keeps a run well-formed |
| Streams.ExitFlagSafe | stream/stream.py:149-151 | leaving a flag scope keeps a run well-formed |
| Streams.ExitInitSafe | stream/stream.py:179-184 | leaving `initing` keeps a run well-formed |
| Streams.RunSafe | stream/stream.py:135-188 | every sequence of scope operations keeps a run well-formed |
| Streams.FreshStreamSafe | stream/stream.py:46-51 | from a new stream, every run stays in a named state, with at most one read and one write scope open |
| Streams.StateMachine.Call | stream/stream.py:119 | a transition along the graph moves the machine; any other is refused and changes nothing |
| Streams.StateFlagScope.Enter | stream/stream.py:143-147 | entering sets the flag, or raises broken pipe when disposed, or an invalid transition |
| Streams.StateFlagScope.Exit | stream/stream.py:149-151 | exiting clears the flag |
| Streams.StateFlagScope.IsSet | stream/stream.py:153-154 | `bool(scope)`: the flag is set, so the stream has left the none state |
| Streams.StateTransScope.Call | stream/stream.py:171-173 | `scope()`: the scope state then the success state, stopping at the first refusal |
| Streams.StateTransScope.Enter | stream/stream.py:175-177 | entering moves to the scope state, after which `bool(scope)` holds; a refused entry leaves `bool(scope)` as it was |
| Streams.StateTransScope.Exit | stream/stream.py:179-184 | exiting moves to the success state, or the fail state when an Exception propagates; once out, `bool(scope)` is false when neither state is the scope state, and a refused exit leaves it as it was |
| Streams.Stream.Disposed | stream/stream.py:114-116 | a disposed stream refuses both scopes with broken pipe; otherwise the disposed bit is clear |
| Streams.Stream.Dispose | stream/stream.py:118-119 | dispose is always allowed and leaves the stream disposed, on the second call too |
| Streams.CopyStep | stream/stream.py:107-109 | one round of the copy: a read of at most bufsize bytes, then one write of it to the sink |
| Streams.CopyLoop | stream/stream.py:107-111 | the copy stops only when the source or the sink is exhausted; what the sink received plus what it refused is exactly what was read, when each write takes a whole chunk |
| Streams.CopyTo | stream/stream.py:91-112 | `copy_to`: the loop with bufsize defaulting to the library default, then one flush of the sink; it raises broken pipe exactly when the sink's flush does |
| Streams.CopyExample | stream/tests/file.py:24-31 | the file test's reader loop, modelled by `CopyTo` with one extra flush of the sink that changes nothing it received, copies 'one', ', two', ', three' into a sink, which receives 'one, two, three' (checked at stream/tests/file.py:65) |
| Coalescing.Singleton.Call | stream/buffered.py:188-193 | a call always hooks its caller; the action starts only when no run is in flight |
| Coalescing.Singleton.Complete | stream/buffered.py:190-192 | completion hands the same value to every waiter, in calling order, and clears the event |
| Coalescing.Singleton.AtMostOneInFlight | stream/buffered.py:181-195 | at most one run of the action is in flight |
| BufferedStreams.ParseUntil | stream/buffered.py:68-84 | `read_until_sub` over the input: up to the end of the first occurrence, or broken pipe with the input untouched when there is none |
| BufferedStreams.RefilledStep | stream/buffered.py:79-83 | `Refilled`, the reference for which chunks `read_until_sub` reads: a miss on the whole buffer with a chunk still scripted is one read of at most buffer_size bytes, appended to the buffer |
| BufferedStreams.RefilledExample | stream/buffered.py:79-83 | chunks `b'1'`, `b'\n'`, `b'2'`: a search for `b'\n'` from an empty buffer reads the first two and leaves `b'2'` unread |
| BufferedStreams.BufferedStream.EnterReading | stream/stream.py:143-147 | the read scope opens exactly when it can, and a refusal leaves the state |
| BufferedStreams.BufferedStream.ExitReading | stream/stream.py:149-151 | the read scope closes back to the state it opened from |
| BufferedStreams.BufferedStream.PullChunk | stream/buffered.py:53 | one inner read of buffer_size into the buffer, taking at most buffer_size bytes off the inner stream's content; the input as a whole is unchanged; broken pipe exactly at the end |
| BufferedStreams.BufferedStream.TakeRead | stream/buffered.py:43 | `dequeue(n)` takes the first n buffered bytes (fewer when shorter) off the front of the input |
| BufferedStreams.BufferedStream.ReadFresh | stream/buffered.py:41-43 | on a buffer without chunks, `read` reads one inner chunk and returns at most size of its bytes; the inner stream loses exactly that chunk's first buffer_size bytes, or nothing on broken pipe |
| BufferedStreams.BufferedStream.ReadBody | stream/buffered.py:40-43 | `read` refills only when the buffer has no chunk, from exactly one inner chunk, then returns at most size bytes off the front of the input; with chunks buffered the inner stream is untouched |
| BufferedStreams.BufferedStream.Read | stream/buffered.py:36-43 | `read(size)`: `b''` for 0, the scope's error when it cannot open, otherwise as the body, pulling at most one inner chunk |
| BufferedStreams.BufferedStream.ReadCheckedBody | stream/buffered.py:40-43 | corrected `read` body: 1 to size bytes off the input, or broken pipe exactly when the input is empty |
| BufferedStreams.BufferedStream.ReadChecked | stream/buffered.py:36-43 | corrected `read(size)` within the read scope, with the contract of stream/stream.py:57-65 |
| BufferedStreams.BufferedStream.ReadUntilSizeBody | stream/buffered.py:51-54 | exactly size bytes off the input, or broken pipe with everything kept buffered |
| BufferedStreams.BufferedStream.ReadUntilSize | stream/buffered.py:45-54 | `read_until_size` is `ReadExactly` over the input, within the read scope; a size of 0 touches neither the buffer nor the inner stream |
| BufferedStreams.BufferedStream.ReadUntilEofBody | stream/buffered.py:60-66 | the whole input, with the inner stream exhausted |
| BufferedStreams.BufferedStream.ReadUntilEof | stream/buffered.py:56-66 | `read_until_eof` returns the whole input within the read scope |
| BufferedStreams.BufferedStream.ScanFor | stream/buffered.py:76-83 | the search loop ends with the first occurrence wholly buffered, or broken pipe when there is none, and the input is unchanged; the inner script left afterwards is exactly `Refilled` of the starting buffer, so it reads one chunk at a time only while no occurrence is buffered, and after any refill the occurrence ends within the last chunk read |
| BufferedStreams.BufferedStream.ScanRound | stream/buffered.py:78-83 | one round finds the first occurrence from the rescan offset without reading, or misses on the whole buffer and performs one `Refilled` step, giving the lookback offset `max(0, len(data) - len(sub))` |
| BufferedStreams.BufferedStream.Refill | stream/buffered.py:82-83 | the refill after a miss keeps the input, and a later match cannot start before the lookback |
| BufferedStreams.BufferedStream.ReadUntilSubBody | stream/buffered.py:76-84 | the search body is `ParseUntil` over the input; the inner script left is `Refilled` of the starting buffer, and after a refill less than buffer_size bytes stay buffered past the delimiter |
| BufferedStreams.BufferedStream.Snapshot | stream/buffered.py:78 | `slice()` returns the whole buffered content, leaving at least one chunk |
| BufferedStreams.BufferedStream.ReadUntilSub | stream/buffered.py:68-84 | `read_until_sub` is `ParseUntil` over the input with `b'\n'` as the default delimiter, within the read scope; the inner script left is `Refilled` of the starting buffer, so it reads from the inner stream only while no occurrence is buffered |
| BufferedStreams.BufferedStream.EnterWriting | stream/stream.py:143-147 | the write scope opens exactly when it can |
| BufferedStreams.BufferedStream.ExitWriting | stream/stream.py:149-151 | the write scope closes back to the state it opened from |
| BufferedStreams.BufferedStream.NextBlock | stream/buffered.py:31 | the next block is the first buffer_size buffered bytes, never empty |
| BufferedStreams.BufferedStream.DropAsWritten | stream/buffered.py:32 | as written: `dequeue(n, False)` drops min(n, len) bytes, but everything when the inner write accepted 0 |
| BufferedStreams.BufferedStream.DropAccepted | stream/buffered.py:32 | corrected: exactly the min(n, len) accepted bytes leave the buffer, none for 0 |
| BufferedStreams.BufferedStream.FlushStep | stream/buffered.py:31-32 | one round moves the accepted bytes from the buffer to the inner stream, keeping the output, and the buffer shrinks |
| BufferedStreams.BufferedStream.FlushBody | stream/buffered.py:29-33 | the flush empties the write buffer into the inner stream and flushes it once, or stops with broken pipe from a write or from the inner flush; when enough writes are accepted the buffer is drained and it succeeds exactly when the inner flush does |
| BufferedStreams.BufferedStream.Flush | stream/buffered.py:25-34 | `flush` within the write scope: the output is kept, and on success it has all reached the inner stream; an inner flush error propagates |
| BufferedStreams.BufferedStream.FlushAndDispose | stream/stream.py:84-89 | flush then dispose; a failed flush, from a write or from the inner flush, leaves the state as it was |
| BufferedStreams.BufferedStream.EnqueueChecked | stream/buffered.py:109-110 | data is enqueued only when the write scope opens |
| BufferedStreams.BufferedStream.Write | stream/buffered.py:101-115 | `write` appends the data to the output; it returns `len(data)` at once up to buffer_size; above it, it flushes, and only above twice buffer_size does a flush error propagate, including one raised by the inner flush |
| BufferedStreams.BufferedStream.WriteSchedule | stream/buffered.py:117-124 | appends to the write buffer, whatever the state, and returns the length |
| BufferedStreams.BufferedStream.WriteBytes | stream/buffered.py:133-137 | schedules the frame of the blob, or raises struct.error before scheduling anything |
| BufferedStreams.BufferedStream.WriteU32List | stream/buffered.py:152-161 | schedules the count record and one record per value up to the first value that does not fit |
| BufferedStreams.BufferedStream.WriteBlobs | stream/buffered.py:177-178 | schedules the blobs back to back |
| BufferedStreams.BufferedStream.WriteBytesList | stream/buffered.py:172-178 | schedules the frame of the blob list exactly when it fits, otherwise the partial record list and struct.error |
| BufferedStreams.BufferedStream.ReadBytes | stream/buffered.py:126-131 | `read_bytes` is `ParseBytes` over the input |
| BufferedStreams.BufferedStream.ReadU32List | stream/buffered.py:139-150 | `read_struct_list` is `ParseU32List` over the input |
| BufferedStreams.BufferedStream.ReadBlobs | stream/buffered.py:167-170 | the blob loop is `ParseBlobs` over the input |
| BufferedStreams.BufferedStream.ReadBytesList | stream/buffered.py:163-170 | `read_bytes_list` is `ParseBytesList` over the input |
| BufferedStreams.StaleChunkExample | stream/buffered.py:36-43 | as written: after `read_until_sub` misses at the end of the stream, `read(1024)` returns `b''` |
| BufferedStreams.StaleChunkFixed | stream/buffered.py:36-43 | corrected: the same calls give broken pipe both times |
| BufferedStreams.ZeroAcceptExample | stream/buffered.py:32 | as written: the drop step applied to an accepted count of 0, with 3 bytes scheduled, leaves nothing buffered though nothing reached the inner stream |
| BufferedStreams.ZeroAcceptFixed | stream/buffered.py:32 | corrected: the same drop step keeps all 3 bytes buffered |

## Left out

- Continuations, `Cont`, `async`/`do_return` and the event loop are not modelled. Every `yield` on a stream operation is a call that returns at once.
- `Event`, `Future` and the internals of `StateMachine` (`compile_graph`, `state_name()`) are not modelled.
  - Their code is not part of this model.
  - `StateMachine.__call__` is modelled as `Transition`: it moves along the graph, or is refused with an invalid-transition error.
- `WrappedStream` (stream/wrapped.py) is not part of this model. Only the `base` link it provides is kept.
- `read_until_regex` is not modelled: regular expressions are outside the model.
- Struct formats other than `'>I'` are not modelled, nor the `complex` flag of `write_struct_list`/`read_struct_list`.
- In `copy_to`, the probe `stream.write(b'')` that tells a synchronous Python sink from an asynchronous one is not modelled. The sink is always an `Inner`, and both branches do the same reads, writes and final flush.
- Streams.CopyTo: `PRETZEL_BUFSIZE` is taken as the parameter `defaultBufsize`, because its value is not part of this model.
- Streams.CopyLoop, Streams.CopyTo: the written bytes are tied to the read bytes only when every write takes a whole chunk (`TakesAtLeast`). With shorter writes the source drops the unaccepted tail, and the contract states only the copied input and the termination condition.
- BufferedStreams.BufferedStream.Flush: `flush` is wrapped by `singleton`, which is modelled separately (`Coalescing.Singleton`). Here each call runs to completion.
- BufferedStreams.BufferedStream.Write: the background flush between one and two buffer sizes (`self.flush()()`) is modelled as an immediate flush whose error is discarded. When it runs relative to later calls is not modelled.
- BufferedStreams.BufferedStream.FlushStep: the bytes moved in one round are bounded by buffer_size; the exact block is stated by `NextBlock`.
- The inner stream is scripted, and its reads never deliver an empty chunk, per the read contract of stream/stream.py:57-65.
- A write that accepts 0 bytes is excluded from the inner stream's script, so `FlushStep` and `FlushBody` are proved only for writes that accept at least one byte. The drop step for 0 is modelled on its own: see `DropAsWritten`/`DropAccepted` under "## Findings". With zero-accepting writes allowed, the flush loop would need a different termination measure.
- `__str__`, `__repr__`, `STATE_NAMES`, `fileno` and `Stream.__enter__` are not modelled: they do not change state.
- Remoting, shell.py and the test harness are not modelled; the file test's copy appears only as `CopyExample`.
- BufferedStreams.BufferedStream.WriteU32List: the values are naturals (`seq<nat>`), so the struct.error that `'>I'` raises for a negative value is not reached here; `Framing.Pack` itself models it.
- Integer widths: sizes are unbounded naturals. The 32-bit limit appears only where `struct.pack('>I')` enforces it.

## Findings

| source | as written | input that shows it | evidently intended | confidence | as-written member | corrected member |
|---|---|---|---|---|---|---|
| stream/buffered.py:40-43 | `read` refills only when `not self.read_buffer`, i.e. when the buffer holds no chunk. `slice()` on a buffer without chunks queues `b''` (stream/buffered.py:224-226). So after `read_until_sub` meets the end of the stream on an empty buffer, `bool(read_buffer)` is true with nothing buffered. Every later `read(n)` returns `b''` without reading, so a copy loop over it never ends. | an inner stream that is already at its end: `read_until_sub()` raises broken pipe, then `read(1024)` returns `b''` | `read` returns 1 to size bytes or raises broken pipe (stream/stream.py:57-65); refill when `len(self.read_buffer) == 0` | high (not executed) | BufferedStreams.StaleChunkExample | BufferedStreams.BufferedStream.ReadChecked |
| stream/buffered.py:32 | The flush loop drops the accepted bytes with `write_buffer.dequeue(n, False)`, where n is what `base.write(block)` returned. `dequeue` starts with `size = size or len(self)` (stream/buffered.py:242), so n == 0 drops the whole write buffer. `Stream.write` only promises to return the length written (stream/stream.py:67-75), which may be 0. | three bytes scheduled, and an inner write that accepts 0 of them: the write buffer is left empty and the inner stream received nothing | only the accepted bytes leave the buffer: skip `dequeue` when n == 0 | medium (not executed) | BufferedStreams.ZeroAcceptExample | BufferedStreams.BufferedStream.DropAccepted |
