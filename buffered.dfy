/** `BufferedStream` (stream/buffered.py): a read buffer and a write buffer
    in front of an inner stream, the framing readers and writers, and the
    flush loop. Asynchronous calls are sequential calls on the inner
    stream. */
module BufferedStreams {
  import opened Common
  import opened Framing
  import opened ChunkBuffer
  import opened InnerStream
  import opened Streams
  import opened Search

  /** `BufferedStream.default_buffer_size`, `1 << 16`. */
  const DEFAULT_BUFFER_SIZE: nat := 0x1_0000

  /** The read scope can be entered from `s`. */
  predicate CanRead(s: StateBits)
  {
    FlagEnter(s, FLAG_READ, STATE_DISPOSED).Ok?
  }

  /** The write scope can be entered from `s`. */
  predicate CanWrite(s: StateBits)
  {
    FlagEnter(s, FLAG_WRITE, STATE_DISPOSED).Ok?
  }

  /** Taking `k` bytes off the front of what is buffered takes them off the
      front of the whole input. */
  lemma MoveOut(buffered: Bytes, rest: Bytes, k: nat)
    requires k <= |buffered|
    ensures buffered + rest == buffered[..k] + (buffered[k..] + rest)
  {
    assert buffered == buffered[..k] + buffered[k..];
  }

  /** The first `n` of the first `m` bytes are the first `min(n, m)`. */
  lemma TakeTake(c: Bytes, m: nat, n: nat)
    requires m <= |c|
    ensures c[..m][..Min(n, m)] == c[..Min(n, m)]
  {
  }

  /** Moving `k` bytes from the write buffer to the inner stream keeps
      the output as it was. */
  lemma MoveIn(written: Bytes, buffered: Bytes, k: nat)
    requires k <= |buffered|
    ensures written + buffered == (written + buffered[..k]) + buffered[k..]
  {
    assert buffered == buffered[..k] + buffered[k..];
  }

  /** `read_until_sub(sub)` over the bytes `s` still to be read: everything
      up to the end of the first occurrence of `sub`, or broken pipe, leaving
      the input as it was, when `sub` does not occur. */
  function ParseUntil(s: Bytes, sub: Bytes): (p: Parsed<Bytes>)
    requires sub != []
    ensures p.result.Ok? <==> Find(s, sub) >= 0
    ensures p.result.Ok? ==> var v := p.result.value;
              s == v + p.rest && |sub| <= |v| && OccursAt(s, sub, |v| - |sub|) && NoneBefore(s, sub, |v| - |sub|)
    ensures p.result.Err? ==> p.result.error == BrokenPipe(false) && p.rest == s && NoneBefore(s, sub, |s| + 1)
  {
    var j := Find(s, sub);
    if j < 0 then Parsed(Err(BrokenPipe(false)), s)
    else
      assert s == s[..j + |sub|] + s[j + |sub|..];
      Parsed(Ok(s[..j + |sub|]), s[j + |sub|..])
  }

  /** The inner script left once `read_until_sub` stops refilling, from
      the buffered bytes `buf`: one read of `size` at a time, only while
      `buf` holds no occurrence of `sub` and the script is not exhausted. */
  ghost function Refilled(buf: Bytes, pending: seq<Bytes>, size: nat, sub: Bytes): seq<Bytes>
    requires [] !in pending && size >= 1
    decreases |Flatten(pending)|
  {
    if Find(buf, sub) >= 0 || pending == [] then pending
    else
      ReadShrinks(pending, size);
      Refilled(buf + pending[0][..Min(size, |pending[0]|)], AfterRead(pending, size), size, sub)
  }

  /** A miss on the whole buffer, with a chunk still scripted, is one
      refill step of `Refilled`. */
  lemma RefilledStep(buf: Bytes, pending: seq<Bytes>, size: nat, sub: Bytes)
    requires [] !in pending && size >= 1 && pending != [] && NoneBefore(buf, sub, |buf| + 1)
    ensures [] !in AfterRead(pending, size)
    ensures Refilled(buf, pending, size, sub) ==
            Refilled(buf + pending[0][..Min(size, |pending[0]|)], AfterRead(pending, size), size, sub)
  {
    ReadShrinks(pending, size);
  }

  /** Lines `b'1'`, `b'\n'`, `b'2'` arriving as three chunks: a search for
      `b'\n'` from an empty buffer reads the first two and leaves the
      third unread. */
  lemma RefilledExample()
    ensures Refilled([], [[49], [10], [50]], 16, [10]) == [[50]]
  {
    RefilledFirstLine();
    RefilledSecondLine();
    RefilledLineFound();
  }

  /** With `b'1\n'` buffered the newline is found, so nothing more is read. */
  lemma RefilledLineFound()
    ensures Refilled([49, 10], [[50]], 16, [10]) == [[50]]
  {
    var line: Bytes := [49, 10];
    var nl: Bytes := [10];
    assert line[1..2] == nl;
    assert !OccursAt(line, nl, 0) by { assert line[0..1] == [49] && line[0] != nl[0]; }
    FindIsFirst(line, nl, 1);
  }

  /** The first chunk `b'1'` holds no newline, so it is read. */
  lemma RefilledFirstLine()
    ensures Refilled([], [[49], [10], [50]], 16, [10]) == Refilled([49], [[10], [50]], 16, [10])
  {
    var p: seq<Bytes> := [[49], [10], [50]];
    assert [] !in p by { assert forall i | 0 <= i < |p| :: p[i] != []; }
    assert p[0][..Min(16, |p[0]|)] == [49] && AfterRead(p, 16) == [[10], [50]];
    RefilledStep([], p, 16, [10]);
    assert [] + [49] == [49];
  }

  /** After `b'1'`, still no newline, so the chunk `b'\n'` is read. */
  lemma RefilledSecondLine()
    ensures Refilled([49], [[10], [50]], 16, [10]) == Refilled([49, 10], [[50]], 16, [10])
  {
    var q: seq<Bytes> := [[10], [50]];
    var one: Bytes := [49];
    var nl: Bytes := [10];
    assert [] !in q by { assert forall i | 0 <= i < |q| :: q[i] != []; }
    assert !OccursAt(one, nl, 0) by { assert one[0..1] == one && one[0] != nl[0]; }
    assert NoneBefore(one, nl, |one| + 1);
    assert q[0][..Min(16, |q[0]|)] == [10] && AfterRead(q, 16) == [[50]];
    RefilledStep(one, q, 16, [10]);
    assert one + [10] == [49, 10];
  }

  class BufferedStream {
    const base: Inner
    /** The stream's own state machine and scopes. */
    const core: Stream
    const bufferSize: nat
    const readBuffer: Buffer
    const writeBuffer: Buffer

    ghost predicate Valid()
      reads this, base, core, core.machine, readBuffer, writeBuffer
    {
      base.Valid() && core.Valid() && readBuffer.Valid() && writeBuffer.Valid() &&
      readBuffer != writeBuffer && bufferSize >= 1 && NoEmptyChunks(writeBuffer.chunks)
    }

    /** The bytes still to be read: what is buffered, then what the inner
        stream will deliver. */
    ghost function Input(): Bytes
      reads this, base, readBuffer
      requires readBuffer.Valid()
    {
      readBuffer.Contents() + base.Content()
    }

    /** Everything written through this stream: what reached the inner
        stream, then what is still buffered. */
    ghost function Output(): Bytes
      reads this, base, writeBuffer
      requires writeBuffer.Valid()
    {
      base.written + writeBuffer.Contents()
    }

    /** After a flush that got through: nothing is left buffered, the
        inner stream holds the output `out0`, and it was flushed once more
        than the `flushes0` times before. */
    ghost predicate Drained(out0: Bytes, flushes0: nat)
      reads this, base, writeBuffer
      requires writeBuffer.Valid()
    {
      writeBuffer.Contents() == [] && base.written == out0 && base.flushes == flushes0 + 1
    }

    /** `BufferedStream(base, buffer_size)`; a `bufferSize` of 0 (or None)
        is the default. */
    constructor (base: Inner, bufferSize: nat)
      requires base.Valid()
      ensures Valid() && fresh(core) && fresh(core.machine) && fresh(readBuffer) && fresh(writeBuffer)
      ensures this.base == base && this.bufferSize == (if bufferSize == 0 then DEFAULT_BUFFER_SIZE else bufferSize)
      ensures core.machine.state == STATE_NONE && readBuffer.Contents() == [] && writeBuffer.Contents() == []
    {
      this.base := base;
      this.bufferSize := if bufferSize == 0 then DEFAULT_BUFFER_SIZE else bufferSize;
      core := new Stream();
      readBuffer := new Buffer();
      writeBuffer := new Buffer();
    }

    /** `with self.reading:` on entry. */
    method EnterReading() returns (o: Outcome)
      requires Valid()
      modifies core.machine
      ensures Valid()
      ensures o.Pass? <==> CanRead(old(core.machine.state))
      ensures o.Fail? ==> o.error == FlagEnter(old(core.machine.state), FLAG_READ, STATE_DISPOSED).error &&
                          core.machine.state == old(core.machine.state)
      ensures o.Pass? ==> core.machine.state == FlagEnter(old(core.machine.state), FLAG_READ, STATE_DISPOSED).value
    {
      o := core.reading.Enter();
    }

    /** `with self.reading:` on exit, back to the state it was entered from. */
    method ExitReading(ghost s0: StateBits)
      requires Valid() && CanRead(s0) && core.machine.state == FlagEnter(s0, FLAG_READ, STATE_DISPOSED).value
      modifies core.machine
      ensures Valid() && core.machine.state == s0
    {
      EnterExitRestores(s0, FLAG_READ);
      var x := core.reading.Exit();
    }

    /** The body of `read(size)` inside the scope: one inner read of
        `bufferSize` only when the buffer holds no chunk, then up to `size`
        buffered bytes. */
    method ReadBody(size: nat) returns (r: Result<Bytes>)
      requires Valid() && size > 0
      modifies base, readBuffer
      ensures Valid()
      ensures base.accepts == old(base.accepts) && base.written == old(base.written)
      ensures r.Ok? ==> |r.value| <= size && old(Input()) == r.value + Input()
      ensures old(readBuffer.HasChunks()) ==>
                base.pending == old(base.pending) &&
                r == Ok(old(readBuffer.Contents())[..Min(size, old(readBuffer.Len()))])
      ensures !old(readBuffer.HasChunks()) ==>
                (r.Err? <==> old(base.pending) == []) &&
                (r.Err? ==> r.error == BrokenPipe(false) && Input() == old(Input()) && base.pending == old(base.pending)) &&
                (r.Ok? ==> r.value == old(base.pending)[0][..Min(size, Min(bufferSize, |old(base.pending)[0]|))] &&
                           base.Content() == old(base.Content())[Min(bufferSize, |old(base.pending)[0]|)..])
    {
      if !readBuffer.HasChunks() {
        r := ReadFresh(size);
      } else {
        var d := TakeRead(size);
        r := Ok(d);
      }
    }

    /** `read(size)` on a buffer without chunks: one inner read, then up to
        `size` of its bytes. */
    method ReadFresh(size: nat) returns (r: Result<Bytes>)
      requires Valid() && size > 0 && !readBuffer.HasChunks()
      modifies base, readBuffer
      ensures Valid()
      ensures base.accepts == old(base.accepts) && base.written == old(base.written)
      ensures r.Err? <==> old(base.pending) == []
      ensures r.Err? ==> r.error == BrokenPipe(false) && Input() == old(Input()) && base.pending == old(base.pending)
      ensures r.Ok? ==> r.value == old(base.pending)[0][..Min(size, Min(bufferSize, |old(base.pending)[0]|))] &&
                        old(Input()) == r.value + Input()
      ensures r.Ok? ==> base.Content() == old(base.Content())[Min(bufferSize, |old(base.pending)[0]|)..]
    {
      ghost var p0 := base.pending;
      var pulled := PullChunk();
      if pulled.Fail? {
        return Err(pulled.error);
      }
      ghost var m := Min(bufferSize, |p0[0]|);
      assert readBuffer.Contents() == p0[0][..m];
      var d := TakeRead(size);
      TakeTake(p0[0], m, size);
      r := Ok(d);
    }

    /** One inner read of `bufferSize` into the read buffer; the input as a
        whole does not change. */
    method PullChunk() returns (o: Outcome)
      requires Valid()
      modifies base, readBuffer
      ensures Valid() && Input() == old(Input())
      ensures base.accepts == old(base.accepts) && base.written == old(base.written)
      ensures o.Fail? <==> old(base.pending) == []
      ensures o.Fail? ==> o.error == BrokenPipe(false) && base.pending == old(base.pending) &&
                          readBuffer.Contents() == old(readBuffer.Contents()) && readBuffer.chunks == old(readBuffer.chunks)
      ensures o.Pass? ==> |base.Content()| < |old(base.Content())| &&
                          base.Content() == old(base.Content())[Min(bufferSize, |old(base.pending)[0]|)..] &&
                          base.pending == AfterRead(old(base.pending), bufferSize)
      ensures o.Pass? ==> readBuffer.Contents() == old(readBuffer.Contents()) +
                                                   old(base.pending)[0][..Min(bufferSize, |old(base.pending)[0]|)]
    {
      ghost var buffered, p0, rest0 := readBuffer.Contents(), base.pending, base.Content();
      var chunk := base.Read(bufferSize);
      if chunk.Err? {
        return Fail(chunk.error);
      }
      assert chunk.value == p0[0][..Min(bufferSize, |p0[0]|)] && rest0 == chunk.value + base.Content();
      readBuffer.Enqueue(chunk.value);
      assert readBuffer.Contents() == buffered + chunk.value;
      Assoc(buffered, chunk.value, base.Content());
      o := Pass;
    }

    /** `read_buffer.dequeue(n)` for `n > 0`: up to `n` buffered bytes off
        the front of the input. */
    method TakeRead(n: nat) returns (d: Bytes)
      requires Valid() && n > 0
      modifies readBuffer
      ensures Valid()
      ensures d == old(readBuffer.Contents())[..Min(n, old(readBuffer.Len()))]
      ensures readBuffer.Contents() == old(readBuffer.Contents())[|d|..]
      ensures old(Input()) == d + Input()
    {
      ghost var buffered := readBuffer.Contents();
      var x := readBuffer.Dequeue(n, true);
      d := x.value;
      MoveOut(buffered, base.Content(), |d|);
    }

    /** `read(size)`: `b''` at once for a size of 0, otherwise the body
        within the read scope. */
    method Read(size: nat) returns (r: Result<Bytes>)
      requires Valid()
      modifies base, readBuffer, core.machine
      ensures Valid() && core.machine.state == old(core.machine.state)
      ensures base.accepts == old(base.accepts) && base.written == old(base.written)
      ensures size == 0 ==> r == Ok([]) && base.pending == old(base.pending) && readBuffer.Contents() == old(readBuffer.Contents())
      ensures size > 0 && !CanRead(old(core.machine.state)) ==>
                r == Err(FlagEnter(old(core.machine.state), FLAG_READ, STATE_DISPOSED).error) &&
                base.pending == old(base.pending) && readBuffer.Contents() == old(readBuffer.Contents())
      ensures r.Ok? ==> |r.value| <= size && old(Input()) == r.value + Input()
      ensures size > 0 && CanRead(old(core.machine.state)) && old(readBuffer.HasChunks()) ==>
                base.pending == old(base.pending) &&
                r == Ok(old(readBuffer.Contents())[..Min(size, old(readBuffer.Len()))])
      ensures size > 0 && CanRead(old(core.machine.state)) && !old(readBuffer.HasChunks()) ==>
                (r.Err? <==> old(base.pending) == []) &&
                (r.Err? ==> r.error == BrokenPipe(false) && Input() == old(Input()) && base.pending == old(base.pending)) &&
                (r.Ok? ==> r.value == old(base.pending)[0][..Min(size, Min(bufferSize, |old(base.pending)[0]|))] &&
                           base.Content() == old(base.Content())[Min(bufferSize, |old(base.pending)[0]|)..])
    {
      if size == 0 {
        return Ok([]);
      }
      ghost var s0 := core.machine.state;
      var e := EnterReading();
      if e.Fail? {
        return Err(e.error);
      }
      r := ReadBody(size);
      ExitReading(s0);
    }

    /** The body of `read(size)` with the refill decided by
        `len(read_buffer)` instead of `bool(read_buffer)`: a buffer left
        holding only an empty chunk is refilled too. */
    method ReadCheckedBody(size: nat) returns (r: Result<Bytes>)
      requires Valid() && size > 0
      modifies base, readBuffer
      ensures Valid()
      ensures base.accepts == old(base.accepts) && base.written == old(base.written)
      ensures r.Err? <==> old(Input()) == []
      ensures r.Err? ==> r.error == BrokenPipe(false) && Input() == old(Input())
      ensures r.Ok? ==> 1 <= |r.value| <= size && old(Input()) == r.value + Input()
    {
      if readBuffer.Len() == 0 {
        base.ContentEmpty();
        assert Input() == base.Content();
        ghost var p0 := base.pending;
        var pulled := PullChunk();
        if pulled.Fail? {
          return Err(pulled.error);
        }
        assert p0[0] in p0;
        assert readBuffer.Contents() == p0[0][..Min(bufferSize, |p0[0]|)];
      }
      var d := TakeRead(size);
      r := Ok(d);
    }

    /** `read(size)` as `Stream.read` promises it: between 1 and `size`
        bytes, or broken pipe exactly when nothing is left to read. */
    method ReadChecked(size: nat) returns (r: Result<Bytes>)
      requires Valid()
      modifies base, readBuffer, core.machine
      ensures Valid() && core.machine.state == old(core.machine.state)
      ensures base.accepts == old(base.accepts) && base.written == old(base.written)
      ensures size == 0 ==> r == Ok([]) && Input() == old(Input())
      ensures size > 0 && !CanRead(old(core.machine.state)) ==>
                r == Err(FlagEnter(old(core.machine.state), FLAG_READ, STATE_DISPOSED).error) && Input() == old(Input())
      ensures size > 0 && CanRead(old(core.machine.state)) ==>
                (r.Err? <==> old(Input()) == []) &&
                (r.Err? ==> r.error == BrokenPipe(false) && Input() == old(Input())) &&
                (r.Ok? ==> 1 <= |r.value| <= size && old(Input()) == r.value + Input())
    {
      if size == 0 {
        return Ok([]);
      }
      ghost var s0 := core.machine.state;
      var e := EnterReading();
      if e.Fail? {
        return Err(e.error);
      }
      r := ReadCheckedBody(size);
      ExitReading(s0);
    }

    /** The body of `read_until_size(size)` inside the scope: refill until
        `size` bytes are buffered, then take them. */
    method ReadUntilSizeBody(size: nat) returns (r: Result<Bytes>)
      requires Valid() && size > 0
      modifies base, readBuffer
      ensures Valid()
      ensures base.accepts == old(base.accepts) && base.written == old(base.written)
      ensures var p := ReadExactly(old(Input()), size); r == p.result && Input() == p.rest
    {
      ghost var input0 := Input();
      while readBuffer.Len() < size
        invariant Valid() && Input() == input0
        invariant base.accepts == old(base.accepts) && base.written == old(base.written)
        decreases |base.Content()|
      {
        var pulled := PullChunk();
        if pulled.Fail? {
          assert input0 == readBuffer.Contents() + [];
          return Err(pulled.error);
        }
      }
      var d := TakeRead(size);
      r := Ok(d);
    }

    /** `read_until_size(size)`: exactly `size` bytes, or broken pipe when
        the stream ends first (keeping what arrived buffered); `b''` at once
        for a size of 0. */
    method ReadUntilSize(size: nat) returns (r: Result<Bytes>)
      requires Valid()
      modifies base, readBuffer, core.machine
      ensures Valid() && core.machine.state == old(core.machine.state)
      ensures base.accepts == old(base.accepts) && base.written == old(base.written)
      ensures size == 0 || CanRead(old(core.machine.state)) ==>
                var p := ReadExactly(old(Input()), size); r == p.result && Input() == p.rest
      ensures size == 0 ==> base.pending == old(base.pending) && readBuffer.Contents() == old(readBuffer.Contents())
      ensures size > 0 && !CanRead(old(core.machine.state)) ==>
                r == Err(FlagEnter(old(core.machine.state), FLAG_READ, STATE_DISPOSED).error) && Input() == old(Input())
    {
      if size == 0 {
        return Ok([]);
      }
      ghost var s0 := core.machine.state;
      var e := EnterReading();
      if e.Fail? {
        return Err(e.error);
      }
      r := ReadUntilSizeBody(size);
      ExitReading(s0);
    }

    /** The body of `read_until_eof()` inside the scope: refill until the
        inner stream raises broken pipe, then take everything. */
    method ReadUntilEofBody() returns (r: Result<Bytes>)
      requires Valid()
      modifies base, readBuffer
      ensures Valid()
      ensures base.accepts == old(base.accepts) && base.written == old(base.written)
      ensures r == Ok(old(Input())) && Input() == [] && base.pending == []
    {
      ghost var input0 := Input();
      while true
        invariant Valid() && Input() == input0
        invariant base.accepts == old(base.accepts) && base.written == old(base.written)
        decreases |base.Content()|
      {
        var pulled := PullChunk();
        if pulled.Fail? {
          break;
        }
      }
      ghost var buffered := readBuffer.Contents();
      assert buffered + [] == buffered;
      var x := readBuffer.Dequeue(0, true);
      assert buffered[..|buffered|] == buffered;
      r := Ok(x.value);
    }

    /** `read_until_eof()`. */
    method ReadUntilEof() returns (r: Result<Bytes>)
      requires Valid()
      modifies base, readBuffer, core.machine
      ensures Valid() && core.machine.state == old(core.machine.state)
      ensures base.accepts == old(base.accepts) && base.written == old(base.written)
      ensures CanRead(old(core.machine.state)) ==> r == Ok(old(Input())) && Input() == [] && base.pending == []
      ensures !CanRead(old(core.machine.state)) ==>
                r == Err(FlagEnter(old(core.machine.state), FLAG_READ, STATE_DISPOSED).error) && Input() == old(Input())
    {
      ghost var s0 := core.machine.state;
      var e := EnterReading();
      if e.Fail? {
        return Err(e.error);
      }
      r := ReadUntilEofBody();
      ExitReading(s0);
    }

    /** The search loop of `read_until_sub(sub)`: look for `sub` in the
        whole buffer, from `offset` on; on a miss rescan later from
        `max(0, len(data) - len(sub))` and refill. Gives the position of the
        first occurrence in the input, which is then wholly buffered. */
    method ScanFor(sub: Bytes) returns (r: Result<nat>)
      requires Valid() && sub != []
      modifies base, readBuffer
      ensures Valid() && Input() == old(Input())
      ensures base.accepts == old(base.accepts) && base.written == old(base.written)
      ensures r.Ok? ==> r.value == Find(Input(), sub) && r.value + |sub| <= readBuffer.Len()
      ensures r.Err? ==> r.error == BrokenPipe(false) && Find(Input(), sub) < 0 && readBuffer.HasChunks()
      ensures Find(old(readBuffer.Contents()), sub) >= 0 ==> base.pending == old(base.pending)
      ensures r.Ok? && base.pending != old(base.pending) ==> readBuffer.Len() < r.value + |sub| + bufferSize
      ensures base.pending == Refilled(old(readBuffer.Contents()), old(base.pending), bufferSize, sub)
    {
      ghost var refilled, miss;
      r, refilled, miss := ScanLoop(sub);
      if r.Ok? && refilled {
        FindPastMiss(readBuffer.Contents(), miss, sub);
      }
    }

    /** The loop of `ScanFor`. `refilled` tells whether it read from the
        inner stream at all, and `miss` is then the buffer it last missed
        on before reading. */
    method ScanLoop(sub: Bytes) returns (r: Result<nat>, ghost refilled: bool, ghost miss: Bytes)
      requires Valid() && sub != []
      modifies base, readBuffer
      ensures Valid() && Input() == old(Input())
      ensures base.accepts == old(base.accepts) && base.written == old(base.written)
      ensures r.Ok? ==> r.value == Find(Input(), sub) && r.value == Find(readBuffer.Contents(), sub) &&
                        r.value + |sub| <= readBuffer.Len()
      ensures r.Err? ==> r.error == BrokenPipe(false) && Find(Input(), sub) < 0 && readBuffer.HasChunks()
      ensures base.pending == Refilled(old(readBuffer.Contents()), old(base.pending), bufferSize, sub)
      ensures !refilled ==> base.pending == old(base.pending)
      ensures refilled ==> |miss| <= readBuffer.Len() <= |miss| + bufferSize &&
                           readBuffer.Contents()[..|miss|] == miss && NoneBefore(miss, sub, |miss| + 1)
    {
      ghost var input0 := Input();
      ghost var left := Refilled(readBuffer.Contents(), base.pending, bufferSize, sub);
      refilled, miss := false, [];
      var offset: nat := 0;
      while true
        invariant Valid() && Input() == input0
        invariant base.accepts == old(base.accepts) && base.written == old(base.written)
        invariant offset <= readBuffer.Len() && NoneBefore(readBuffer.Contents(), sub, offset)
        invariant Refilled(readBuffer.Contents(), base.pending, bufferSize, sub) == left
        invariant !refilled ==> base.pending == old(base.pending)
        invariant refilled ==> |miss| <= readBuffer.Len() <= |miss| + bufferSize &&
                               readBuffer.Contents()[..|miss|] == miss && NoneBefore(miss, sub, |miss| + 1)
        decreases |base.Content()|
      {
        ghost var before := readBuffer.Contents();
        var found, more, next := ScanRound(sub, offset);
        if found >= 0 {
          return Ok(offset + found), refilled, miss;
        }
        if more.Fail? {
          return Err(more.error), refilled, miss;
        }
        refilled, miss, offset := true, before, next;
      }
    }

    /** One round of the search loop from `offset`: look for `sub` in the
        whole buffer; on a miss refill once, and give the offset to rescan
        from. */
    method ScanRound(sub: Bytes, offset: nat) returns (found: int, o: Outcome, next: nat)
      requires Valid() && sub != [] && offset <= readBuffer.Len() && NoneBefore(readBuffer.Contents(), sub, offset)
      modifies base, readBuffer
      ensures Valid() && Input() == old(Input())
      ensures base.accepts == old(base.accepts) && base.written == old(base.written)
      ensures Refilled(readBuffer.Contents(), base.pending, bufferSize, sub) ==
              Refilled(old(readBuffer.Contents()), old(base.pending), bufferSize, sub)
      ensures found >= 0 ==> base.pending == old(base.pending) && readBuffer.Contents() == old(readBuffer.Contents()) &&
                             offset + found == Find(Input(), sub) && offset + found == Find(readBuffer.Contents(), sub) &&
                             offset + found + |sub| <= readBuffer.Len()
      ensures found < 0 && o.Fail? ==> o.error == BrokenPipe(false) && Find(Input(), sub) < 0 && readBuffer.HasChunks()
      ensures found < 0 && o.Fail? ==> base.pending == old(base.pending) == [] &&
                                       readBuffer.Contents() == old(readBuffer.Contents())
      ensures found < 0 && o.Pass? ==>
                |base.Content()| < old(|base.Content()|) &&
                |old(readBuffer.Contents())| <= readBuffer.Len() <= |old(readBuffer.Contents())| + bufferSize &&
                readBuffer.Contents()[..|old(readBuffer.Contents())|] == old(readBuffer.Contents()) &&
                NoneBefore(old(readBuffer.Contents()), sub, |old(readBuffer.Contents())| + 1) &&
                next <= readBuffer.Len() && NoneBefore(readBuffer.Contents(), sub, next)
    {
      var data := Snapshot();
      found := Find(data[offset..], sub);
      if found >= 0 {
        FoundInBuffer(data, base.Content(), sub, offset);
        return found, Pass, offset;
      }
      FindFrom(data, sub, offset);
      next := Max(0, |data| - |sub|);
      o := Refill(sub, data);
    }

    /** One refill of `read_until_sub` after a miss on the whole buffer
        `data`: read a chunk from the base stream into the buffer. */
    method Refill(sub: Bytes, ghost data: Bytes) returns (o: Outcome)
      requires Valid() && data == readBuffer.Contents() && NoneBefore(data, sub, |data| + 1)
      modifies base, readBuffer
      ensures Valid() && Input() == old(Input())
      ensures base.accepts == old(base.accepts) && base.written == old(base.written)
      ensures o.Pass? ==> |base.Content()| < old(|base.Content()|) && |data| <= readBuffer.Len() <= |data| + bufferSize &&
                          readBuffer.Contents()[..|data|] == data &&
                          NoneBefore(readBuffer.Contents(), sub, Max(0, |data| - |sub|))
      ensures o.Pass? ==> old(base.pending) != [] && base.pending == AfterRead(old(base.pending), bufferSize) &&
                          readBuffer.Contents() == data + old(base.pending)[0][..Min(bufferSize, |old(base.pending)[0]|)]
      ensures o.Fail? ==> o.error == BrokenPipe(false) && Input() == data && readBuffer.chunks == old(readBuffer.chunks) &&
                          base.pending == old(base.pending) == []
      ensures o.Fail? ==> Find(Input(), sub) < 0
      ensures Refilled(readBuffer.Contents(), base.pending, bufferSize, sub) == Refilled(data, old(base.pending), bufferSize, sub)
    {
      ghost var rest := base.Content();
      if base.pending != [] {
        RefilledStep(data, base.pending, bufferSize, sub);
      }
      o := PullChunk();
      if o.Fail? {
        assert Input() == data + [] && data + [] == data;
        return;
      }
      LookbackSound(data, readBuffer.Contents()[|data|..], sub);
      assert data + readBuffer.Contents()[|data|..] == readBuffer.Contents();
    }

    /** The body of `read_until_sub(sub)` inside the scope: everything up to
        the end of the first occurrence of `sub`. */
    method ReadUntilSubBody(sub: Bytes) returns (r: Result<Bytes>)
      requires Valid() && sub != []
      modifies base, readBuffer
      ensures Valid()
      ensures base.accepts == old(base.accepts) && base.written == old(base.written)
      ensures var p := ParseUntil(old(Input()), sub); r == p.result && Input() == p.rest
      ensures r.Err? ==> readBuffer.HasChunks()
      ensures Find(old(readBuffer.Contents()), sub) >= 0 ==> base.pending == old(base.pending)
      ensures r.Ok? && base.pending != old(base.pending) ==> readBuffer.Len() < bufferSize
      ensures base.pending == Refilled(old(readBuffer.Contents()), old(base.pending), bufferSize, sub)
    {
      var k := ScanFor(sub);
      if k.Err? {
        return Err(k.error);
      }
      ghost var data := readBuffer.Contents();
      var d := TakeRead(k.value + |sub|);
      r := Ok(d);
    }

    /** `read_buffer.slice()`: the whole buffered content, joined into one
        chunk. */
    method Snapshot() returns (data: Bytes)
      requires Valid()
      modifies readBuffer
      ensures Valid() && data == readBuffer.Contents() && readBuffer.Contents() == old(readBuffer.Contents())
      ensures readBuffer.HasChunks()
    {
      data := readBuffer.Slice(0, 0);
      assert data == readBuffer.Contents() by {
        var c := readBuffer.Contents();
        assert |data| == |c|;
        assert forall i :: 0 <= i < |data| ==> data[i] == c[i];
      }
    }

    /** `read_until_sub(sub)`: the input up to and including the first
        occurrence of `sub` (`b'\n'` when `sub` is empty or None), or broken
        pipe, with everything kept buffered, when the stream ends without
        one. */
    method ReadUntilSub(sub: Bytes) returns (r: Result<Bytes>)
      requires Valid()
      modifies base, readBuffer, core.machine
      ensures Valid() && core.machine.state == old(core.machine.state)
      ensures base.accepts == old(base.accepts) && base.written == old(base.written)
      ensures CanRead(old(core.machine.state)) ==>
                var p := ParseUntil(old(Input()), if sub == [] then [10] else sub); r == p.result && Input() == p.rest
      ensures CanRead(old(core.machine.state)) && r.Err? ==> readBuffer.HasChunks()
      ensures Find(old(readBuffer.Contents()), if sub == [] then [10] else sub) >= 0 ==> base.pending == old(base.pending)
      ensures r.Ok? && base.pending != old(base.pending) ==> readBuffer.Len() < bufferSize
      ensures CanRead(old(core.machine.state)) ==>
                base.pending == Refilled(old(readBuffer.Contents()), old(base.pending), bufferSize, if sub == [] then [10] else sub)
      ensures !CanRead(old(core.machine.state)) ==>
                r == Err(FlagEnter(old(core.machine.state), FLAG_READ, STATE_DISPOSED).error) && Input() == old(Input())
    {
      var pat: Bytes := if sub == [] then [10] else sub;
      ghost var s0 := core.machine.state;
      var e := EnterReading();
      if e.Fail? {
        return Err(e.error);
      }
      r := ReadUntilSubBody(pat);
      ExitReading(s0);
    }

    /** `with self.writing:` on entry. */
    method EnterWriting() returns (o: Outcome)
      requires Valid()
      modifies core.machine
      ensures Valid()
      ensures o.Pass? <==> CanWrite(old(core.machine.state))
      ensures o.Fail? ==> o.error == FlagEnter(old(core.machine.state), FLAG_WRITE, STATE_DISPOSED).error &&
                          core.machine.state == old(core.machine.state)
      ensures o.Pass? ==> core.machine.state == FlagEnter(old(core.machine.state), FLAG_WRITE, STATE_DISPOSED).value
    {
      o := core.writing.Enter();
    }

    /** `with self.writing:` on exit, back to the state it was entered from. */
    method ExitWriting(ghost s0: StateBits)
      requires Valid() && CanWrite(s0) && core.machine.state == FlagEnter(s0, FLAG_WRITE, STATE_DISPOSED).value
      modifies core.machine
      ensures Valid() && core.machine.state == s0
    {
      EnterExitRestores(s0, FLAG_WRITE);
      var x := core.writing.Exit();
    }

    /** `write_buffer.slice(buffer_size)`: the first `bufferSize` buffered
        bytes, or all of them when fewer are buffered. */
    method NextBlock() returns (block: Bytes)
      requires Valid() && writeBuffer.HasChunks()
      modifies writeBuffer
      ensures Valid() && writeBuffer.Contents() == old(writeBuffer.Contents())
      ensures block == writeBuffer.Contents()[..Min(bufferSize, writeBuffer.Len())] && block != []
    {
      writeBuffer.NonEmptyHasLength();
      ghost var pending0 := writeBuffer.Contents();
      block := writeBuffer.Slice(bufferSize, 0);
      assert |block| == Min(bufferSize, |pending0|);
    }

    /** `write_buffer.dequeue(n, False)` after an inner write that accepted
        `n` bytes, as written: `dequeue` reads a size of 0 as "everything",
        so a write that accepted nothing empties the buffer. */
    method DropAsWritten(n: nat)
      requires Valid()
      modifies writeBuffer
      ensures Valid()
      ensures writeBuffer.Contents() ==
                old(writeBuffer.Contents())[(if n == 0 then old(writeBuffer.Len()) else Min(n, old(writeBuffer.Len())))..]
    {
      var x := writeBuffer.Dequeue(n, false);
    }

    /** The drop with a 0 skipped: exactly the accepted bytes leave the
        buffer, and none when nothing was accepted. */
    method DropAccepted(n: nat)
      requires Valid()
      modifies writeBuffer
      ensures Valid()
      ensures writeBuffer.Contents() == old(writeBuffer.Contents())[Min(n, old(writeBuffer.Len()))..]
    {
      if n > 0 {
        var x := writeBuffer.Dequeue(n, false);
      } else {
        assert writeBuffer.Contents()[0..] == writeBuffer.Contents();
      }
    }

    /** One round of the flush loop: write the next block and drop as many
        bytes as the inner stream accepted. */
    method FlushStep() returns (o: Outcome)
      requires Valid() && writeBuffer.HasChunks()
      modifies base, writeBuffer
      ensures Valid() && Output() == old(Output())
      ensures base.pending == old(base.pending) && base.flushes == old(base.flushes)
      ensures o.Fail? <==> old(base.accepts) == []
      ensures o.Fail? ==> o.error == BrokenPipe(false) && base.accepts == [] &&
                          writeBuffer.Contents() == old(writeBuffer.Contents())
      ensures o.Pass? ==> base.accepts == old(base.accepts)[1..] && writeBuffer.Len() < old(writeBuffer.Len())
      ensures o.Pass? ==> |base.written| - |old(base.written)| <= bufferSize
    {
      var block := NextBlock();
      ghost var pending0, written0 := writeBuffer.Contents(), base.written;
      assert old(Output()) == written0 + pending0;
      var n := base.Write(block);
      if n.Err? {
        return Fail(n.error);
      }
      DropAccepted(n.value);
      assert writeBuffer.Contents() == pending0[n.value..];
      assert base.written == written0 + pending0[..n.value];
      MoveIn(written0, pending0, n.value);
      assert Output() == base.written + writeBuffer.Contents();
      o := Pass;
    }

    /** The body of `flush` inside the scope: write until no chunk is left,
        then flush the inner stream once. */
    method FlushBody() returns (o: Outcome)
      requires Valid()
      modifies base, writeBuffer
      ensures Valid() && Output() == old(Output())
      ensures base.pending == old(base.pending)
      ensures o.Pass? ==> !base.flushFails && Drained(old(Output()), old(base.flushes))
      ensures o.Fail? ==> o.error == BrokenPipe(false) &&
                          ((base.accepts == [] && base.flushes == old(base.flushes)) ||
                           (base.flushFails && Drained(old(Output()), old(base.flushes))))
      ensures |old(base.accepts)| >= |old(writeBuffer.Contents())| ==>
                Drained(old(Output()), old(base.flushes)) && (o.Pass? <==> !base.flushFails)
    {
      ghost var accepts0, len0 := |base.accepts|, writeBuffer.Len();
      while writeBuffer.HasChunks()
        invariant Valid() && Output() == old(Output())
        invariant base.pending == old(base.pending) && base.flushes == old(base.flushes)
        invariant accepts0 - |base.accepts| <= len0 - writeBuffer.Len()
        decreases writeBuffer.Len()
      {
        writeBuffer.NonEmptyHasLength();
        var step := FlushStep();
        if step.Fail? {
          return step;
        }
      }
      assert base.written + [] == base.written;
      o := base.Flush();
    }

    /** `flush()`: the body within the write scope. Calls made while a
        flush is in flight share its result (see `Coalescing.Singleton`);
        here each call runs to completion. */
    method Flush() returns (o: Outcome)
      requires Valid()
      modifies base, writeBuffer, core.machine
      ensures Valid() && core.machine.state == old(core.machine.state) && Output() == old(Output())
      ensures base.pending == old(base.pending)
      ensures !CanWrite(old(core.machine.state)) ==>
                o == Fail(FlagEnter(old(core.machine.state), FLAG_WRITE, STATE_DISPOSED).error) &&
                base.written == old(base.written) && base.flushes == old(base.flushes) &&
                writeBuffer.Contents() == old(writeBuffer.Contents())
      ensures CanWrite(old(core.machine.state)) && o.Pass? ==>
                !base.flushFails && Drained(old(Output()), old(base.flushes))
      ensures CanWrite(old(core.machine.state)) && o.Fail? ==>
                o.error == BrokenPipe(false) &&
                ((base.accepts == [] && base.flushes == old(base.flushes)) ||
                 (base.flushFails && Drained(old(Output()), old(base.flushes))))
      ensures CanWrite(old(core.machine.state)) && |old(base.accepts)| >= |old(writeBuffer.Contents())| ==>
                Drained(old(Output()), old(base.flushes)) && (o.Pass? <==> !base.flushFails)
    {
      ghost var s0 := core.machine.state;
      o := EnterWriting();
      if o.Fail? {
        return;
      }
      o := FlushBody();
      ExitWriting(s0);
    }

    /** `flush_and_dispose()`: flush, then dispose; a flush that raises
        leaves the stream as it was. */
    method FlushAndDispose() returns (o: Outcome)
      requires Valid()
      modifies base, writeBuffer, core.machine
      ensures Valid() && Output() == old(Output()) && base.pending == old(base.pending)
      ensures !CanWrite(old(core.machine.state)) ==>
                o == Fail(FlagEnter(old(core.machine.state), FLAG_WRITE, STATE_DISPOSED).error)
      ensures o.Pass? ==> core.Disposed() && writeBuffer.Contents() == [] && base.written == old(Output())
      ensures o.Fail? ==> core.machine.state == old(core.machine.state)
      ensures CanWrite(old(core.machine.state)) && |old(base.accepts)| >= |old(writeBuffer.Contents())| ==>
                (o.Pass? <==> !base.flushFails)
    {
      o := Flush();
      if o.Fail? {
        return;
      }
      o := core.Dispose();
    }

    /** `with self.writing: self.write_buffer.enqueue(data)`: the state
        check of `write`. */
    method EnqueueChecked(data: Bytes) returns (o: Outcome)
      requires Valid()
      modifies writeBuffer, core.machine
      ensures Valid() && core.machine.state == old(core.machine.state)
      ensures o.Pass? <==> CanWrite(old(core.machine.state))
      ensures o.Fail? ==> o.error == FlagEnter(old(core.machine.state), FLAG_WRITE, STATE_DISPOSED).error &&
                          writeBuffer.Contents() == old(writeBuffer.Contents())
      ensures o.Pass? ==> writeBuffer.Contents() == old(writeBuffer.Contents()) + data
    {
      ghost var s0 := core.machine.state;
      o := EnterWriting();
      if o.Fail? {
        return;
      }
      writeBuffer.Enqueue(data);
      ExitWriting(s0);
    }

    /** `write(data)`: enqueue within the write scope, then flush and wait
        above twice the buffer size, or flush in the background above the
        buffer size; answers `len(data)`. */
    method Write(data: Bytes) returns (r: Result<nat>)
      requires Valid()
      modifies base, writeBuffer, core.machine
      ensures Valid() && core.machine.state == old(core.machine.state)
      ensures base.pending == old(base.pending)
      ensures !CanWrite(old(core.machine.state)) ==>
                r == Err(FlagEnter(old(core.machine.state), FLAG_WRITE, STATE_DISPOSED).error) &&
                base.written == old(base.written) && base.flushes == old(base.flushes) &&
                writeBuffer.Contents() == old(writeBuffer.Contents())
      ensures CanWrite(old(core.machine.state)) ==> Output() == old(Output()) + data
      ensures CanWrite(old(core.machine.state)) && old(writeBuffer.Len()) + |data| <= bufferSize ==>
                r == Ok(|data|) && base.written == old(base.written) && base.flushes == old(base.flushes) &&
                writeBuffer.Contents() == old(writeBuffer.Contents()) + data
      ensures CanWrite(old(core.machine.state)) && old(writeBuffer.Len()) + |data| > bufferSize ==>
                (r.Ok? ==> r.value == |data|) &&
                (r.Err? ==> old(writeBuffer.Len()) + |data| > 2 * bufferSize && r.error == BrokenPipe(false)) &&
                (|old(base.accepts)| >= old(writeBuffer.Len()) + |data| ==>
                   Drained(old(Output()) + data, old(base.flushes)) &&
                   (r.Ok? <==> !base.flushFails || old(writeBuffer.Len()) + |data| <= 2 * bufferSize))
    {
      var e := EnqueueChecked(data);
      if e.Fail? {
        return Err(e.error);
      }
      if writeBuffer.Len() > 2 * bufferSize {
        var f := Flush();
        if f.Fail? {
          return Err(f.error);
        }
      } else if writeBuffer.Len() > bufferSize {
        var f := Flush();
      }
      r := Ok(|data|);
    }

    /** `write_schedule(data)`: only enqueues, whatever the state. */
    method WriteSchedule(data: Bytes) returns (n: nat)
      requires Valid()
      modifies writeBuffer
      ensures Valid() && n == |data|
      ensures writeBuffer.Contents() == old(writeBuffer.Contents()) + data && Output() == old(Output()) + data
    {
      writeBuffer.Enqueue(data);
      n := |data|;
    }

    /** `write_bytes(blob)`: schedules the length record and the blob;
        `struct.pack` raises, before anything is scheduled, for a blob of
        2^32 bytes or more. */
    method WriteBytes(blob: Bytes) returns (o: Outcome)
      requires Valid()
      modifies writeBuffer
      ensures Valid()
      ensures o.Pass? <==> |blob| < U32_LIMIT
      ensures o.Pass? ==> writeBuffer.Contents() == old(writeBuffer.Contents()) + FrameBytes(blob)
      ensures o.Fail? ==> o.error == StructError && writeBuffer.Contents() == old(writeBuffer.Contents())
    {
      var h := Pack(|blob|);
      if h.Err? {
        return Fail(h.error);
      }
      var n := WriteSchedule(h.value);
      n := WriteSchedule(blob);
      EncodeDecodeU32(h.value);
      o := Pass;
    }

    /** `write_struct_list(xs, size_struct)`: the byte-count record, then one
        record per value. A value of 2^32 or more makes `pack` raise after
        the records before it were scheduled. */
    method WriteU32List(xs: seq<nat>) returns (o: Outcome)
      requires Valid()
      modifies writeBuffer
      ensures Valid()
      ensures U32_SIZE * |xs| >= U32_LIMIT ==>
                o == Fail(StructError) && writeBuffer.Contents() == old(writeBuffer.Contents())
      ensures U32_SIZE * |xs| < U32_LIMIT ==>
                var k := U32PrefixLength(xs);
                writeBuffer.Contents() == old(writeBuffer.Contents()) + EncodeU32(U32_SIZE * |xs|) + EncodeU32List(xs[..k]) &&
                (o.Pass? <==> k == |xs|) && (o.Fail? ==> o.error == StructError)
    {
      var h := Pack(U32_SIZE * |xs|);
      if h.Err? {
        return Fail(h.error);
      }
      EncodeDecodeU32(h.value);
      ghost var start := writeBuffer.Contents() + h.value;
      var n := WriteSchedule(h.value);
      var i := 0;
      while i < |xs|
        invariant Valid() && i <= |xs| && AllU32(xs[..i])
        invariant writeBuffer.Contents() == start + EncodeU32List(xs[..i])
      {
        var p := Pack(xs[i]);
        if p.Err? {
          U32PrefixLengthIs(xs, i);
          return Fail(p.error);
        }
        EncodeDecodeU32(p.value);
        assert xs[..i + 1] == xs[..i] + [xs[i]];
        EncodeU32ListSnoc(xs[..i], xs[i]);
        Assoc(start, EncodeU32List(xs[..i]), p.value);
        n := WriteSchedule(p.value);
        i := i + 1;
      }
      assert xs[..i] == xs;
      U32PrefixLengthIs(xs, i);
      o := Pass;
    }

    /** The blob loop of `write_bytes_list`: each blob scheduled raw. */
    method WriteBlobs(bl: seq<Bytes>)
      requires Valid()
      modifies writeBuffer
      ensures Valid() && writeBuffer.Contents() == old(writeBuffer.Contents()) + Flatten(bl)
    {
      ghost var start := writeBuffer.Contents();
      var i := 0;
      while i < |bl|
        invariant Valid() && i <= |bl|
        invariant writeBuffer.Contents() == start + Flatten(bl[..i])
      {
        assert bl[..i + 1] == bl[..i] + [bl[i]];
        FlattenSnoc(bl[..i], bl[i]);
        Assoc(start, Flatten(bl[..i]), bl[i]);
        var n := WriteSchedule(bl[i]);
        i := i + 1;
      }
      assert bl[..i] == bl;
    }

    /** `write_bytes_list(bl)`: the lengths as a record list, then the blobs
        back to back; stops with the error of `write_struct_list`. */
    method WriteBytesList(bl: seq<Bytes>) returns (o: Outcome)
      requires Valid()
      modifies writeBuffer
      ensures Valid()
      ensures o.Pass? <==> ListFits(bl)
      ensures o.Pass? ==> writeBuffer.Contents() == old(writeBuffer.Contents()) + FrameBytesList(bl)
      ensures o.Fail? ==> o.error == StructError &&
                          writeBuffer.Contents() == old(writeBuffer.Contents()) +
                            if U32_SIZE * |bl| >= U32_LIMIT then []
                            else EncodeU32(U32_SIZE * |bl|) + EncodeU32List(Lengths(bl)[..U32PrefixLength(Lengths(bl))])
    {
      var lens := Lengths(bl);
      ListFitsLengths(bl);
      ghost var c0 := writeBuffer.Contents();
      o := WriteU32List(lens);
      if o.Fail? {
        if U32_SIZE * |bl| >= U32_LIMIT {
          assert c0 + [] == c0;
        }
        return;
      }
      ghost var header := EncodeU32(U32_SIZE * |bl|) + EncodeU32List(lens);
      assert writeBuffer.Contents() == c0 + header by {
        assert lens[..|lens|] == lens;
      }
      WriteBlobs(bl);
      assert FrameBytesList(bl) == header + Flatten(bl);
      Assoc(c0, header, Flatten(bl));
    }

    /** `read_bytes()`: a length record, then that many bytes. */
    method ReadBytes() returns (r: Result<Bytes>)
      requires Valid()
      modifies base, readBuffer, core.machine
      ensures Valid() && core.machine.state == old(core.machine.state)
      ensures base.accepts == old(base.accepts) && base.written == old(base.written)
      ensures CanRead(old(core.machine.state)) ==>
                var p := ParseBytes(old(Input())); r == p.result && Input() == p.rest
      ensures !CanRead(old(core.machine.state)) ==>
                r == Err(FlagEnter(old(core.machine.state), FLAG_READ, STATE_DISPOSED).error) && Input() == old(Input())
    {
      var h := ReadUntilSize(U32_SIZE);
      if h.Err? {
        return h;
      }
      r := ReadUntilSize(DecodeU32(h.value));
    }

    /** `read_struct_list(size_struct)`: a byte-count record, that many
        bytes, decoded as `'>I'` records. */
    method ReadU32List() returns (r: Result<seq<nat>>)
      requires Valid()
      modifies base, readBuffer, core.machine
      ensures Valid() && core.machine.state == old(core.machine.state)
      ensures base.accepts == old(base.accepts) && base.written == old(base.written)
      ensures CanRead(old(core.machine.state)) ==>
                var p := ParseU32List(old(Input())); r == p.result && Input() == p.rest
      ensures !CanRead(old(core.machine.state)) ==>
                r == Err(FlagEnter(old(core.machine.state), FLAG_READ, STATE_DISPOSED).error) && Input() == old(Input())
    {
      var h := ReadUntilSize(U32_SIZE);
      if h.Err? {
        return Err(h.error);
      }
      var d := ReadUntilSize(DecodeU32(h.value));
      if d.Err? {
        return Err(d.error);
      }
      r := DecodeU32List(d.value);
    }

    /** The loop of `read_bytes_list()`: one `read_until_size` per size. */
    method ReadBlobs(sizes: seq<nat>) returns (r: Result<seq<Bytes>>)
      requires Valid() && CanRead(core.machine.state)
      modifies base, readBuffer, core.machine
      ensures Valid() && core.machine.state == old(core.machine.state)
      ensures base.accepts == old(base.accepts) && base.written == old(base.written)
      ensures var p := ParseBlobs(old(Input()), sizes); r == p.result && Input() == p.rest
    {
      ghost var start := Input();
      var blobs: seq<Bytes> := [];
      var i := 0;
      while i < |sizes|
        invariant Valid() && core.machine.state == old(core.machine.state)
        invariant base.accepts == old(base.accepts) && base.written == old(base.written)
        invariant i <= |sizes|
        invariant Prepend(blobs, ParseBlobs(Input(), sizes[i..])) == ParseBlobs(start, sizes)
      {
        ghost var before := Input();
        var b := ReadUntilSize(sizes[i]);
        if b.Err? {
          BlobStop(blobs, before, sizes, i);
          return Err(b.error);
        }
        BlobStep(blobs, before, sizes, i);
        blobs := blobs + [b.value];
        i := i + 1;
      }
      assert sizes[i..] == [];
      assert blobs + [] == blobs;
      r := Ok(blobs);
    }

    /** `read_bytes_list()`: the sizes as a record list, then one
        `read_until_size` per size. */
    method ReadBytesList() returns (r: Result<seq<Bytes>>)
      requires Valid()
      modifies base, readBuffer, core.machine
      ensures Valid() && core.machine.state == old(core.machine.state)
      ensures base.accepts == old(base.accepts) && base.written == old(base.written)
      ensures CanRead(old(core.machine.state)) ==>
                var p := ParseBytesList(old(Input())); r == p.result && Input() == p.rest
      ensures !CanRead(old(core.machine.state)) ==>
                r == Err(FlagEnter(old(core.machine.state), FLAG_READ, STATE_DISPOSED).error) && Input() == old(Input())
    {
      var l := ReadU32List();
      if l.Err? {
        return Err(l.error);
      }
      r := ReadBlobs(l.value);
    }
  }

  /** `read_until_sub` meets the end of a stream whose read buffer held no
      chunk: its `slice` queued an empty chunk, which stays, so `read(n)`
      finds `bool(read_buffer)` true, does not read, and answers `b''`,
      where `Stream.read` promises 1 to `n` bytes or broken pipe. */
  method StaleChunkExample() returns (miss: Result<Bytes>, r: Result<Bytes>)
    ensures miss == Err(BrokenPipe(false)) && r == Ok([])
  {
    var inner := new Inner([], [], false);
    var s := new BufferedStream(inner, 0);
    var init := s.core.initing.Call();
    assert Transition(STATE_NONE, STATE_INIT) == Ok(STATE_INIT) && Transition(STATE_INIT, STATE_IDLE) == Ok(STATE_IDLE);
    assert s.core.machine.state == STATE_IDLE && CanRead(STATE_IDLE) && s.Input() == [];
    miss := s.ReadUntilSub([]);
    assert s.readBuffer.HasChunks() && s.readBuffer.Len() == 0;
    r := s.Read(1024);
  }

  /** The same calls with the corrected `read`: broken pipe both times. */
  method StaleChunkFixed() returns (miss: Result<Bytes>, r: Result<Bytes>)
    ensures miss == Err(BrokenPipe(false)) && r == Err(BrokenPipe(false))
  {
    var inner := new Inner([], [], false);
    var s := new BufferedStream(inner, 0);
    var init := s.core.initing.Call();
    assert Transition(STATE_NONE, STATE_INIT) == Ok(STATE_INIT) && Transition(STATE_INIT, STATE_IDLE) == Ok(STATE_IDLE);
    assert s.core.machine.state == STATE_IDLE && CanRead(STATE_IDLE) && s.Input() == [];
    miss := s.ReadUntilSub([]);
    assert s.Input() == [];
    r := s.ReadChecked(1024);
  }

  /** The drop step of a flush round applied to an accepted count of 0,
      with three bytes scheduled: the drop as written leaves nothing
      buffered, though nothing reached the inner stream, so the three bytes
      are lost. */
  method ZeroAcceptExample() returns (scheduled: nat, buffered: nat, reached: Bytes)
    ensures scheduled == 3 && buffered == 0 && reached == []
  {
    var inner := new Inner([], [], false);
    var s := new BufferedStream(inner, 0);
    scheduled := s.WriteSchedule([1, 2, 3]);
    s.DropAsWritten(0);
    buffered := s.writeBuffer.Len();
    reached := inner.written;
  }

  /** The same step with the corrected drop: the three bytes stay
      buffered for the next round. */
  method ZeroAcceptFixed() returns (scheduled: nat, buffered: nat, reached: Bytes)
    ensures scheduled == 3 && buffered == 3 && reached == []
  {
    var inner := new Inner([], [], false);
    var s := new BufferedStream(inner, 0);
    scheduled := s.WriteSchedule([1, 2, 3]);
    s.DropAccepted(0);
    buffered := s.writeBuffer.Len();
    reached := inner.written;
  }
}
