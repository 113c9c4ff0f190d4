/** The stream a `BufferedStream` wraps, and the two ends of `copy_to`.
    Its behaviour is scripted: the chunks its reads will deliver (then
    broken pipe), how many bytes each write will accept (then broken
    pipe), and whether its flushes raise broken pipe. */
module InnerStream {
  import opened Common

  /** Every queued chunk is non-empty and every write accepts at least one
      byte: the contract of `Stream.read` ([1..size] bytes or
      BrokenPipeError) and of a write that makes progress. */
  ghost predicate Scripted(pending: seq<Bytes>, accepts: seq<nat>)
  {
    [] !in pending && 0 !in accepts
  }

  /** The script after one read of `size` bytes: the first chunk loses the
      bytes delivered, and goes when it is used up. */
  function AfterRead(pending: seq<Bytes>, size: nat): seq<Bytes>
    requires pending != []
  {
    var n := Min(size, |pending[0]|);
    if n == |pending[0]| then pending[1..] else [pending[0][n..]] + pending[1..]
  }

  /** A read delivers the front of the script's content, the rest is what
      `AfterRead` leaves, and that is still scripted without empty chunks. */
  lemma ReadShrinks(pending: seq<Bytes>, size: nat)
    requires pending != [] && [] !in pending && size >= 1
    ensures var n := Min(size, |pending[0]|);
            n >= 1 && Flatten(pending) == pending[0][..n] + Flatten(AfterRead(pending, size)) &&
            [] !in AfterRead(pending, size)
  {
    assert pending[0] in pending;
    ReadRestContent(pending, Min(size, |pending[0]|));
    ReadRestNoEmpty(pending, Min(size, |pending[0]|));
  }

  lemma ReadRestContent(pending: seq<Bytes>, n: nat)
    requires pending != [] && n <= |pending[0]|
    ensures Flatten(pending) ==
            pending[0][..n] + Flatten(if n == |pending[0]| then pending[1..] else [pending[0][n..]] + pending[1..])
  {
    var c := pending[0];
    assert Flatten(pending) == c + Flatten(pending[1..]);
    if n < |c| {
      var q := [c[n..]] + pending[1..];
      assert q[0] == c[n..] && q[1..] == pending[1..];
      assert Flatten(q) == c[n..] + Flatten(pending[1..]);
      assert c == c[..n] + c[n..];
      Assoc(c[..n], c[n..], Flatten(pending[1..]));
    } else {
      assert c[..n] == c;
    }
  }

  lemma ReadRestNoEmpty(pending: seq<Bytes>, n: nat)
    requires pending != [] && [] !in pending && n <= |pending[0]|
    ensures [] !in (if n == |pending[0]| then pending[1..] else [pending[0][n..]] + pending[1..])
  {
    var q := if n == |pending[0]| then pending[1..] else [pending[0][n..]] + pending[1..];
    forall i | 0 <= i < |q| ensures q[i] != [] {
      if n < |pending[0]| && i == 0 {
      } else {
        var k := if n == |pending[0]| then i + 1 else i;
        assert q[i] == pending[k];
        assert pending[k] in pending;
      }
    }
  }

  class Inner {
    /** What later reads deliver; once it is empty every read raises. */
    var pending: seq<Bytes>
    /** How many bytes each later write accepts; once empty every write raises. */
    var accepts: seq<nat>
    /** Everything written so far. */
    var written: Bytes
    /** How many times a flush was attempted. */
    var flushes: nat
    /** Every flush raises broken pipe (a sink whose own base is broken). */
    const flushFails: bool

    ghost predicate Valid()
      reads this
    {
      Scripted(pending, accepts)
    }

    /** The bytes still to be read. */
    ghost function Content(): Bytes
      reads this
    {
      Flatten(pending)
    }

    /** With no empty chunk scripted, nothing is left to read exactly when no
        read will succeed. */
    lemma ContentEmpty()
      requires Valid()
      ensures Content() == [] <==> pending == []
    {
      if pending != [] {
        assert pending[0] in pending;
      }
    }

    constructor (pending: seq<Bytes>, accepts: seq<nat>, flushFails: bool)
      requires Scripted(pending, accepts)
      ensures Valid()
      ensures this.pending == pending && this.accepts == accepts && written == [] && flushes == 0
      ensures this.flushFails == flushFails
    {
      this.pending, this.accepts, this.flushFails := pending, accepts, flushFails;
      written, flushes := [], 0;
    }

    /** `read(size)`: between 1 and `size` bytes from the front, or
        BrokenPipeError once the stream is exhausted. */
    method Read(size: nat) returns (r: Result<Bytes>)
      requires Valid() && size >= 1
      modifies this
      ensures Valid()
      ensures r.Err? <==> old(pending) == []
      ensures r.Err? ==> r.error == BrokenPipe(false) && pending == old(pending)
      ensures r.Ok? ==> 1 <= |r.value| <= size && |r.value| == Min(size, |old(pending)[0]|) &&
                        old(Content()) == r.value + Content()
      ensures r.Ok? ==> r.value == old(pending)[0][..|r.value|] &&
                        pending == if |r.value| == |old(pending)[0]| then old(pending)[1..]
                                   else [old(pending)[0][|r.value|..]] + old(pending)[1..]
      ensures r.Ok? ==> pending == AfterRead(old(pending), size)
      ensures accepts == old(accepts) && written == old(written) && flushes == old(flushes)
    {
      if pending == [] {
        return Err(BrokenPipe(false));
      }
      var chunk := pending[0];
      var n := Min(size, |chunk|);
      r := Ok(chunk[..n]);
      assert Flatten(pending) == chunk + Flatten(pending[1..]);
      if n == |chunk| {
        pending := pending[1..];
      } else {
        assert ([chunk[n..]] + pending[1..])[1..] == pending[1..];
        pending := [chunk[n..]] + pending[1..];
        assert chunk == chunk[..n] + chunk[n..];
      }
    }

    /** `write(data)`: the number of leading bytes of `data` accepted, or
        BrokenPipeError once the script is exhausted. */
    method Write(data: Bytes) returns (r: Result<nat>)
      requires Valid()
      modifies this
      ensures Valid()
      ensures r.Err? <==> old(accepts) == []
      ensures r.Err? ==> r.error == BrokenPipe(false) && accepts == old(accepts) && written == old(written)
      ensures r.Ok? ==> r.value == Min(old(accepts)[0], |data|) && accepts == old(accepts)[1..] &&
                        written == old(written) + data[..r.value]
      ensures r.Ok? && data != [] ==> 1 <= r.value
      ensures pending == old(pending) && flushes == old(flushes)
    {
      if accepts == [] {
        return Err(BrokenPipe(false));
      }
      var n := Min(accepts[0], |data|);
      written := written + data[..n];
      accepts := accepts[1..];
      r := Ok(n);
    }

    /** `flush()`: succeeds, or raises broken pipe on a stream whose
        flushes fail. */
    method Flush() returns (o: Outcome)
      modifies this
      ensures o.Fail? <==> flushFails
      ensures o.Fail? ==> o.error == BrokenPipe(false)
      ensures flushes == old(flushes) + 1
      ensures pending == old(pending) && accepts == old(accepts) && written == old(written)
    {
      flushes := flushes + 1;
      o := if flushFails then Fail(BrokenPipe(false)) else Pass;
    }
  }
}
