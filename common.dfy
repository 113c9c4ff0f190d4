/** Vocabulary shared by the buffer, the framing codecs and the streams:
    bytes, chunk lists, the error kinds the streams raise, and results. */
module Common {

  /** One byte of a Python `bytes` object. */
  type byte = x: int | 0 <= x < 256

  type Bytes = seq<byte>

  /** A stream state: a bit mask over the READ/WRITE/IDLE flags plus the
      exclusive INIT and DISPOSED bits. */
  type StateBits = bv8

  /** The exceptions the modelled code raises. */
  datatype Error =
    | BrokenPipe(disposed: bool)        // BrokenPipeError; `disposed` when raised by a flag scope ('stream is disposed')
    | InvalidTransition(source: StateBits, target: StateBits)   // refused by the state machine
    | StructError                       // struct.error raised by pack/unpack

  /** A value, or the exception that was raised instead. */
  datatype Result<T> = Ok(value: T) | Err(error: Error)

  /** Completion of an operation that returns nothing. */
  datatype Outcome = Pass | Fail(error: Error)

  datatype Option<T> = None | Some(value: T)

  function Min(a: int, b: int): int { if a <= b then a else b }

  function Max(a: int, b: int): int { if a <= b then b else a }

  /** `b''.join(chunks)`. */
  function Flatten(chunks: seq<Bytes>): Bytes
  {
    if chunks == [] then [] else chunks[0] + Flatten(chunks[1..])
  }

  /** Concatenation regroups freely. */
  lemma Assoc(a: Bytes, b: Bytes, c: Bytes)
    ensures a + b + c == a + (b + c)
  {
  }

  lemma {:induction false} FlattenAppend(a: seq<Bytes>, b: seq<Bytes>)
    ensures Flatten(a + b) == Flatten(a) + Flatten(b)
  {
    if a == [] {
      assert a + b == b;
    } else {
      assert (a + b)[1..] == a[1..] + b;
      FlattenAppend(a[1..], b);
    }
  }

  lemma FlattenSingle(c: Bytes)
    ensures Flatten([c]) == c
  {
    assert [c][1..] == [];
  }

  /** Joining after one more chunk: the shape of every pop-and-append loop. */
  lemma FlattenSnoc(a: seq<Bytes>, c: Bytes)
    ensures Flatten(a + [c]) == Flatten(a) + c
  {
    FlattenAppend(a, [c]);
    FlattenSingle(c);
  }

  /** Python's `s[lo:hi]` for non-negative bounds: clipped to the sequence,
      empty when the window is empty or starts past the end. */
  function PySlice(s: Bytes, lo: nat, hi: nat): (r: Bytes)
    ensures |r| == (if lo < hi && lo < |s| then Min(hi, |s|) - lo else 0)
    ensures forall i :: 0 <= i < |r| ==> r[i] == s[lo + i]
  {
    if lo >= |s| || lo >= hi then [] else s[lo..Min(hi, |s|)]
  }
}
