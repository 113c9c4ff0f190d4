/** The framed binary encodings of BufferedStream: a 4-byte big-endian
    unsigned length (`struct.Struct('>I')`), length-prefixed blobs, lists of
    u32 records and variable-length blob lists. The writers' byte images are
    functions here; the readers are pure parsers over the bytes a stream will
    deliver, returning what they consumed and what is left. */
module Framing {
  import opened Common

  /** Values a `'>I'` record can hold are below 2^32. */
  const U32_LIMIT: nat := 0x1_0000_0000

  /** `size_struct.size`. */
  const U32_SIZE: nat := 4

  predicate AllU32(xs: seq<nat>)
  {
    forall i :: 0 <= i < |xs| ==> xs[i] < U32_LIMIT
  }

  /** `struct.pack('>I', n)`: most significant byte first. */
  function EncodeU32(n: nat): Bytes
    requires n < U32_LIMIT
  {
    [n / 0x100_0000, n / 0x1_0000 % 0x100, n / 0x100 % 0x100, n % 0x100]
  }

  /** `struct.unpack('>I', b)[0]`. */
  function DecodeU32(b: Bytes): (n: nat)
    requires |b| == 4
    ensures n < U32_LIMIT
  {
    b[0] as int * 0x100_0000 + b[1] as int * 0x1_0000 + b[2] as int * 0x100 + b[3] as int
  }

  /** `struct.pack('>I', n)`, which raises struct.error outside [0, 2^32). */
  function Pack(n: int): (r: Result<Bytes>)
    ensures r.Ok? <==> 0 <= n < U32_LIMIT
    ensures r.Ok? ==> |r.value| == U32_SIZE && DecodeU32(r.value) == n
    ensures r.Err? ==> r.error == StructError
  {
    if 0 <= n < U32_LIMIT then DecodeEncodeU32(n); Ok(EncodeU32(n)) else Err(StructError)
  }

  lemma DecodeEncodeU32(n: nat)
    requires n < U32_LIMIT
    ensures |EncodeU32(n)| == 4 && DecodeU32(EncodeU32(n)) == n
  {
    var q1, q2, q3 := n / 0x100, n / 0x1_0000, n / 0x100_0000;
    ShiftTwice(n);
    assert n == q1 * 0x100 + n % 0x100;
    assert q1 == q2 * 0x100 + q1 % 0x100;
    assert q2 == q3 * 0x100 + q2 % 0x100;
  }

  /** Dropping the low byte twice drops the low 16 bits, and three times
      the low 24. */
  lemma ShiftTwice(n: nat)
    ensures n / 0x1_0000 == n / 0x100 / 0x100
    ensures n / 0x100_0000 == n / 0x1_0000 / 0x100
  {
  }

  lemma EncodeDecodeU32(b: Bytes)
    requires |b| == 4
    ensures EncodeU32(DecodeU32(b)) == b
  {
    var n := DecodeU32(b);
    var lo: int := b[1] as int * 0x1_0000 + b[2] as int * 0x100 + b[3];
    assert n == b[0] as int * 0x100_0000 + lo && lo < 0x100_0000;
    assert n / 0x100_0000 == b[0];
    var q2: int := b[0] as int * 0x100 + b[1];
    assert n == q2 * 0x1_0000 + (b[2] as int * 0x100 + b[3]);
    assert n / 0x1_0000 == q2;
    var q1: int := q2 * 0x100 + b[2];
    assert n == q1 * 0x100 + b[3];
    assert n / 0x100 == q1;
  }

  /** The records `write_struct_list` packs one after another, without header. */
  function EncodeU32List(xs: seq<nat>): (r: Bytes)
    requires AllU32(xs)
    ensures |r| == U32_SIZE * |xs|
  {
    if xs == [] then [] else EncodeU32(xs[0]) + EncodeU32List(xs[1..])
  }

  lemma EncodeU32ListSnoc(xs: seq<nat>, x: nat)
    requires AllU32(xs) && x < U32_LIMIT
    ensures AllU32(xs + [x]) && EncodeU32List(xs + [x]) == EncodeU32List(xs) + EncodeU32(x)
    decreases |xs|
  {
    if xs != [] {
      assert (xs + [x])[1..] == xs[1..] + [x];
      EncodeU32ListSnoc(xs[1..], x);
    }
  }

  /** The `'>I'` decoding comprehension of `read_struct_list`: one record per
      4 bytes; a trailing piece shorter than 4 bytes makes unpack raise. */
  function DecodeU32List(data: Bytes): (r: Result<seq<nat>>)
    ensures r.Ok? <==> |data| % U32_SIZE == 0
    ensures r.Err? ==> r.error == StructError
    ensures r.Ok? ==> AllU32(r.value) && |r.value| * U32_SIZE == |data|
    decreases |data|
  {
    if data == [] then Ok([])
    else if |data| < U32_SIZE then Err(StructError)
    else
      match DecodeU32List(data[4..])
      case Err(e) => Err(e)
      case Ok(rest) => Ok([DecodeU32(data[..4])] + rest)
  }

  /** Decoding loses nothing: re-encoding the records gives the bytes back. */
  lemma {:induction false} EncodeDecodeU32List(data: Bytes)
    requires |data| % U32_SIZE == 0
    ensures EncodeU32List(DecodeU32List(data).value) == data
    decreases |data|
  {
    if data != [] {
      var xs := DecodeU32List(data).value;
      EncodeDecodeU32List(data[4..]);
      EncodeDecodeU32(data[..4]);
      assert xs[0] == DecodeU32(data[..4]) && xs[1..] == DecodeU32List(data[4..]).value;
      assert data == data[..4] + data[4..];
    }
  }

  lemma {:induction false} DecodeEncodeU32List(xs: seq<nat>)
    requires AllU32(xs)
    ensures DecodeU32List(EncodeU32List(xs)) == Ok(xs)
  {
    if xs != [] {
      var e := EncodeU32List(xs);
      DecodeEncodeU32(xs[0]);
      assert e[..4] == EncodeU32(xs[0]);
      assert e[4..] == EncodeU32List(xs[1..]);
      DecodeEncodeU32List(xs[1..]);
      assert [xs[0]] + xs[1..] == xs;
    }
  }

  /** How many leading values of `xs` `struct.pack('>I', ...)` accepts before
      the first one that makes it raise. */
  function U32PrefixLength(xs: seq<nat>): (k: nat)
    ensures k <= |xs| && AllU32(xs[..k])
    ensures k < |xs| ==> xs[k] >= U32_LIMIT
  {
    if xs == [] || xs[0] >= U32_LIMIT then 0
    else
      var k := 1 + U32PrefixLength(xs[1..]);
      assert forall i :: 1 <= i < k ==> xs[..k][i] == xs[1..][..k - 1][i - 1];
      k
  }

  /** The prefix length is the first position whose value does not fit,
      or the whole list when all fit. */
  lemma {:induction false} U32PrefixLengthIs(xs: seq<nat>, i: nat)
    requires i <= |xs| && AllU32(xs[..i]) && (i == |xs| || xs[i] >= U32_LIMIT)
    ensures U32PrefixLength(xs) == i
    decreases i
  {
    if i > 0 {
      assert xs[0] == xs[..i][0];
      assert xs[1..][..i - 1] == xs[..i][1..];
      assert i - 1 == |xs[1..]| || xs[1..][i - 1] == xs[i];
      U32PrefixLengthIs(xs[1..], i - 1);
    }
  }

  /** Every value packs exactly when none makes `pack` raise. */
  lemma AllU32Prefix(xs: seq<nat>)
    ensures AllU32(xs) <==> U32PrefixLength(xs) == |xs|
  {
    if AllU32(xs) {
      assert xs[..|xs|] == xs;
      U32PrefixLengthIs(xs, |xs|);
    } else {
      assert xs[..U32PrefixLength(xs)] != xs;
    }
  }

  /** What `write_bytes` enqueues: the length record, then the blob. */
  function FrameBytes(blob: Bytes): (r: Bytes)
    requires |blob| < U32_LIMIT
  {
    EncodeU32(|blob|) + blob
  }

  /** `[len(bytes) for bytes in bytes_list]`. */
  function Lengths(bl: seq<Bytes>): (r: seq<nat>)
    ensures |r| == |bl| && forall i :: 0 <= i < |bl| ==> r[i] == |bl[i]|
  {
    if bl == [] then [] else [|bl[0]|] + Lengths(bl[1..])
  }

  /** A blob list whose header and lengths all fit a `'>I'` record. */
  predicate ListFits(bl: seq<Bytes>)
  {
    U32_SIZE * |bl| < U32_LIMIT && forall i :: 0 <= i < |bl| ==> |bl[i]| < U32_LIMIT
  }

  /** A blob list fits exactly when its header fits and `pack` accepts
      every length. */
  lemma ListFitsLengths(bl: seq<Bytes>)
    ensures ListFits(bl) <==> U32_SIZE * |bl| < U32_LIMIT && U32PrefixLength(Lengths(bl)) == |bl|
  {
    var lens := Lengths(bl);
    AllU32Prefix(lens);
    assert AllU32(lens) <==> forall i :: 0 <= i < |bl| ==> |bl[i]| < U32_LIMIT;
  }

  /** What `write_bytes_list` enqueues: a u32 record list of the lengths
      (header `4 * n`, then the n lengths), then the raw blobs back to back. */
  function FrameBytesList(bl: seq<Bytes>): (r: Bytes)
    requires ListFits(bl)
  {
    EncodeU32(U32_SIZE * |bl|) + EncodeU32List(Lengths(bl)) + Flatten(bl)
  }

  /** What a reader returns and the bytes still to be read after it. */
  datatype Parsed<T> = Parsed(result: Result<T>, rest: Bytes)

  /** `read_until_size(n)` over the bytes `s` still to be read: `n` is 0
      reads nothing; fewer than `n` bytes ends in broken pipe and keeps them. */
  function ReadExactly(s: Bytes, n: nat): (p: Parsed<Bytes>)
    ensures p.result.Ok? <==> n <= |s|
    ensures p.result.Ok? ==> |p.result.value| == n && s == p.result.value + p.rest
    ensures p.result.Err? ==> p.result.error == BrokenPipe(false) && p.rest == s
  {
    if n == 0 then Parsed(Ok([]), s)
    else if n <= |s| then Parsed(Ok(s[..n]), s[n..])
    else Parsed(Err(BrokenPipe(false)), s)
  }

  /** `read_bytes`: a length record, then that many bytes. */
  function ParseBytes(s: Bytes): Parsed<Bytes>
  {
    var h := ReadExactly(s, U32_SIZE);
    if h.result.Err? then h else ReadExactly(h.rest, DecodeU32(h.result.value))
  }

  /** `read_struct_list(size_struct)`: a byte-count record, that many bytes,
      decoded as `'>I'` records. */
  function ParseU32List(s: Bytes): Parsed<seq<nat>>
  {
    var h := ReadExactly(s, U32_SIZE);
    if h.result.Err? then Parsed(Err(h.result.error), h.rest)
    else
      var d := ReadExactly(h.rest, DecodeU32(h.result.value));
      if d.result.Err? then Parsed(Err(d.result.error), d.rest)
      else Parsed(DecodeU32List(d.result.value), d.rest)
  }

  /** The loop of `read_bytes_list`: one `read_until_size(size)` per size. */
  function ParseBlobs(s: Bytes, sizes: seq<nat>): Parsed<seq<Bytes>>
  {
    if sizes == [] then Parsed(Ok([]), s)
    else
      var b := ReadExactly(s, sizes[0]);
      if b.result.Err? then Parsed(Err(b.result.error), b.rest)
      else
        var more := ParseBlobs(b.rest, sizes[1..]);
        if more.result.Err? then more
        else Parsed(Ok([b.result.value] + more.result.value), more.rest)
  }

  /** The blobs `acc` read so far, in front of what the rest of the loop
      of `read_bytes_list` gives. */
  function Prepend(acc: seq<Bytes>, p: Parsed<seq<Bytes>>): (q: Parsed<seq<Bytes>>)
    ensures q.rest == p.rest && (q.result.Ok? <==> p.result.Ok?)
    ensures q.result.Ok? ==> |q.result.value| == |acc| + |p.result.value| && q.result.value[..|acc|] == acc && q.result.value[|acc|..] == p.result.value
  {
    if p.result.Err? then p else Parsed(Ok(acc + p.result.value), p.rest)
  }

  /** One iteration of the loop of `read_bytes_list`: a blob read moves from
      the rest of the loop to what was read. */
  lemma BlobStep(acc: seq<Bytes>, s: Bytes, sizes: seq<nat>, i: nat)
    requires i < |sizes| && ReadExactly(s, sizes[i]).result.Ok?
    ensures var b := ReadExactly(s, sizes[i]);
            Prepend(acc, ParseBlobs(s, sizes[i..])) ==
            Prepend(acc + [b.result.value], ParseBlobs(b.rest, sizes[i + 1..]))
  {
    assert sizes[i..][0] == sizes[i] && sizes[i..][1..] == sizes[i + 1..];
    var b := ReadExactly(s, sizes[i]);
    var more := ParseBlobs(b.rest, sizes[i + 1..]);
    if more.result.Ok? {
      assert acc + ([b.result.value] + more.result.value) == acc + [b.result.value] + more.result.value;
    }
  }

  /** A failed blob read ends the loop of `read_bytes_list` with that
      error, leaving the input where it was. */
  lemma BlobStop(acc: seq<Bytes>, s: Bytes, sizes: seq<nat>, i: nat)
    requires i < |sizes| && ReadExactly(s, sizes[i]).result.Err?
    ensures Prepend(acc, ParseBlobs(s, sizes[i..])) == Parsed(Err(BrokenPipe(false)), s)
  {
    assert sizes[i..][0] == sizes[i];
  }

  /** `read_bytes_list`. */
  function ParseBytesList(s: Bytes): Parsed<seq<Bytes>>
  {
    var l := ParseU32List(s);
    if l.result.Err? then Parsed(Err(l.result.error), l.rest)
    else ParseBlobs(l.rest, l.result.value)
  }

  /** `read_bytes` gives back what `write_bytes` wrote, the empty blob included. */
  lemma ParseBytesRoundTrip(blob: Bytes, rest: Bytes)
    requires |blob| < U32_LIMIT
    ensures ParseBytes(FrameBytes(blob) + rest) == Parsed(Ok(blob), rest)
  {
    var s := FrameBytes(blob) + rest;
    DecodeEncodeU32(|blob|);
    assert s[..4] == EncodeU32(|blob|);
    assert s[4..] == blob + rest;
    assert (blob + rest)[..|blob|] == blob;
    assert (blob + rest)[|blob|..] == rest;
  }

  /** Conversely, whatever `read_bytes` accepts is a `write_bytes` frame. */
  lemma ParseBytesIsFrame(s: Bytes, blob: Bytes, rest: Bytes)
    requires ParseBytes(s) == Parsed(Ok(blob), rest)
    ensures |blob| < U32_LIMIT && s == FrameBytes(blob) + rest
  {
    var h := ReadExactly(s, U32_SIZE);
    EncodeDecodeU32(h.result.value);
  }

  lemma {:induction false} ParseU32ListRoundTrip(xs: seq<nat>, rest: Bytes)
    requires AllU32(xs) && U32_SIZE * |xs| < U32_LIMIT
    ensures ParseU32List(EncodeU32(U32_SIZE * |xs|) + EncodeU32List(xs) + rest) == Parsed(Ok(xs), rest)
  {
    var body := EncodeU32List(xs);
    var s := EncodeU32(U32_SIZE * |xs|) + body + rest;
    DecodeEncodeU32(U32_SIZE * |xs|);
    assert s[..4] == EncodeU32(U32_SIZE * |xs|);
    assert s[4..] == body + rest;
    assert (body + rest)[..|body|] == body;
    assert (body + rest)[|body|..] == rest;
    DecodeEncodeU32List(xs);
  }

  /** Reading `|a|` bytes off `a + b` gives `a` and leaves `b`. */
  lemma ReadFront(a: Bytes, b: Bytes)
    ensures ReadExactly(a + b, |a|) == Parsed(Ok(a), b)
  {
    if a != [] {
      assert (a + b)[..|a|] == a && (a + b)[|a|..] == b;
    }
  }

  /** `ParseBlobs` after a successful first read. */
  lemma BlobsCons(s: Bytes, sizes: seq<nat>, v: Bytes, t: Bytes)
    requires sizes != [] && ReadExactly(s, sizes[0]) == Parsed(Ok(v), t)
    ensures ParseBlobs(s, sizes) == Prepend([v], ParseBlobs(t, sizes[1..]))
  {
  }

  lemma {:induction false} ParseBlobsRoundTrip(bl: seq<Bytes>, rest: Bytes)
    ensures ParseBlobs(Flatten(bl) + rest, Lengths(bl)) == Parsed(Ok(bl), rest)
  {
    if bl != [] {
      var tail := Flatten(bl[1..]) + rest;
      assert Flatten(bl) + rest == bl[0] + tail;
      ReadFront(bl[0], tail);
      assert Lengths(bl)[1..] == Lengths(bl[1..]);
      ParseBlobsRoundTrip(bl[1..], rest);
      BlobsCons(Flatten(bl) + rest, Lengths(bl), bl[0], tail);
      assert [bl[0]] + bl[1..] == bl;
    }
  }

  /** `read_bytes_list` gives back what `write_bytes_list` wrote, empty blobs
      included (their `read_until_size(0)` reads nothing). */
  lemma ParseBytesListRoundTrip(bl: seq<Bytes>, rest: Bytes)
    requires ListFits(bl)
    ensures ParseBytesList(FrameBytesList(bl) + rest) == Parsed(Ok(bl), rest)
  {
    var lens := Lengths(bl);
    assert AllU32(lens);
    var s := FrameBytesList(bl) + rest;
    Assoc(EncodeU32(U32_SIZE * |lens|) + EncodeU32List(lens), Flatten(bl), rest);
    ParseU32ListRoundTrip(lens, Flatten(bl) + rest);
    ParseBlobsRoundTrip(bl, rest);
  }

  /** A successful `ParseBlobs` took its first blob off the front. */
  lemma BlobsSplit(s: Bytes, sizes: seq<nat>, bl: seq<Bytes>, rest: Bytes)
    requires sizes != [] && ParseBlobs(s, sizes) == Parsed(Ok(bl), rest)
    ensures sizes[0] <= |s| && bl != [] && bl[0] == s[..sizes[0]]
    ensures ParseBlobs(s[sizes[0]..], sizes[1..]) == Parsed(Ok(bl[1..]), rest)
  {
    var b := ReadExactly(s, sizes[0]);
    assert b.result.Ok?;
    assert b.rest == s[sizes[0]..] && b.result.value == s[..sizes[0]];
    var more := ParseBlobs(b.rest, sizes[1..]);
    assert more.result.Ok?;
    assert bl == [b.result.value] + more.result.value;
  }

  /** The blobs `ParseBlobs` returns have the sizes it was given. */
  lemma {:induction false} ParseBlobsLengths(s: Bytes, sizes: seq<nat>, bl: seq<Bytes>, rest: Bytes)
    requires ParseBlobs(s, sizes) == Parsed(Ok(bl), rest)
    ensures Lengths(bl) == sizes
  {
    if sizes != [] {
      BlobsSplit(s, sizes, bl, rest);
      var k := sizes[0];
      ParseBlobsLengths(s[k..], sizes[1..], bl[1..], rest);
      assert Lengths(bl) == [k] + Lengths(bl[1..]);
      assert sizes == [k] + sizes[1..];
    }
  }

  /** What `ParseBlobs` consumed is exactly the blobs it returned. */
  lemma {:induction false} ParseBlobsConsumed(s: Bytes, sizes: seq<nat>, bl: seq<Bytes>, rest: Bytes)
    requires ParseBlobs(s, sizes) == Parsed(Ok(bl), rest)
    ensures s == Flatten(bl) + rest
  {
    if sizes != [] {
      BlobsSplit(s, sizes, bl, rest);
      var k := sizes[0];
      ParseBlobsConsumed(s[k..], sizes[1..], bl[1..], rest);
      assert s == s[..k] + s[k..];
      assert Flatten(bl) == bl[0] + Flatten(bl[1..]);
      Assoc(bl[0], Flatten(bl[1..]), rest);
    }
  }

  /** Conversely, whatever `read_struct_list` accepts is a header and
      records as `write_struct_list` writes them. */
  lemma U32ListIsFrame(s: Bytes, xs: seq<nat>, rest: Bytes)
    requires ParseU32List(s) == Parsed(Ok(xs), rest)
    ensures AllU32(xs) && U32_SIZE * |xs| < U32_LIMIT
    ensures s == EncodeU32(U32_SIZE * |xs|) + EncodeU32List(xs) + rest
  {
    var h := ReadExactly(s, U32_SIZE);
    var head := h.result.value;
    var d := ReadExactly(h.rest, DecodeU32(head));
    var body := d.result.value;
    assert DecodeU32List(body) == Ok(xs) && d.rest == rest;
    EncodeDecodeU32(head);
    EncodeDecodeU32List(body);
    assert s == head + (body + rest);
    Assoc(head, body, rest);
  }

  /** Conversely, whatever `read_bytes_list` accepts is a `write_bytes_list` frame. */
  lemma ParseBytesListIsFrame(s: Bytes, bl: seq<Bytes>, rest: Bytes)
    requires ParseBytesList(s) == Parsed(Ok(bl), rest)
    ensures ListFits(bl) && s == FrameBytesList(bl) + rest
  {
    var l := ParseU32List(s);
    var sizes := l.result.value;
    U32ListIsFrame(s, sizes, l.rest);
    ParseBlobsLengths(l.rest, sizes, bl, rest);
    ParseBlobsConsumed(l.rest, sizes, bl, rest);
    var header := EncodeU32(U32_SIZE * |bl|) + EncodeU32List(sizes);
    assert s == header + (Flatten(bl) + rest);
    Assoc(header, Flatten(bl), rest);
  }

  /** The blob list `[b"", b"ab", b"c"]` survives the round trip. */
  lemma BlobListExample()
    ensures ParseBytesList(FrameBytesList([[], [97, 98], [99]]) + []) == Parsed(Ok([[], [97, 98], [99]]), [])
  {
    ParseBytesListRoundTrip([[], [97, 98], [99]], []);
  }
}
