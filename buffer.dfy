/** The chunked FIFO byte buffer (`Buffer` in stream/buffered.py). */
module ChunkBuffer {
  import opened Common

  /** No chunk is empty: true of any buffer whose only additions are by
      `enqueue`, which ignores empty data (only `slice` on a buffer without
      chunks queues an empty one). */
  ghost predicate NoEmptyChunks(chunks: seq<Bytes>)
  {
    [] !in chunks
  }

  /** The loop `slice` and `dequeue` share: pop chunks off the front until
      the popped bytes reach `limit` or no chunk is left. */
  method PopUntil(chunks: seq<Bytes>, limit: nat) returns (data: seq<Bytes>, rest: seq<Bytes>, dataSize: nat)
    ensures chunks == data + rest && data == chunks[..|data|] && rest == chunks[|data|..]
    ensures dataSize == |Flatten(data)|
    ensures dataSize >= limit || rest == []
    ensures data != [] ==> dataSize - |data[|data| - 1]| < limit
    ensures data == [] ==> limit == 0 || chunks == []
  {
    var n := 0;
    dataSize := 0;
    while n < |chunks| && dataSize < limit
      invariant n <= |chunks|
      invariant dataSize == |Flatten(chunks[..n])|
      invariant n > 0 ==> dataSize - |chunks[n - 1]| < limit
    {
      assert chunks[..n + 1] == chunks[..n] + [chunks[n]];
      FlattenSnoc(chunks[..n], chunks[n]);
      dataSize := dataSize + |chunks[n]|;
      n := n + 1;
    }
    data, rest := chunks[..n], chunks[n..];
    assert |data| == n;
  }

  /** Removing `k` logical bytes after the consumed prefix `offset`:
      `taken` is those bytes, and the new chunks past `newOffset` hold the
      rest. */
  ghost predicate CutContent(joined: Bytes, offset: nat, k: nat, newJoined: Bytes, newOffset: nat, taken: Bytes)
  {
    offset + k <= |joined| && newOffset <= |newJoined| &&
    taken == joined[offset..][..k] && newJoined[newOffset..] == joined[offset..][k..]
  }

  /** The shape `dequeue` leaves: the size is the sum of the chunk lengths,
      the consumed prefix is zero or less than half the front chunk, and the
      new chunks are the old tail behind a suffix of one old chunk. */
  ghost predicate CutShape(chunks: seq<Bytes>, newChunks: seq<Bytes>, newOffset: nat, newSize: nat)
  {
    newSize == |Flatten(newChunks)| &&
    (newChunks == [] ==> newOffset == 0) &&
    (newChunks != [] ==> 2 * newOffset <= |newChunks[0]| && (newOffset == 0 || newOffset < |newChunks[0]|)) &&
    |newChunks| <= |chunks| &&
    (newChunks != [] ==>
       var i := |chunks| - |newChunks|;
       newChunks[1..] == chunks[i + 1..] &&
       |newChunks[0]| <= |chunks[i]| &&
       newChunks[0] == chunks[i][|chunks[i]| - |newChunks[0]|..]) &&
    (NoEmptyChunks(chunks) ==> NoEmptyChunks(newChunks))
  }

  /** The body of `dequeue` on a buffer that holds chunks: pop the chunks
      up to the cut `min(want + offset, chunksSize)`; on a chunk boundary
      drop them and reset the offset, inside a chunk re-queue that chunk,
      copying its tail when the cut is past its middle, otherwise keeping it
      whole and advancing the offset. */
  method CutFront(chunks: seq<Bytes>, offset: nat, chunksSize: nat, want: nat)
    returns (newChunks: seq<Bytes>, newOffset: nat, newSize: nat, taken: Bytes)
    requires chunks != [] && chunksSize == |Flatten(chunks)|
    requires 2 * offset <= |chunks[0]| && offset <= |Flatten(chunks)|
    ensures CutContent(Flatten(chunks), offset, Min(want, chunksSize - offset), Flatten(newChunks), newOffset, taken)
    ensures CutShape(chunks, newChunks, newOffset, newSize)
  {
    var limit := Min(want + offset, chunksSize);
    var data, rest, dataSize := PopUntil(chunks, limit);
    FlattenAppend(data, rest);
    assert dataSize >= limit by {
      if rest == [] { assert chunks == data; }
    }
    assert offset <= limit;
    ghost var k := Min(want, chunksSize - offset);
    assert k == limit - offset;
    taken := Flatten(data)[offset..limit];
    if dataSize == limit {
      // the cut falls on a chunk boundary: drop the chunks outright
      newChunks, newOffset, newSize := rest, 0, chunksSize - dataSize;
      BoundaryContent(chunks, data, rest, offset, limit, k);
      BoundaryShape(chunks, |data|, newSize);
    } else {
      // the cut falls inside the last popped chunk, at `split`
      var chunk := data[|data| - 1];
      var split := |chunk| - (dataSize - limit);
      var newFront;
      if 2 * split > |chunk| {
        newFront, newOffset := chunk[split..], 0;
      } else {
        newFront, newOffset := chunk, split;
      }
      newChunks := [newFront] + rest;
      newSize := chunksSize + |newFront| - dataSize;
      InsideContent(chunks, data, rest, offset, limit, k, split, newFront, newOffset);
      InsideShape(chunks, data, rest, split, newFront, newOffset, newSize);
    }
  }

  lemma SuffixNoEmpty(chunks: seq<Bytes>, data: seq<Bytes>, rest: seq<Bytes>)
    requires chunks == data + rest
    ensures NoEmptyChunks(chunks) ==> NoEmptyChunks(rest)
  {
    if NoEmptyChunks(chunks) {
      assert forall i :: 0 <= i < |rest| ==> rest[i] == chunks[|data| + i];
    }
  }

  lemma ConsNoEmpty(c: Bytes, rest: seq<Bytes>)
    requires c != []
    ensures NoEmptyChunks(rest) ==> NoEmptyChunks([c] + rest)
  {
  }

  /** Cutting the joined chunks at `limit`, where `limit` lies within the
      popped part `d`. */
  lemma CutOfJoin(f: Bytes, d: Bytes, r: Bytes, cut: nat, limit: nat)
    requires f == d + r && cut <= limit <= |d|
    ensures d[cut..limit] == f[cut..][..limit - cut]
    ensures f[limit..] == f[cut..][limit - cut..]
  {
  }

  /** A cut on a chunk boundary leaves the chunks after it. */
  lemma BoundaryContent(chunks: seq<Bytes>, data: seq<Bytes>, rest: seq<Bytes>, offset: nat, limit: nat, k: nat)
    requires chunks == data + rest && |Flatten(data)| == limit && offset <= limit && k == limit - offset
    requires Flatten(chunks) == Flatten(data) + Flatten(rest)
    ensures CutContent(Flatten(chunks), offset, k, Flatten(rest), 0, Flatten(data)[offset..limit])
  {
    var f := Flatten(chunks);
    CutOfJoin(f, Flatten(data), Flatten(rest), offset, limit);
    assert f[limit..] == Flatten(rest);
  }

  /** Dropping the first `n` chunks leaves the old tail. */
  lemma BoundaryShape(chunks: seq<Bytes>, n: nat, newSize: nat)
    requires n <= |chunks| && newSize == |Flatten(chunks[n..])|
    ensures CutShape(chunks, chunks[n..], 0, newSize)
  {
    var rest := chunks[n..];
    if rest != [] {
      assert rest[1..] == chunks[n + 1..];
      assert rest[0] == chunks[n] && rest[0][0..] == rest[0];
    }
    DropNoEmpty(chunks, n);
  }

  lemma DropNoEmpty(chunks: seq<Bytes>, n: nat)
    requires n <= |chunks|
    ensures NoEmptyChunks(chunks) ==> NoEmptyChunks(chunks[n..])
  {
    if [] in chunks[n..] {
      var i :| 0 <= i < |chunks[n..]| && chunks[n..][i] == [];
      assert chunks[n + i] == [];
    }
  }

  /** Cutting `p + chunk + r` at `|p| + split`, inside `chunk`, leaves the
      rest of the chunk and `r`: whether the chunk's tail is copied (new
      offset 0) or the chunk is kept whole (new offset `split`). */
  lemma InsideBytes(p: Bytes, chunk: Bytes, r: Bytes, offset: nat, limit: nat, k: nat, split: nat,
                    newFront: Bytes, newOffset: nat, f: Bytes, d: Bytes, g: Bytes)
    requires 0 < split < |chunk| && limit == |p| + split && offset <= limit && k == limit - offset
    requires if 2 * split > |chunk| then newFront == chunk[split..] && newOffset == 0
             else newFront == chunk && newOffset == split
    requires d == p + chunk && f == d + r && g == newFront + r
    ensures CutContent(f, offset, k, g, newOffset, d[offset..limit])
  {
    assert f[limit..] == chunk[split..] + r;
    assert g[newOffset..] == chunk[split..] + r;
    CutOfJoin(f, d, r, offset, limit);
  }

  /** A cut inside the last popped chunk leaves the rest of that chunk and
      the chunks after it. */
  lemma InsideContent(chunks: seq<Bytes>, data: seq<Bytes>, rest: seq<Bytes>,
                      offset: nat, limit: nat, k: nat, split: nat, newFront: Bytes, newOffset: nat)
    requires chunks == data + rest && data != []
    requires Flatten(chunks) == Flatten(data) + Flatten(rest)
    requires offset <= limit && k == limit - offset && 0 < split < |data[|data| - 1]|
    requires limit == |Flatten(data)| - |data[|data| - 1]| + split
    requires var chunk := data[|data| - 1];
             if 2 * split > |chunk| then newFront == chunk[split..] && newOffset == 0
             else newFront == chunk && newOffset == split
    ensures CutContent(Flatten(chunks), offset, k, Flatten([newFront] + rest), newOffset, Flatten(data)[offset..limit])
  {
    var chunk := data[|data| - 1];
    var front := data[..|data| - 1];
    assert data == front + [chunk];
    FlattenSnoc(front, chunk);
    var nc := [newFront] + rest;
    assert nc[0] == newFront && nc[1..] == rest;
    InsideBytes(Flatten(front), chunk, Flatten(rest), offset, limit, k, split, newFront, newOffset,
                Flatten(chunks), Flatten(data), Flatten(nc));
  }

  /** Re-queueing a suffix of the last popped chunk leaves the old tail
      behind a cut front chunk. */
  lemma InsideShape(chunks: seq<Bytes>, data: seq<Bytes>, rest: seq<Bytes>,
                    split: nat, newFront: Bytes, newOffset: nat, newSize: nat)
    requires chunks == data + rest && data != []
    requires Flatten(chunks) == Flatten(data) + Flatten(rest)
    requires newSize == |Flatten(chunks)| + |newFront| - |Flatten(data)|
    requires 0 < split < |data[|data| - 1]|
    requires var chunk := data[|data| - 1];
             if 2 * split > |chunk| then newFront == chunk[split..] && newOffset == 0
             else newFront == chunk && newOffset == split
    ensures CutShape(chunks, [newFront] + rest, newOffset, newSize)
  {
    var chunk := data[|data| - 1];
    var nc := [newFront] + rest;
    assert nc[1..] == rest;
    assert chunks[|data| - 1] == chunk;
    assert chunks[|data|..] == rest;
    assert Flatten(nc) == newFront + Flatten(rest);
    SuffixNoEmpty(chunks, data, rest);
    ConsNoEmpty(newFront, rest);
  }

  /** The buffer's representation invariant, on its fields' values:
      `chunksSize` is the sum of the chunk lengths; the consumed prefix is at
      most half of the front chunk; and the buffer is a FIFO: what was
      dequeued, followed by what is buffered, is what was enqueued. */
  ghost predicate Represents(chunks: seq<Bytes>, offset: nat, chunksSize: nat, enqueued: Bytes, dequeued: Bytes)
  {
    chunksSize == |Flatten(chunks)| &&
    (chunks == [] ==> offset == 0) &&
    (chunks != [] ==> 2 * offset <= |chunks[0]|) &&
    offset <= |Flatten(chunks)| &&
    enqueued == dequeued + Flatten(chunks)[offset..]
  }

  /** A dequeue of `k` bytes moves them from the content to the history. */
  lemma MoveToHistory(enqueued: Bytes, dequeued: Bytes, content: Bytes, k: nat)
    requires k <= |content| && enqueued == dequeued + content
    ensures enqueued == (dequeued + content[..k]) + content[k..]
  {
    assert content == content[..k] + content[k..];
  }

  /** A cut as `CutFront` makes it keeps the representation, with the cut
      bytes moved to the history. */
  lemma CutRepresents(chunks: seq<Bytes>, offset: nat, chunksSize: nat, enqueued: Bytes, dequeued: Bytes, k: nat,
                      newChunks: seq<Bytes>, newOffset: nat, newSize: nat, taken: Bytes)
    requires Represents(chunks, offset, chunksSize, enqueued, dequeued)
    requires CutContent(Flatten(chunks), offset, k, Flatten(newChunks), newOffset, taken)
    requires CutShape(chunks, newChunks, newOffset, newSize)
    ensures Represents(newChunks, newOffset, newSize, enqueued, dequeued + taken)
    ensures taken == Flatten(chunks)[offset..][..k] && Flatten(newChunks)[newOffset..] == Flatten(chunks)[offset..][k..]
  {
    MoveToHistory(enqueued, dequeued, Flatten(chunks)[offset..], k);
  }

  /** Merging a non-empty run of non-empty chunks gives a non-empty chunk. */
  lemma MergedNoEmpty(chunks: seq<Bytes>, data: seq<Bytes>, rest: seq<Bytes>)
    requires chunks == data + rest && data != [] && NoEmptyChunks(chunks)
    ensures NoEmptyChunks([Flatten(data)] + rest)
  {
    assert data[0] == chunks[0];
    SuffixNoEmpty(chunks, data, rest);
  }

  /** The body of `slice`: pop the chunks up to the end of the window
      `offset + off + want`, join them into one chunk that goes back to the
      front, and cut the window out of it. */
  method MergeFront(chunks: seq<Bytes>, offset: nat, chunksSize: nat, off: nat, want: nat)
    returns (newChunks: seq<Bytes>, r: Bytes)
    requires chunksSize == |Flatten(chunks)| && offset <= chunksSize
    requires chunks == [] ==> offset == 0
    requires chunks != [] ==> 2 * offset <= |chunks[0]|
    ensures Flatten(newChunks) == Flatten(chunks)
    ensures r == PySlice(Flatten(chunks)[offset..], off, off + want)
    ensures newChunks != []
    ensures |newChunks| == 1 || offset + off + want <= |newChunks[0]|
    ensures chunks == [] ==> newChunks == [[]]
    ensures chunks != [] ==> 2 * offset <= |newChunks[0]|
    ensures chunks != [] && NoEmptyChunks(chunks) && want > 0 ==> NoEmptyChunks(newChunks)
  {
    var limit := want + offset + off;
    var data, rest, dataSize := PopUntil(chunks, limit);
    var merged := Flatten(data);
    FlattenAppend(data, rest);
    assert dataSize >= limit || rest == [];
    SliceOfMerged(Flatten(chunks), merged, Flatten(rest), offset, off, want);
    r := PySlice(merged, offset + off, limit);
    newChunks := [merged] + rest;
    assert newChunks[0] == merged && newChunks[1..] == rest;
    assert Flatten(newChunks) == merged + Flatten(rest);
    if chunks != [] {
      FrontOfMerged(chunks, data, rest, offset, limit);
    }
    if chunks != [] && NoEmptyChunks(chunks) && want > 0 {
      MergedNoEmpty(chunks, data, rest);
    }
  }

  /** Cutting the window out of the merged front chunk is cutting it out of
      the whole content, since the merged chunk reaches the window's end or
      is all there is. */
  lemma SliceOfMerged(f: Bytes, merged: Bytes, r: Bytes, offset: nat, off: nat, want: nat)
    requires f == merged + r && offset <= |f|
    requires |merged| >= offset + off + want || r == []
    ensures PySlice(merged, offset + off, offset + off + want) == PySlice(f[offset..], off, off + want)
  {
    var a, b := PySlice(merged, offset + off, offset + off + want), PySlice(f[offset..], off, off + want);
    assert |a| == |b|;
    forall i | 0 <= i < |a|
      ensures a[i] == b[i]
    {
      assert a[i] == merged[offset + off + i] == f[offset + off + i];
    }
  }

  /** The merged chunk starts with the old front chunk, and it ends at
      least at the window's end when more chunks follow it. */
  lemma FrontOfMerged(chunks: seq<Bytes>, data: seq<Bytes>, rest: seq<Bytes>, offset: nat, limit: nat)
    requires chunks == data + rest && chunks != [] && 2 * offset <= |chunks[0]|
    requires offset <= limit && (data == [] ==> limit == 0)
    ensures 2 * offset <= |Flatten(data)|
  {
    if data != [] {
      assert data[0] == chunks[0];
      assert Flatten(data) == data[0] + Flatten(data[1..]);
    }
  }

  /** Bytes FIFO: a list of immutable chunks, the consumed prefix `offset`
      of the front chunk, and `chunksSize`, the sum of the chunk lengths. */
  class Buffer {
    var chunks: seq<Bytes>
    var offset: nat
    var chunksSize: nat
    /** Everything ever enqueued and everything ever dequeued, in order. */
    ghost var enqueued: Bytes
    ghost var dequeued: Bytes

    /** See `Represents`. */
    ghost predicate Valid()
      reads this
    {
      Represents(chunks, offset, chunksSize, enqueued, dequeued)
    }

    /** The logical content: the joined chunks without the consumed prefix. */
    ghost function Contents(): Bytes
      reads this
      requires Valid()
    {
      Flatten(chunks)[offset..]
    }

    constructor ()
      ensures Valid()
      ensures chunks == [] && offset == 0 && chunksSize == 0
      ensures enqueued == [] && dequeued == []
    {
      chunks, offset, chunksSize := [], 0, 0;
      enqueued, dequeued := [], [];
    }

    /** `len(buffer)`. */
    function Len(): (n: nat)
      reads this
      requires Valid()
      ensures n == |Contents()|
    {
      chunksSize - offset
    }

    /** `bool(buffer)`: whether any chunk is held, even a fully consumed or
        empty one. */
    function HasChunks(): (b: bool)
      reads this
      requires Valid()
      ensures !b ==> Contents() == []
    {
      chunks != []
    }

    /** A buffer without empty chunks is non-empty exactly when it holds a
        chunk (for `bool` and `len` to agree). */
    lemma NonEmptyHasLength()
      requires Valid() && NoEmptyChunks(chunks)
      ensures chunks != [] <==> Len() > 0
    {
      if chunks != [] {
        assert Flatten(chunks) == chunks[0] + Flatten(chunks[1..]);
        assert chunks[0] != [];
      }
    }

    /** FIFO over whole histories: what has been dequeued is a prefix of what
        has been enqueued. */
    lemma DequeuedIsPrefix()
      requires Valid()
      ensures |dequeued| <= |enqueued| && enqueued[..|dequeued|] == dequeued
    {
    }

    /** `enqueue(data)`: an empty chunk is ignored. */
    method Enqueue(data: Bytes)
      requires Valid()
      modifies this
      ensures Valid()
      ensures Contents() == old(Contents()) + data
      ensures data == [] ==> chunks == old(chunks) && offset == old(offset) && chunksSize == old(chunksSize)
      ensures data != [] ==> chunks == old(chunks) + [data] && offset == old(offset) &&
                             chunksSize == old(chunksSize) + |data|
      ensures enqueued == old(enqueued) + data && dequeued == old(dequeued)
      ensures NoEmptyChunks(old(chunks)) ==> NoEmptyChunks(chunks)
    {
      if data != [] {
        FlattenSnoc(chunks, data);
        chunks := chunks + [data];
        chunksSize := chunksSize + |data|;
      }
      enqueued := enqueued + data;
    }

    /** `slice(size, off)`: the logical bytes [off, off + size), clipped at
        the end, where a `size` of 0 (or None) means the whole length. The
        chunks the window reaches are joined into one front chunk; the
        content does not change. On a buffer without chunks an empty chunk
        is queued. */
    method Slice(size: nat, off: nat) returns (r: Bytes)
      requires Valid()
      modifies this
      ensures Valid()
      ensures r == PySlice(old(Contents()), off, off + (if size == 0 then old(Len()) else size))
      ensures Contents() == old(Contents()) && offset == old(offset) && chunksSize == old(chunksSize)
      ensures Flatten(chunks) == Flatten(old(chunks))
      ensures enqueued == old(enqueued) && dequeued == old(dequeued)
      ensures chunks != []
      ensures |chunks| == 1 || offset + off + (if size == 0 then old(Len()) else size) <= |chunks[0]|
      ensures old(chunks) == [] ==> chunks == [[]]
      ensures old(chunks) != [] && NoEmptyChunks(old(chunks)) ==> NoEmptyChunks(chunks)
    {
      var want := if size == 0 then Len() else size;
      if chunks != [] && NoEmptyChunks(chunks) {
        NonEmptyHasLength();
      }
      var newChunks;
      newChunks, r := MergeFront(chunks, offset, chunksSize, off, want);
      chunks := newChunks;
    }

    /** `dequeue(size, returns)`: removes and returns the first `size`
        logical bytes (all of them when `size` is 0 or None, fewer when the
        buffer is shorter); `wantData` false (the `returns=False` argument)
        gives None, except that a buffer without chunks answers b'' at once. A cut on a chunk boundary drops
        the chunks and resets the offset; a cut inside a chunk either copies
        the chunk's tail (past the middle) or just advances the offset. */
    method Dequeue(size: nat, wantData: bool) returns (r: Option<Bytes>)
      requires Valid()
      modifies this
      ensures Valid()
      ensures old(chunks) == [] ==> r == Some([]) && chunks == [] && offset == 0 && chunksSize == 0
      ensures var k := if size == 0 then old(Len()) else Min(size, old(Len()));
              Contents() == old(Contents())[k..] &&
              dequeued == old(dequeued) + old(Contents())[..k] &&
              (old(chunks) != [] ==> r == if wantData then Some(old(Contents())[..k]) else None)
      ensures enqueued == old(enqueued)
      ensures old(chunks) != [] ==> CutShape(old(chunks), chunks, offset, chunksSize)
    {
      var want := if size == 0 then Len() else size;
      if chunks == [] {
        assert Contents() == [];
        return Some([]);
      }
      ghost var contents0 := Contents();
      ghost var k := Min(want, chunksSize - offset);
      assert k == (if size == 0 then Len() else Min(size, Len()));
      var newChunks, newOffset, newSize, taken := CutFront(chunks, offset, chunksSize, want);
      CutRepresents(chunks, offset, chunksSize, enqueued, dequeued, k, newChunks, newOffset, newSize, taken);
      assert taken == contents0[..k] && Flatten(newChunks)[newOffset..] == contents0[k..];
      chunks, offset, chunksSize := newChunks, newOffset, newSize;
      dequeued := dequeued + taken;
      assert Valid() && Contents() == contents0[k..];
      if wantData {
        r := Some(taken);
      } else {
        r := None;
      }
    }
  }
}
