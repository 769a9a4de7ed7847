/** Streams of byte chunks (src/tar.ts:158-211). A stream is the finite sequence
    of chunks it delivers; the two stream constructors of the archive writer are
    objects with a cursor or a flag whose `Pull` delivers at most one chunk. */
module Streams {
  import opened Bytes
  import opened Wrappers

  const BLOCK_SIZE: nat := 512

  /** `padding_to_512(buf)`: an aligned buffer (the empty one included) is
      returned as it is; otherwise a zero-filled buffer of
      ceil(|buf| / 512) * 512 bytes holding buf at the front. */
  function PaddingTo512(buf: seq<Byte>): (r: seq<Byte>)
  {
    if |buf| % BLOCK_SIZE == 0 then buf
    else
      var length := (|buf| + BLOCK_SIZE - 1) / BLOCK_SIZE * BLOCK_SIZE;
      PaddingLength(|buf|);
      buf + Zeros(length - |buf|)
  }

  lemma PaddingLength(n: nat)
    ensures var length := (n + BLOCK_SIZE - 1) / BLOCK_SIZE * BLOCK_SIZE;
      length % BLOCK_SIZE == 0 && n <= length < n + BLOCK_SIZE
      && (n % BLOCK_SIZE == 0 ==> length == n)
  {
  }

  /** The padded buffer is the smallest multiple of 512 bytes that holds buf, with
      buf at the front and zeros after it; an aligned buffer is unchanged. */
  lemma PaddingTo512Correct(buf: seq<Byte>)
    ensures var r := PaddingTo512(buf);
      && |r| % BLOCK_SIZE == 0 && |buf| <= |r| < |buf| + BLOCK_SIZE
      && r[..|buf|] == buf
      && (forall i :: |buf| <= i < |r| ==> r[i] == NUL)
      && (|buf| % BLOCK_SIZE == 0 ==> r == buf)
  {
    PaddingLength(|buf|);
  }

  /** Padding a block followed by more bytes pads only the bytes after it. */
  lemma PaddingAfterBlock(x: seq<Byte>, y: seq<Byte>)
    requires |x| == BLOCK_SIZE
    ensures PaddingTo512(x + y) == x + PaddingTo512(y)
  {
    assert |x + y| % BLOCK_SIZE == |y| % BLOCK_SIZE;
    PaddingLength(|y|);
    PaddingLength(|x + y|);
    assert (|x + y| + BLOCK_SIZE - 1) / BLOCK_SIZE == (|y| + BLOCK_SIZE - 1) / BLOCK_SIZE + 1;
  }

  /** `bytes.subarray(begin, end)` for begin <= |bytes|: the end is clamped. */
  function Subarray(bytes: seq<Byte>, begin: nat, end: nat): (r: seq<Byte>)
    requires begin <= |bytes|
    ensures |r| == (if end <= begin then 0 else if end <= |bytes| then end - begin else |bytes| - begin)
  {
    if end <= begin then [] else if end <= |bytes| then bytes[begin..end] else bytes[begin..]
  }

  /** The chunks `ReadableBufferStream(bytes, chunkSize)` still delivers when its
      cursor is at readIndex: each pull hands out the next chunkSize bytes
      padded to 512, and the stream closes once the cursor reaches the end. */
  function ChunksFrom(bytes: seq<Byte>, chunkSize: nat, readIndex: nat): Stream
    requires chunkSize > 0
    decreases |bytes| - readIndex
  {
    if readIndex >= |bytes| then []
    else [PaddingTo512(Subarray(bytes, readIndex, readIndex + chunkSize))]
         + ChunksFrom(bytes, chunkSize, readIndex + chunkSize)
  }

  /** Everything `ReadableBufferStream(bytes, chunkSize)` delivers. */
  function BufferChunks(bytes: seq<Byte>, chunkSize: nat): Stream
    requires chunkSize > 0
  {
    ChunksFrom(bytes, chunkSize, 0)
  }

  lemma {:induction false} ChunksFromPadding(bytes: seq<Byte>, readIndex: nat)
    requires readIndex <= |bytes|
    ensures var c := ChunksFrom(bytes, BLOCK_SIZE, readIndex);
      && Flatten(c) == PaddingTo512(bytes[readIndex..])
      && |c| == (|bytes| - readIndex + BLOCK_SIZE - 1) / BLOCK_SIZE
      && (forall j :: 0 <= j < |c| ==> |c[j]| == BLOCK_SIZE)
    decreases |bytes| - readIndex
  {
    var c := ChunksFrom(bytes, BLOCK_SIZE, readIndex);
    var rest := bytes[readIndex..];
    if readIndex < |bytes| {
      var chunk := Subarray(bytes, readIndex, readIndex + BLOCK_SIZE);
      PaddingTo512Correct(chunk);
      if readIndex + BLOCK_SIZE <= |bytes| {
        ChunksFromPadding(bytes, readIndex + BLOCK_SIZE);
        assert rest == chunk + bytes[readIndex + BLOCK_SIZE..];
        PaddingAfterBlock(chunk, bytes[readIndex + BLOCK_SIZE..]);
        assert c == [chunk] + ChunksFrom(bytes, BLOCK_SIZE, readIndex + BLOCK_SIZE);
      } else {
        assert chunk == rest;
        assert ChunksFrom(bytes, BLOCK_SIZE, readIndex + BLOCK_SIZE) == [];
        assert c == [PaddingTo512(rest)];
        assert Flatten([PaddingTo512(rest)]) == PaddingTo512(rest) + Flatten([]);
      }
    } else {
      assert rest == [];
    }
  }

  /** With chunks of 512 bytes an empty buffer gives no chunk; any other gives
      ceil(n / 512) chunks of 512 bytes that together are `padding_to_512(bytes)`. */
  lemma BufferChunksPadding(bytes: seq<Byte>)
    ensures var c := BufferChunks(bytes, BLOCK_SIZE);
      && Flatten(c) == PaddingTo512(bytes)
      && |c| == (|bytes| + BLOCK_SIZE - 1) / BLOCK_SIZE
      && (forall j :: 0 <= j < |c| ==> |c[j]| == BLOCK_SIZE)
      && (bytes == [] <==> c == [])
  {
    ChunksFromPadding(bytes, 0);
    assert bytes[0..] == bytes;
  }

  /** A single block is delivered as one chunk, unchanged. */
  lemma BufferChunksOfBlock(bytes: seq<Byte>)
    requires |bytes| == BLOCK_SIZE
    ensures BufferChunks(bytes, BLOCK_SIZE) == [bytes]
  {
    assert Subarray(bytes, 0, BLOCK_SIZE) == bytes;
    assert ChunksFrom(bytes, BLOCK_SIZE, BLOCK_SIZE) == [];
  }

  /** The 1024 zero bytes that end an archive are delivered as two zero blocks. */
  lemma BufferChunksOfTrailer()
    ensures BufferChunks(Zeros(2 * BLOCK_SIZE), BLOCK_SIZE) == [Zeros(BLOCK_SIZE), Zeros(BLOCK_SIZE)]
  {
    var z := Zeros(2 * BLOCK_SIZE);
    assert Subarray(z, 0, BLOCK_SIZE) == Zeros(BLOCK_SIZE);
    assert Subarray(z, BLOCK_SIZE, 2 * BLOCK_SIZE) == Zeros(BLOCK_SIZE);
    assert PaddingTo512(Zeros(BLOCK_SIZE)) == Zeros(BLOCK_SIZE);
    assert ChunksFrom(z, BLOCK_SIZE, 2 * BLOCK_SIZE) == [];
    assert ChunksFrom(z, BLOCK_SIZE, BLOCK_SIZE) == [Zeros(BLOCK_SIZE)];
  }

  /** Streams chained one after another, as a left-to-right chain of
      `ReadableConcatStream`s delivers them. */
  function Chain(ss: seq<Stream>): Stream
  {
    if ss == [] then [] else Chain(ss[..|ss| - 1]) + ss[|ss| - 1]
  }

  /** A chain of one stream is that stream. */
  lemma ChainOne(ss: seq<Stream>)
    requires |ss| == 1
    ensures Chain(ss) == ss[0]
  {
    assert ss[..0] == [];
  }

  /** Extending a chain by one more stream appends that stream. */
  lemma ChainSnoc(ss: seq<Stream>, i: nat)
    requires i < |ss|
    ensures Chain(ss[..i + 1]) == Chain(ss[..i]) + ss[i]
  {
    assert ss[..i + 1][..i] == ss[..i];
  }

  /** Chaining is associative: a chain of two lists is the two chains in turn. */
  lemma {:induction false} ChainAppend(xs: seq<Stream>, ys: seq<Stream>)
    ensures Chain(xs + ys) == Chain(xs) + Chain(ys)
    decreases |ys|
  {
    if ys == [] {
      assert xs + ys == xs;
    } else {
      var ys' := ys[..|ys| - 1];
      ChainAppend(xs, ys');
      assert (xs + ys)[..|xs + ys| - 1] == xs + ys';
    }
  }

  /** Every chunk of a stream is one 512-byte block. */
  predicate WholeBlocks(s: Stream)
  {
    forall j :: 0 <= j < |s| ==> |s[j]| == BLOCK_SIZE
  }

  lemma WholeBlocksAppend(s: Stream, t: Stream)
    requires WholeBlocks(s) && WholeBlocks(t)
    ensures WholeBlocks(s + t)
  {
  }

  /** A stream of whole blocks lays out 512 bytes per chunk. */
  lemma {:induction false} FlattenWholeBlocks(s: Stream)
    requires WholeBlocks(s)
    ensures |Flatten(s)| == BLOCK_SIZE * |s|
    decreases |s|
  {
    if s != [] {
      FlattenWholeBlocks(s[1..]);
    }
  }

  /** A chain of streams of whole blocks is a stream of whole blocks. */
  lemma {:induction false} ChainWholeBlocks(ss: seq<Stream>)
    requires forall i :: 0 <= i < |ss| ==> WholeBlocks(ss[i])
    ensures WholeBlocks(Chain(ss))
    decreases |ss|
  {
    if ss != [] {
      ChainWholeBlocks(ss[..|ss| - 1]);
      WholeBlocksAppend(Chain(ss[..|ss| - 1]), ss[|ss| - 1]);
    }
  }

  /** `ReadableBufferStream(bytes, chunkSize)`: a cursor into a buffer. */
  class BufferStream {
    const bytes: seq<Byte>
    const chunkSize: nat
    var readIndex: nat
    var closed: bool

    ghost predicate Valid()
      reads this
    {
      chunkSize > 0 && (closed <==> readIndex >= |bytes|)
    }

    /** The chunks not yet delivered. */
    function Pending(): Stream
      reads this
      requires Valid()
    {
      ChunksFrom(bytes, chunkSize, readIndex)
    }

    /** `start` closes the stream at once when the buffer is empty. */
    constructor (bytes: seq<Byte>, chunkSize: nat)
      requires chunkSize > 0
      ensures Valid()
      ensures this.bytes == bytes && this.chunkSize == chunkSize
      ensures Pending() == BufferChunks(bytes, chunkSize)
    {
      this.bytes := bytes;
      this.chunkSize := chunkSize;
      readIndex := 0;
      closed := |bytes| == 0;
    }

    /** One read: the next chunk, or none once the stream is closed. */
    method Pull() returns (chunk: Option<seq<Byte>>)
      requires Valid()
      modifies this
      ensures Valid()
      ensures old(Pending()) == [] ==> chunk == None && Pending() == []
      ensures old(Pending()) != [] ==> chunk == Some(old(Pending())[0]) && Pending() == old(Pending())[1..]
    {
      if closed {
        return None;
      }
      chunk := Some(PaddingTo512(Subarray(bytes, readIndex, readIndex + chunkSize)));
      readIndex := readIndex + chunkSize;
      if readIndex >= |bytes| {
        closed := true;
      }
    }
  }

  /** `ReadableConcatStream(first, second)`: a flag saying whether `first` is
      exhausted. The two readers are the chunk sequences still pending upstream,
      consumed from the front. */
  class ConcatStream {
    var firstPending: Stream
    var secondPending: Stream
    var readSecond: bool
    var closed: bool

    ghost predicate Valid()
      reads this
    {
      (readSecond ==> firstPending == []) && (closed ==> readSecond && secondPending == [])
    }

    /** The chunks not yet delivered. */
    function Pending(): Stream
      reads this
    {
      firstPending + secondPending
    }

    constructor (first: Stream, second: Stream)
      ensures Valid() && !readSecond && !closed
      ensures firstPending == first && secondPending == second
      ensures Pending() == first + second
    {
      firstPending := first;
      secondPending := second;
      readSecond := false;
      closed := false;
    }

    /** One pull delivers at most one chunk: the next one of `first` while there
        is one, then those of `second`; it closes when both are exhausted. */
    method Pull() returns (chunk: Option<seq<Byte>>)
      requires Valid()
      modifies this
      ensures Valid()
      ensures old(Pending()) == [] ==> chunk == None && Pending() == [] && closed
      ensures old(Pending()) != [] ==> chunk == Some(old(Pending())[0]) && Pending() == old(Pending())[1..]
    {
      if closed {
        return None;
      }
      chunk := None;
      if !readSecond {
        var done := firstPending == [];
        if !done {
          chunk := Some(firstPending[0]);
          firstPending := firstPending[1..];
        }
        readSecond := done;
      }
      if readSecond {
        var done := secondPending == [];
        if done {
          closed := true;
        } else {
          chunk := Some(secondPending[0]);
          secondPending := secondPending[1..];
        }
      }
    }
  }

  /** Moving the next pending chunk to the delivered ones keeps their
      concatenation. */
  lemma DeliveredStep(delivered: Stream, before: Stream, chunk: seq<Byte>, after: Stream)
    requires before != [] && before[0] == chunk && after == before[1..]
    ensures delivered + before == (delivered + [chunk]) + after
  {
    assert before == [chunk] + after;
  }

  /** Reading a buffer stream to its end yields exactly its chunks, in order. */
  method DrainBuffer(s: BufferStream) returns (chunks: Stream)
    requires s.Valid()
    modifies s
    ensures chunks == old(s.Pending())
    ensures s.Valid() && s.Pending() == []
  {
    chunks := [];
    while true
      invariant s.Valid()
      invariant chunks + s.Pending() == old(s.Pending())
      decreases |s.Pending()|
    {
      ghost var before := s.Pending();
      var c := s.Pull();
      if c.None? {
        return;
      }
      DeliveredStep(chunks, before, c.value, s.Pending());
      chunks := chunks + [c.value];
    }
  }

  /** Reading a concatenation to its end yields first's chunks, then second's. */
  method DrainConcat(s: ConcatStream) returns (chunks: Stream)
    requires s.Valid()
    modifies s
    ensures chunks == old(s.Pending())
    ensures s.Valid() && s.Pending() == [] && s.closed
  {
    chunks := [];
    while true
      invariant s.Valid()
      invariant chunks + s.Pending() == old(s.Pending())
      decreases |s.Pending()|
    {
      ghost var before := s.Pending();
      var c := s.Pull();
      if c.None? {
        return;
      }
      DeliveredStep(chunks, before, c.value, s.Pending());
      chunks := chunks + [c.value];
    }
  }
}
