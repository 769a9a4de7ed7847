/** `Tarball` (src/tar.ts:376-388): the archive stream, made of every entry's
    blocks in order followed by two zero blocks. */
module Tarball {
  import opened Bytes
  import opened Streams
  import opened Header
  import opened Block

  /** Every entry's parameters are acceptable to `TarHeaderBlock`. */
  predicate AllValid(ps: seq<Params>)
  {
    forall i :: 0 <= i < |ps| ==> ValidParams(ps[i])
  }

  /** `param.map((p) => new TarHeaderBlock(p).whole_block())`, as the chunks
      each of those streams delivers. */
  function EntryStreams(ps: seq<Params>): (r: seq<Stream>)
    requires AllValid(ps)
    ensures |r| == |ps|
    ensures forall i :: 0 <= i < |ps| ==> r[i] == EntryStream(ps[i])
  {
    seq(|ps|, i requires 0 <= i < |ps| => EntryStream(ps[i]))
  }

  /** The streams of two lists of entries are those of the first, then those of
      the second. */
  lemma EntryStreamsAppend(a: seq<Params>, b: seq<Params>)
    requires AllValid(a) && AllValid(b) && AllValid(a + b)
    ensures EntryStreams(a + b) == EntryStreams(a) + EntryStreams(b)
  {
    var l, r := EntryStreams(a + b), EntryStreams(a) + EntryStreams(b);
    forall i | 0 <= i < |l|
      ensures l[i] == r[i]
    {
      if i < |a| {
        assert (a + b)[i] == a[i];
      } else {
        assert (a + b)[i] == b[i - |a|];
      }
    }
  }

  /** Everything the archive stream delivers: the entries in order, then the
      1024 zero bytes of the end-of-archive marker in chunks of 512. */
  function ArchiveStream(ps: seq<Params>): Stream
    requires AllValid(ps)
  {
    Chain(EntryStreams(ps)) + BufferChunks(Zeros(2 * BLOCK_SIZE), BLOCK_SIZE)
  }

  /** The archive of two lists of entries is the first list's entries, then
      the second's, then the marker. */
  lemma ArchiveAppend(a: seq<Params>, b: seq<Params>)
    requires AllValid(a) && AllValid(b)
    ensures AllValid(a + b)
    ensures ArchiveStream(a + b)
         == Chain(EntryStreams(a)) + Chain(EntryStreams(b)) + [Zeros(BLOCK_SIZE), Zeros(BLOCK_SIZE)]
  {
    assert AllValid(a + b) by {
      forall i | 0 <= i < |a + b|
        ensures ValidParams((a + b)[i])
      {
        if i >= |a| {
          assert (a + b)[i] == b[i - |a|];
        }
      }
    }
    EntryStreamsAppend(a, b);
    ChainAppend(EntryStreams(a), EntryStreams(b));
    BufferChunksOfTrailer();
  }

  /** An archive of one entry is that entry's stream and the marker. */
  lemma ArchiveOne(p: Params)
    requires ValidParams(p)
    ensures AllValid([p])
    ensures ArchiveStream([p]) == EntryStream(p) + [Zeros(BLOCK_SIZE), Zeros(BLOCK_SIZE)]
  {
    ChainOne(EntryStreams([p]));
    BufferChunksOfTrailer();
  }

  /** The archive always ends with two zero blocks, after all the entries. */
  lemma ArchiveTrailer(ps: seq<Params>)
    requires AllValid(ps)
    ensures var s := ArchiveStream(ps);
      && s == Chain(EntryStreams(ps)) + [Zeros(BLOCK_SIZE), Zeros(BLOCK_SIZE)]
      && |s| >= 2 && s[|s| - 2] == Zeros(BLOCK_SIZE) && s[|s| - 1] == Zeros(BLOCK_SIZE)
  {
    BufferChunksOfTrailer();
  }

  /** Content given as a buffer (or none) is delivered in whole blocks. */
  predicate Buffered(p: Params)
  {
    !p.content.Chunks?
  }

  /** An entry whose content is buffered contributes only 512-byte blocks; so
      does its PAX sub-entry, whose content is the records' buffer. */
  lemma {:induction false} EntryWholeBlocks(p: Params)
    requires ValidParams(p) && Buffered(p)
    ensures WholeBlocks(EntryStream(p))
    decreases |PaxRecordsOf(p)|
  {
    var recs := PaxRecordsOf(p);
    PaxEntryValid(p);
    var pax: Stream := [];
    if recs != [] {
      var q := PaxEntryParams(recs);
      EntryWholeBlocks(q);
      pax := EntryStream(q);
    }
    var header := Encode(FieldsOf(p));
    BufferChunksOfBlock(header);
    ContentWholeBlocks(p.content);
    assert EntryStream(p) == pax + [header] + ContentChunks(p.content);
    WholeBlocksAppend(pax, [header]);
    WholeBlocksAppend(pax + [header], ContentChunks(p.content));
  }

  lemma ContentWholeBlocks(c: Content)
    requires !c.Chunks?
    ensures WholeBlocks(ContentChunks(c))
  {
    match c {
      case NoContent => BufferChunksPadding([]);
      case Buffer(bytes) => BufferChunksPadding(bytes);
    }
  }

  /** When every content is buffered the archive is a sequence of 512-byte
      blocks, so its bytes are a whole number of tar records. */
  lemma ArchiveWholeBlocks(ps: seq<Params>)
    requires AllValid(ps) && forall i :: 0 <= i < |ps| ==> Buffered(ps[i])
    ensures WholeBlocks(ArchiveStream(ps))
  {
    var es := EntryStreams(ps);
    forall i | 0 <= i < |es|
      ensures WholeBlocks(es[i])
    {
      EntryWholeBlocks(ps[i]);
    }
    ChainWholeBlocks(es);
    ArchiveTrailer(ps);
    WholeBlocksAppend(Chain(es), [Zeros(BLOCK_SIZE), Zeros(BLOCK_SIZE)]);
  }

  /** An archive of one entry with no PAX record whose content is an n-byte
      buffer is 3 + ceil(n / 512) blocks long: its header, its padded
      content and the two-block marker (a 5-byte file gives 2048 bytes). */
  lemma OneBufferedEntry(p: Params)
    requires ValidParams(p) && PaxRecordsOf(p) == [] && p.content.Buffer?
    ensures AllValid([p])
    ensures var n := |p.content.bytes|;
      |Flatten(ArchiveStream([p]))| == BLOCK_SIZE * (3 + (n + BLOCK_SIZE - 1) / BLOCK_SIZE)
  {
    OneBufferedEntryBlocks(p);
    ArchiveWholeBlocks([p]);
    FlattenWholeBlocks(ArchiveStream([p]));
  }

  lemma OneBufferedEntryBlocks(p: Params)
    requires ValidParams(p) && PaxRecordsOf(p) == [] && p.content.Buffer?
    ensures AllValid([p])
    ensures |ArchiveStream([p])| == 3 + (|p.content.bytes| + BLOCK_SIZE - 1) / BLOCK_SIZE
  {
    ArchiveOne(p);
    PlainEntryStream(p);
    BufferChunksPadding(p.content.bytes);
  }

  /** `param.map((p) => new TarHeaderBlock(p).whole_block())`. */
  method EntryBlocksOf(params: seq<Params>) returns (streams: seq<ConcatStream>)
    requires AllValid(params)
    ensures |streams| == |params|
    ensures forall j :: 0 <= j < |streams| ==> streams[j].Pending() == EntryStreams(params)[j]
  {
    streams := [];
    for i := 0 to |params|
      invariant |streams| == i
      invariant forall j :: 0 <= j < i ==> streams[j].Pending() == EntryStreams(params)[j]
    {
      var s := EntryBlockAt(params, i);
      streams := streams + [s];
    }
  }

  /** The stream `param.map` builds for the i-th entry. */
  method EntryBlockAt(params: seq<Params>, i: nat) returns (s: ConcatStream)
    requires AllValid(params) && i < |params|
    ensures fresh(s) && s.Pending() == EntryStreams(params)[i]
  {
    s := EntryBlocks(params[i]);
  }

  /** `Tarball`: the entries' streams are built first, chained left to right
      with `ReadableConcatStream`, and the end-of-archive marker is chained
      last. */
  class Tarball {
    var stream: ConcatStream

    constructor (params: seq<Params>)
      requires |params| > 0 && AllValid(params)
      ensures fresh(stream) && stream.Valid()
      ensures stream.Pending() == ArchiveStream(params)
    {
      var streams := EntryBlocksOf(params);
      ghost var pending := EntryStreams(params);
      var acc := streams[0];
      ChainSnoc(pending, 0);
      for i := 1 to |streams|
        invariant acc.Pending() == Chain(pending[..i])
        invariant forall j :: 0 <= j < |streams| ==> streams[j].Pending() == pending[j]
      {
        acc := new ConcatStream(acc.Pending(), streams[i].Pending());
        ChainSnoc(pending, i);
      }
      var trailer := new BufferStream(Zeros(2 * BLOCK_SIZE), BLOCK_SIZE);
      assert pending[..|pending|] == pending;
      stream := new ConcatStream(acc.Pending(), trailer.Pending());
    }
  }
}
