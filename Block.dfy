/** `TarHeaderBlock` (src/tar.ts:213-374): an entry's fields, its PAX records,
    its content stream, and the stream of blocks it contributes to an archive. */
module Block {
  import opened Bytes
  import opened Numerals
  import opened WideAnd
  import opened Wrappers
  import opened Pax
  import opened PathSplit
  import opened Streams
  import opened Header

  /** "PaxHeader/@PaxHeader", the name of the sub-entry holding PAX records. */
  const PAX_HEADER_NAME: seq<Byte> :=
    [0x50, 0x61, 0x78, 0x48, 0x65, 0x61, 0x64, 0x65, 0x72, 0x2f,
     0x40, 0x50, 0x61, 0x78, 0x48, 0x65, 0x61, 0x64, 0x65, 0x72]

  /** `pax_headers.reduce((size, header) => size + header.length(), 0)`. */
  function TotalLength(recs: seq<PaxExtendedHeader>): nat
  {
    if recs == [] then 0 else TotalLength(recs[..|recs| - 1]) + recs[|recs| - 1].Length()
  }

  /** The records' bytes one after another. */
  function RecordsBytes(recs: seq<PaxExtendedHeader>): seq<Byte>
  {
    if recs == [] then [] else RecordsBytes(recs[..|recs| - 1]) + recs[|recs| - 1].ToBytes()
  }

  /** The records take exactly the bytes their lengths add up to. */
  lemma {:induction false} RecordsBytesLength(recs: seq<PaxExtendedHeader>)
    ensures |RecordsBytes(recs)| == TotalLength(recs)
    decreases |recs|
  {
    if recs != [] {
      RecordsBytesLength(recs[..|recs| - 1]);
      ToBytesSelfDescribing(recs[|recs| - 1]);
    }
  }

  /** `total_pax_size` as src/tar.ts:355 computes it, with `length()` as written. */
  function TotalLengthAsWritten(recs: seq<PaxExtendedHeader>): nat
  {
    if recs == [] then 0 else TotalLengthAsWritten(recs[..|recs| - 1]) + recs[|recs| - 1].LengthAsWritten()
  }

  /** The bytes src/tar.ts:357-361 copies, each record headed by `length()` as
      written. */
  function RecordsBytesAsWritten(recs: seq<PaxExtendedHeader>): seq<Byte>
  {
    if recs == [] then [] else RecordsBytesAsWritten(recs[..|recs| - 1]) + recs[|recs| - 1].ToBytesAsWritten()
  }

  predicate NoneInBand(recs: seq<PaxExtendedHeader>)
  {
    forall i :: 0 <= i < |recs| ==> !InBand(recs[i].BaseLength())
  }

  /** How many records have their base in the band. */
  function BandCount(recs: seq<PaxExtendedHeader>): nat
  {
    if recs == [] then 0
    else BandCount(recs[..|recs| - 1]) + (if InBand(recs[|recs| - 1].BaseLength()) then 1 else 0)
  }

  /** With `length()` as written, the copied records never fit in less than the
      buffer; they fill it exactly when no record's base is in the band, and
      then they and the buffer size are those of the corrected model. When a
      record is in the band they overrun the buffer, so `pax_buffer.set`
      throws. */
  lemma AsWrittenBuffer(recs: seq<PaxExtendedHeader>)
    ensures |RecordsBytesAsWritten(recs)| >= TotalLengthAsWritten(recs)
    ensures |RecordsBytesAsWritten(recs)| == TotalLengthAsWritten(recs) <==> NoneInBand(recs)
    ensures NoneInBand(recs) ==>
      RecordsBytesAsWritten(recs) == RecordsBytes(recs) && TotalLengthAsWritten(recs) == TotalLength(recs)
  {
    AsWrittenOverrun(recs);
    BandCountZero(recs);
    if NoneInBand(recs) {
      AsWrittenAgrees(recs);
    }
  }

  /** The records as written overrun the buffer by one byte per record in the band. */
  lemma {:induction false} AsWrittenOverrun(recs: seq<PaxExtendedHeader>)
    ensures |RecordsBytesAsWritten(recs)| == TotalLengthAsWritten(recs) + BandCount(recs)
    decreases |recs|
  {
    if recs != [] {
      AsWrittenOverrun(recs[..|recs| - 1]);
      AsWrittenRecord(recs[|recs| - 1]);
    }
  }

  lemma {:induction false} BandCountZero(recs: seq<PaxExtendedHeader>)
    ensures BandCount(recs) == 0 <==> NoneInBand(recs)
    decreases |recs|
  {
    if recs != [] {
      var init := recs[..|recs| - 1];
      BandCountZero(init);
      assert forall i :: 0 <= i < |init| ==> init[i] == recs[i];
    }
  }

  /** Outside the band, the source's records and buffer size are the model's. */
  lemma {:induction false} AsWrittenAgrees(recs: seq<PaxExtendedHeader>)
    requires NoneInBand(recs)
    ensures RecordsBytesAsWritten(recs) == RecordsBytes(recs)
    ensures TotalLengthAsWritten(recs) == TotalLength(recs)
    decreases |recs|
  {
    if recs != [] {
      var init := recs[..|recs| - 1];
      assert forall i :: 0 <= i < |init| ==> init[i] == recs[i];
      AsWrittenAgrees(init);
      AsWrittenRecord(recs[|recs| - 1]);
    }
  }

  /** The parameters of the PAX sub-entry: type 'x', the records as content and
      their total length as size; every other field is absent. */
  function PaxEntryParams(recs: seq<PaxExtendedHeader>): Params
  {
    Params(PAX_HEADER_NAME, 0, 0, 0, TotalLength(recs), 0, Some(ExtHeader),
           [], [], [], [], [], Buffer(RecordsBytes(recs)))
  }

  /** The content stream: an absent content is an empty buffer, a buffer is
      delivered in padded 512-byte chunks, a stream is passed through as it is. */
  function ContentChunks(c: Content): Stream
  {
    match c
    case NoContent => BufferChunks([], BLOCK_SIZE)
    case Buffer(bytes) => BufferChunks(bytes, BLOCK_SIZE)
    case Chunks(chunks) => chunks
  }

  /** A record is at most twice its base length plus one. */
  lemma RecordLengthBound(r: PaxExtendedHeader)
    ensures r.Length() <= 2 * r.BaseLength() + 1
  {
    RecordLengthSelfConsistent(r.BaseLength());
    DigitCountOfDigitCount(r.BaseLength());
  }

  lemma TotalLengthOfFew(recs: seq<PaxExtendedHeader>)
    ensures |recs| == 1 ==> TotalLength(recs) == recs[0].Length()
    ensures |recs| == 2 ==> TotalLength(recs) == recs[0].Length() + recs[1].Length()
  {
    if |recs| == 2 {
      assert recs[..1] == [recs[0]];
      assert recs[..1][..0] == [];
    } else if |recs| == 1 {
      assert recs[..0] == [];
    }
  }

  /** A path record of a name below 2^31 bytes and a size record of a size
      below 2^53 together stay below 2^33 bytes. */
  lemma PaxRecordsSmall(p: Params)
    requires ValidParams(p)
    ensures TotalLength(PaxRecordsOf(p)) <= MAX_OCTAL_11
  {
    var recs := PaxRecordsOf(p);
    var pathRecord := PaxExtendedHeader(Path, p.name);
    var sizeRecord := PaxExtendedHeader(Size, Decimal(p.size));
    var hasPath := PrefixAndName(p.name).None?;
    var hasSize := p.size > MAX_OCTAL_11;
    RecordLengthBound(pathRecord);
    RecordLengthBound(sizeRecord);
    if hasSize {
      SizeRecordUnaffected(p.size);
    }
    TotalLengthOfFew(recs);
    if hasPath && hasSize {
      assert recs == [pathRecord, sizeRecord];
    } else if hasPath {
      assert recs == [pathRecord];
    } else if hasSize {
      assert recs == [sizeRecord];
    } else {
      assert recs == [];
    }
  }

  /** The PAX sub-entry is itself a valid entry with no PAX records of its own:
      the nesting stops at depth one. */
  lemma PaxEntryValid(p: Params)
    requires ValidParams(p)
    ensures var q := PaxEntryParams(PaxRecordsOf(p));
      ValidParams(q) && PaxRecordsOf(q) == [] && q.size <= MAX_OCTAL_11
  {
    PaxRecordsSmall(p);
  }

  /** The chunks `header_with_pax()` delivers: the whole PAX sub-entry when
      there are records, then the header block. */
  function HeaderStream(p: Params): Stream
    requires ValidParams(p)
    decreases |PaxRecordsOf(p)|, 0
  {
    PaxEntryValid(p);
    var recs := PaxRecordsOf(p);
    (if recs == [] then [] else EntryStream(PaxEntryParams(recs)))
    + BufferChunks(Encode(FieldsOf(p)), BLOCK_SIZE)
  }

  /** The chunks `whole_block()` delivers: the header stream, then the content. */
  function EntryStream(p: Params): Stream
    requires ValidParams(p)
    decreases |PaxRecordsOf(p)|, 1
  {
    HeaderStream(p) + ContentChunks(p.content)
  }

  /** An entry without PAX records is its header block, then its content. */
  lemma PlainEntryStream(q: Params)
    requires ValidParams(q) && PaxRecordsOf(q) == []
    ensures EntryStream(q) == [Encode(FieldsOf(q))] + ContentChunks(q.content)
  {
    BufferChunksOfBlock(Encode(FieldsOf(q)));
    assert HeaderStream(q) == [Encode(FieldsOf(q))];
  }

  /** The PAX sub-entry is its header block followed by its records padded to
      whole blocks. */
  lemma PaxEntryStream(recs: seq<PaxExtendedHeader>)
    requires TotalLength(recs) <= MAX_OCTAL_11
    ensures var q := PaxEntryParams(recs);
      && ValidParams(q) && PaxRecordsOf(q) == []
      && EntryStream(q) == [Encode(FieldsOf(q))] + BufferChunks(RecordsBytes(recs), BLOCK_SIZE)
  {
    var q := PaxEntryParams(recs);
    assert PrefixAndName(q.name).Some?;
    PlainEntryStream(q);
  }

  /** The shape of an entry: the PAX sub-entry's header block and its records
      padded to 512 bytes when there are records, then the header block, then
      the content. */
  lemma EntryStreamShape(p: Params)
    requires ValidParams(p)
    ensures var recs := PaxRecordsOf(p);
      var q := PaxEntryParams(recs);
      && ValidParams(q)
      && EntryStream(p)
         == (if recs == [] then [] else [Encode(FieldsOf(q))] + BufferChunks(RecordsBytes(recs), BLOCK_SIZE))
            + [Encode(FieldsOf(p))] + ContentChunks(p.content)
  {
    var recs := PaxRecordsOf(p);
    PaxRecordsSmall(p);
    PaxEntryStream(recs);
    BufferChunksOfBlock(Encode(FieldsOf(p)));
  }

  /** The PAX sub-entry has type 'x', its name fits the name field whole with an
      empty prefix, and its size field reads back as the byte length of the
      records it carries. */
  lemma PaxEntryFields(recs: seq<PaxExtendedHeader>)
    requires TotalLength(recs) <= MAX_OCTAL_11
    ensures var q := PaxEntryParams(recs);
      && ValidParams(q)
      && FieldsOf(q).typeflag == [0x78]
      && FieldsOf(q).name == Place(PAX_HEADER_NAME, 100) && FieldsOf(q).prefix == Zeros(155)
      && Value(FieldsOf(q).size[..11], 8) == |RecordsBytes(recs)|
  {
    RecordsBytesLength(recs);
    LongOctalReadsBack(TotalLength(recs));
  }

  /** A reader of those name and prefix fields gets "PaxHeader/@PaxHeader". */
  lemma PaxHeaderNameReadsBack()
    ensures ReadPath(Place(PAX_HEADER_NAME, 100), Zeros(155)) == PAX_HEADER_NAME
  {
    assert PAX_HEADER_NAME[0] != SLASH;
    assert NoNul(PAX_HEADER_NAME);
    NameAndPrefixRoundTrip(PAX_HEADER_NAME);
  }

  /** Buffer content is padded to whole blocks, stream content is passed through
      unpadded. */
  lemma ContentChunksCorrect(c: Content)
    ensures c.NoContent? ==> ContentChunks(c) == []
    ensures c.Buffer? ==> Flatten(ContentChunks(c)) == PaddingTo512(c.bytes)
    ensures c.Chunks? ==> ContentChunks(c) == c.chunks
  {
    if c.Buffer? {
      BufferChunksPadding(c.bytes);
    }
    BufferChunksPadding([]);
  }

  /** `buf.set(src, offset)`: src copied over buf from offset on. */
  method Set(buf: array<Byte>, src: seq<Byte>, offset: nat)
    requires offset + |src| <= buf.Length
    modifies buf
    ensures buf[..] == old(buf[..])[..offset] + src + old(buf[..])[offset + |src|..]
  {
    forall k | 0 <= k < |src| {
      buf[offset + k] := src[k];
    }
  }

  /** A header buffer written up to |acc| bytes (the bytes acc) and still NUL
      after them. */
  function HeaderWritten(acc: seq<Byte>): (r: seq<Byte>)
    requires |acc| <= BLOCK_SIZE
    ensures |r| == BLOCK_SIZE
  {
    acc + Zeros(BLOCK_SIZE - |acc|)
  }

  /** `buf.set(x, offset)` on a header buffer written up to offset. */
  method SetAfter(buf: array<Byte>, x: seq<Byte>, offset: nat, ghost acc: seq<Byte>)
    requires offset == |acc| && offset + |x| <= BLOCK_SIZE
    requires buf[..] == HeaderWritten(acc)
    modifies buf
    ensures buf[..] == HeaderWritten(acc + x)
  {
    Set(buf, x, offset);
    var rest := Zeros(BLOCK_SIZE - offset);
    assert (acc + rest)[..offset] == acc;
    assert (acc + rest)[offset + |x|..] == Zeros(BLOCK_SIZE - |acc + x|);
  }

  /** A field left NUL is part of the zeros after the written bytes. */
  lemma SkipZeros(acc: seq<Byte>, n: nat)
    requires |acc| + n <= BLOCK_SIZE
    ensures HeaderWritten(acc) == HeaderWritten(acc + Zeros(n))
  {
    assert Zeros(BLOCK_SIZE - |acc|) == Zeros(n) + Zeros(BLOCK_SIZE - |acc| - n);
  }

  /** The end of `header()`: the sum of the buffer's bytes, with 8 spaces for the
      checksum field, set at 148 as 6 octal digits followed by NUL and space. */
  method SetChecksum(buf: array<Byte>, ghost f: Fields)
    requires f.WellFormed() && buf.Length == 512 && buf[..] == Layout(f)
    modifies buf
    ensures buf[..] == Encode(f)
  {
    var sum := Sum(buf[..]) + SPACE * 8;
    ChecksumWidth(f);
    ghost var l := buf[..];
    var digits := OctalField(sum, 6);
    Set(buf, digits, 148);
    assert buf[..] == l[..148] + digits + l[154..];
    Set(buf, [NUL, SPACE], 148 + 6);
    assert buf[..] == l[..148] + digits + [NUL, SPACE] + l[156..] by {
      var m := l[..148] + digits + l[154..];
      assert m[..154] == l[..148] + digits;
      assert m[156..] == l[156..];
    }
  }

  class TarHeaderBlock {
    const paxHeaders: seq<PaxExtendedHeader>
    const name: seq<Byte>
    const prefix: seq<Byte>
    const mode: seq<Byte>
    const uid: seq<Byte>
    const gid: seq<Byte>
    const size: seq<Byte>
    const mtime: seq<Byte>
    const typeflag: seq<Byte>
    const linkname: seq<Byte>
    const magic: seq<Byte>
    const version: seq<Byte>
    const uname: seq<Byte>
    const gname: seq<Byte>
    const devmajor: seq<Byte>
    const devminor: seq<Byte>
    const content: Stream
    /** The parameters the block was built from. */
    ghost const param: Params

    function AsFields(): Fields
    {
      Fields(name, mode, uid, gid, size, mtime, typeflag, linkname, magic, version,
             uname, gname, devmajor, devminor, prefix)
    }

    ghost predicate Valid()
    {
      && ValidParams(param)
      && AsFields() == FieldsOf(param)
      && paxHeaders == PaxRecordsOf(param)
      && content == ContentChunks(param.content)
    }

    constructor (param: Params)
      requires ValidParams(param)
      ensures Valid() && this.param == param
    {
      var paxHeaders: seq<PaxExtendedHeader> := [];
      var prefixAndName := GeneratePrefixAndName(param.name);
      PrefixAndNameBounds(param.name);
      var name := Zeros(100);
      var prefix := Zeros(155);
      if prefixAndName.None? {
        paxHeaders := paxHeaders + [PaxExtendedHeader(Path, param.name)];
        var nameBin := Take(param.name, MAX_NAME_LENGTH - |PATH_CUT|);
        name := Place(PATH_CUT + nameBin, 100);
      } else {
        prefix := Place(prefixAndName.value.0, 155);
        name := Place(prefixAndName.value.1, 100);
      }
      this.name := name;
      this.prefix := prefix;

      mode := ModeField(param.mode);
      uid := ShortOctal(param.uid);
      gid := ShortOctal(param.gid);
      size := LongOctal(param.size);
      if param.size > MAX_OCTAL_11 {
        paxHeaders := paxHeaders + [PaxExtendedHeader(Size, Decimal(param.size))];
      }
      mtime := LongOctal(param.mtime);

      typeflag := [match param.typeflag case Some(t) => t.Flag() case None => RegType.Flag()];
      linkname := Zeros(100);
      magic := MAGIC;
      version := VERSION;
      uname := Place(Take(param.uname, 31), 32);
      gname := Place(Take(param.gname, 31), 32);
      devmajor := Place(Take(param.devmajor, 7), 8);
      devminor := Place(Take(param.devminor, 7), 8);

      var content: Stream;
      match param.content {
        case NoContent =>
          var s := new BufferStream([], BLOCK_SIZE);
          content := s.Pending();
        case Buffer(bytes) =>
          var s := new BufferStream(bytes, BLOCK_SIZE);
          content := s.Pending();
        case Chunks(chunks) =>
          content := chunks;
      }
      this.content := content;
      this.paxHeaders := paxHeaders;
      this.param := param;
    }

    /** `header()`: the fields set at their offsets in a zeroed 512-byte buffer,
        then the checksum written over bytes 148..155. */
    method Header() returns (r: seq<Byte>)
      requires AsFields().WellFormed()
      ensures r == Encode(AsFields())
    {
      var f := AsFields();
      var buf := new Byte[512](_ => NUL);
      ghost var acc: seq<Byte> := [];
      assert buf[..] == HeaderWritten(acc);
      SetAfter(buf, name, 0, acc);
      assert acc + name == name;
      acc := name;
      SetAfter(buf, mode, 100, acc);
      acc := acc + mode;
      SetAfter(buf, uid, 108, acc);
      acc := acc + uid;
      SetAfter(buf, gid, 116, acc);
      acc := acc + gid;
      SetAfter(buf, size, 124, acc);
      acc := acc + size;
      SetAfter(buf, mtime, 136, acc);
      acc := acc + mtime;
      SkipZeros(acc, 8);
      acc := acc + Zeros(8);
      SetAfter(buf, typeflag, 156, acc);
      acc := acc + typeflag;
      SetAfter(buf, linkname, 157, acc);
      acc := acc + linkname;
      SetAfter(buf, magic, 257, acc);
      acc := acc + magic;
      SetAfter(buf, version, 263, acc);
      acc := acc + version;
      SetAfter(buf, uname, 265, acc);
      acc := acc + uname;
      SetAfter(buf, gname, 297, acc);
      acc := acc + gname;
      SetAfter(buf, devmajor, 329, acc);
      acc := acc + devmajor;
      SetAfter(buf, devminor, 337, acc);
      acc := acc + devminor;
      SetAfter(buf, prefix, 345, acc);
      acc := acc + prefix;
      assert buf[..] == Layout(f) by {
        assert |acc| == 500;
      }

      SetChecksum(buf, f);
      r := buf[..];
    }

    /** `header_with_pax()`: the records copied into a buffer of their total
        length become the content of a PAX sub-entry, whose whole block is
        followed by the header block. */
    method HeaderWithPax() returns (s: Stream)
      requires Valid()
      ensures s == HeaderStream(param)
      decreases |paxHeaders|, 0
    {
      var header := Header();
      if |paxHeaders| != 0 {
        var totalPaxSize := TotalLength(paxHeaders);
        var paxBuffer := CopyRecords(paxHeaders, totalPaxSize);
        PaxEntryValid(param);
        var paxBlock := new TarHeaderBlock(Params(PAX_HEADER_NAME, 0, 0, 0, totalPaxSize, 0, Some(ExtHeader),
                                                  [], [], [], [], [], Buffer(paxBuffer)));
        var paxStream := paxBlock.WholeBlock();
        var headerStream := new BufferStream(header, BLOCK_SIZE);
        var both := new ConcatStream(paxStream.Pending(), headerStream.Pending());
        s := both.Pending();
      } else {
        var headerStream := new BufferStream(header, BLOCK_SIZE);
        s := headerStream.Pending();
      }
    }

    /** `whole_block()`: the header with its PAX sub-entry, then the content. */
    method WholeBlock() returns (s: ConcatStream)
      requires Valid()
      ensures fresh(s) && s.Valid() && s.Pending() == EntryStream(param)
      decreases |paxHeaders|, 1
    {
      var headerWithPax := HeaderWithPax();
      s := new ConcatStream(headerWithPax, content);
    }
  }

  /** `new TarHeaderBlock(p).whole_block()`, the stream an archive takes from
      each entry. */
  method EntryBlocks(p: Params) returns (s: ConcatStream)
    requires ValidParams(p)
    ensures fresh(s) && s.Valid() && s.Pending() == EntryStream(p)
  {
    var block := new TarHeaderBlock(p);
    s := block.WholeBlock();
  }

  /** The copy loop of `header_with_pax()`: each record's bytes set into a
      buffer of the records' total length, one after another. */
  method CopyRecords(recs: seq<PaxExtendedHeader>, totalPaxSize: nat) returns (bytes: seq<Byte>)
    requires totalPaxSize == TotalLength(recs)
    ensures bytes == RecordsBytes(recs)
  {
    RecordsBytesLength(recs);
    var paxBuffer := new Byte[totalPaxSize](_ => NUL);
    var readIndex := 0;
    for k := 0 to |recs|
      invariant readIndex == |RecordsBytes(recs[..k])| <= totalPaxSize
      invariant paxBuffer[..readIndex] == RecordsBytes(recs[..k])
    {
      var buf := recs[k].ToBytes();
      RecordsSplit(recs, k);
      Set(paxBuffer, buf, readIndex);
      assert recs[..k + 1][..k] == recs[..k];
      assert paxBuffer[..readIndex + |buf|] == paxBuffer[..][..readIndex + |buf|];
      readIndex := readIndex + |buf|;
    }
    assert recs[..|recs|] == recs;
    bytes := paxBuffer[..];
  }

  /** Appending record k to the bytes of the first k records. */
  lemma RecordsSplit(recs: seq<PaxExtendedHeader>, k: nat)
    requires k < |recs|
    ensures RecordsBytes(recs[..k + 1]) == RecordsBytes(recs[..k]) + recs[k].ToBytes()
    ensures |recs[k].ToBytes()| <= |RecordsBytes(recs)| - |RecordsBytes(recs[..k])|
  {
    assert recs[..k + 1][..k] == recs[..k];
    RecordsBytesPrefix(recs, k + 1);
  }

  /** The bytes of a prefix of the records are a prefix of their bytes. */
  lemma {:induction false} RecordsBytesPrefix(recs: seq<PaxExtendedHeader>, k: nat)
    requires k <= |recs|
    ensures |RecordsBytes(recs[..k])| <= |RecordsBytes(recs)|
    ensures RecordsBytes(recs)[..|RecordsBytes(recs[..k])|] == RecordsBytes(recs[..k])
    decreases |recs| - k
  {
    if k == |recs| {
      assert recs[..k] == recs;
    } else {
      var init := recs[..|recs| - 1];
      assert init[..k] == recs[..k];
      RecordsBytesPrefix(init, k);
    }
  }
}
