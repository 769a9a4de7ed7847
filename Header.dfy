/** The USTAR header block of one entry (src/tar.ts:1-46, 62-89, 232-344): the
    entry description, the fixed-width fields it becomes, the PAX records it
    needs, and the 512-byte block with its checksum. */
module Header {
  import opened Bytes
  import opened Arith
  import opened Numerals
  import opened WideAnd
  import opened Wrappers
  import opened Pax
  import opened PathSplit

  /** `TarEntryType`: the one-byte typeflag values. */
  datatype EntryType =
    | RegType | LnkType | SymType | ChrType | BlkType | DirType | FifoType | ContType
    | ExtHeader | GExtHeader
  {
    function Flag(): (r: Byte)
      ensures r != NUL
    {
      match this
      case RegType => 0x30
      case LnkType => 0x31
      case SymType => 0x32
      case ChrType => 0x33
      case BlkType => 0x34
      case DirType => 0x35
      case FifoType => 0x36
      case ContType => 0x37
      case ExtHeader => 0x78
      case GExtHeader => 0x67
    }
  }

  /** An entry's content: none, a buffer, or a stream given as its chunks. */
  datatype Content = NoContent | Buffer(bytes: seq<Byte>) | Chunks(chunks: Stream)

  /** `TarHeaderBlockParams`. Strings are UTF-8 bytes. An absent optional number
      is 0 and an absent optional string is empty: the writer reads every
      optional field through `||` or a truthiness test, so 0 and absent (and ""
      and absent) behave alike. `mtime` is in whole seconds. */
  datatype Params = Params(
    name: seq<Byte>,
    mode: nat,
    uid: nat,
    gid: nat,
    size: nat,
    mtime: nat,
    typeflag: Option<EntryType>,
    linkname: seq<Byte>,
    uname: seq<Byte>,
    gname: seq<Byte>,
    devmajor: seq<Byte>,
    devminor: seq<Byte>,
    content: Content)

  /** What the writer asks of its caller: a non-empty name without a trailing
      '/', and numbers a JavaScript number holds exactly. */
  predicate ValidParams(p: Params)
  {
    && p.name != [] && p.name[|p.name| - 1] != SLASH && |p.name| < TWO_POW_31
    && p.mode < TWO_POW_53 && p.uid < TWO_POW_53 && p.gid < TWO_POW_53
    && p.size < TWO_POW_53 && p.mtime < TWO_POW_53
  }

  // ---------------------------------------------------------------------------
  // Numeric fields

  /** 0o7777777, the mask of the 8-byte numeric fields. */
  const MASK_21: nat := 0x1F_FFFF
  const TWO_POW_21: nat := 0x20_0000

  lemma OctalPowers()
    ensures Pow(8, 6) == 0x4_0000 && Pow(8, 7) == TWO_POW_21 && Pow(8, 11) == TWO_POW_33
    ensures Pow(2, 21) == TWO_POW_21
  {
    assert Pow(8, 4) == 0x1000;
    assert Pow(8, 7) == TWO_POW_21;
    PowAdd(8, 7, 4);
    assert Pow(2, 10) == 1024 && Pow(2, 11) == 2048;
    PowAdd(2, 10, 11);
  }

  /** `v & 0o7777777`: the operand is first reduced to its low 32 bits. */
  function LowBits21(v: nat): nat
  {
    BitAnd(v % TWO_POW_32, MASK_21)
  }

  /** The 8-byte fields keep v modulo 2^21. */
  lemma LowBits21Mod(v: nat)
    ensures LowBits21(v) == v % TWO_POW_21
  {
    OctalPowers();
    BitAndLowMask(v % TWO_POW_32, 21);
    var a, b := v / TWO_POW_32, v % TWO_POW_32;
    var c, d := b / TWO_POW_21, b % TWO_POW_21;
    assert v == (a * 0x800 + c) * TWO_POW_21 + d;
    DivModUnique(v, TWO_POW_21, a * 0x800 + c, d);
  }

  /** An 8-byte numeric field: 7 octal digits of `v & 0o7777777`, then NUL. */
  function ShortOctal(v: nat): (r: seq<Byte>)
    ensures |r| == 8
  {
    ShortOctalWidth(v);
    Place(OctalField(LowBits21(v), 7), 8)
  }

  /** A 12-byte numeric field: 11 octal digits of `and(v, 0o77777777777)`, then NUL. */
  function LongOctal(v: nat): (r: seq<Byte>)
    requires v < TWO_POW_53
    ensures |r| == 12
  {
    LongOctalWidth(v);
    Place(OctalField(And(v, MAX_OCTAL_11), 11), 12)
  }

  lemma ShortOctalWidth(v: nat)
    ensures |OctalField(LowBits21(v), 7)| == 7
  {
    LowBits21Mod(v);
    OctalPowers();
    OctalFieldRoundTrip(LowBits21(v), 7);
  }

  lemma LongOctalWidth(v: nat)
    requires v < TWO_POW_53
    ensures |OctalField(And(v, MAX_OCTAL_11), 11)| == 11
  {
    AndTruncates(v);
    OctalPowers();
    OctalFieldRoundTrip(And(v, MAX_OCTAL_11), 11);
  }

  /** An 8-byte field reads back (first 7 bytes, octal) as v modulo 2^21. */
  lemma ShortOctalReadsBack(v: nat)
    ensures var r := ShortOctal(v);
      AllDigits(r[..7], 8) && r[7] == NUL && Value(r[..7], 8) == v % TWO_POW_21
  {
    LowBits21Mod(v);
    OctalPowers();
    OctalFieldRoundTrip(LowBits21(v), 7);
  }

  /** A 12-byte field reads back (first 11 bytes, octal) as v modulo 2^33, which
      is v itself whenever v fits in 11 octal digits. */
  lemma LongOctalReadsBack(v: nat)
    requires v < TWO_POW_53
    ensures var r := LongOctal(v);
      && AllDigits(r[..11], 8) && r[11] == NUL
      && Value(r[..11], 8) == v % TWO_POW_33
      && (v <= MAX_OCTAL_11 ==> Value(r[..11], 8) == v)
  {
    AndTruncates(v);
    OctalPowers();
    OctalFieldRoundTrip(And(v, MAX_OCTAL_11), 11);
  }

  // ---------------------------------------------------------------------------
  // Name and prefix

  /** "@PathCut/_pc_root/", which stands in front of a path that no split fits. */
  const PATH_CUT: seq<Byte> :=
    [0x40, 0x50, 0x61, 0x74, 0x68, 0x43, 0x75, 0x74, 0x2f, 0x5f, 0x70, 0x63, 0x5f, 0x72, 0x6f, 0x6f, 0x74, 0x2f]

  /** The `name` (100 bytes) and `prefix` (155 bytes) fields of a path. */
  function NameAndPrefix(path: seq<Byte>): (r: (seq<Byte>, seq<Byte>))
    ensures |r.0| == 100 && |r.1| == 155
  {
    PrefixAndNameBounds(path);
    match PrefixAndName(path)
    case None => (Place(PATH_CUT + Take(path, MAX_NAME_LENGTH - |PATH_CUT|), 100), Zeros(155))
    case Some((prefix, name)) => (Place(name, 100), Place(prefix, 155))
  }

  /** The bytes of s before its first NUL: how a reader takes a string field. */
  function CString(s: seq<Byte>): (r: seq<Byte>)
    ensures |r| <= |s|
  {
    if s == [] || s[0] == NUL then [] else [s[0]] + CString(s[1..])
  }

  predicate NoNul(s: seq<Byte>)
  {
    forall i :: 0 <= i < |s| ==> s[i] != NUL
  }

  lemma {:induction false} CStringOfPlace(s: seq<Byte>, width: nat)
    requires NoNul(s) && |s| <= width
    ensures CString(Place(s, width)) == s
    decreases |s|
  {
    var r := Place(s, width);
    if s == [] {
      if width > 0 {
        assert r[0] == NUL;
      }
    } else {
      assert r[1..] == Place(s[1..], width - 1);
      CStringOfPlace(s[1..], width - 1);
      assert s == [s[0]] + s[1..];
    }
  }

  /** How a USTAR reader rebuilds the path: `name` alone when `prefix` starts
      with NUL, otherwise prefix, '/', name. */
  function ReadPath(name: seq<Byte>, prefix: seq<Byte>): seq<Byte>
  {
    if CString(prefix) == [] then CString(name) else CString(prefix) + [SLASH] + CString(name)
  }

  /** When a split exists, the fields give the path back, as long as the path has
      no NUL byte and is not a 100-byte path starting with '/'. That one path
      length is cut right after its leading '/', leaving an empty prefix (see
      `AbsoluteHundredLosesSlash`); any other absolute path either fits whole
      or keeps its '/' in the prefix. */
  lemma NameAndPrefixRoundTrip(path: seq<Byte>)
    requires NoNul(path) && path != [] && !(path[0] == SLASH && |path| == 100)
    requires PrefixAndName(path).Some?
    ensures var (name, prefix) := NameAndPrefix(path);
      ReadPath(name, prefix) == path
  {
    PrefixAndNameCorrect(path);
    var (prefix, name) := PrefixAndName(path).value;
    if |path| <= MAX_NAME_LENGTH {
      CStringOfPlace(path, 100);
      CStringOfPlace([], 155);
    } else {
      assert prefix + [SLASH] + name == path;
      assert NoNul(prefix) by {
        forall i | 0 <= i < |prefix| ensures prefix[i] != NUL {
          assert path[i] == prefix[i];
        }
      }
      assert NoNul(name) by {
        forall i | 0 <= i < |name| ensures name[i] != NUL {
          assert path[|prefix| + 1 + i] == name[i];
        }
      }
      CStringOfPlace(name, 100);
      CStringOfPlace(prefix, 155);
    }
  }

  /** The exception: "/" followed by 99 bytes is cut at its first boundary,
      after the empty first segment. The prefix field is empty, so a reader
      gets the 99 bytes back without the leading '/'. */
  lemma AbsoluteHundredLosesSlash(rest: seq<Byte>)
    requires NoNul(rest) && |rest| == MAX_NAME_LENGTH
    ensures var path := [SLASH] + rest;
      var (name, prefix) := NameAndPrefix(path);
      && PrefixAndName(path) == Some(([], rest))
      && ReadPath(name, prefix) == rest
      && ReadPath(name, prefix) != path
  {
    var path := [SLASH] + rest;
    assert path[1..] == rest;
    var segs := Split(path);
    assert segs == [[]] + Split(rest);
    JoinOfSplit(rest);
    assert segs[1..] == Split(rest);
    assert Join(segs[..1]) == [];
    assert Fits(segs, 1);
    CStringOfPlace(rest, 100);
    CStringOfPlace([], 155);
  }

  /** A path no split fits is written as "@PathCut/_pc_root/" and its first 81
      bytes, with an empty prefix; the name field then still ends in NUL. */
  lemma UnsplittableName(path: seq<Byte>)
    requires PrefixAndName(path).None?
    ensures var (name, prefix) := NameAndPrefix(path);
      && |path| > MAX_NAME_LENGTH
      && name[..99] == PATH_CUT + path[..81] && name[99] == NUL
      && prefix == Zeros(155)
  {
  }

  // ---------------------------------------------------------------------------
  // The fields of a header

  /** The byte fields of a `TarHeaderBlock`. */
  datatype Fields = Fields(
    name: seq<Byte>,
    mode: seq<Byte>,
    uid: seq<Byte>,
    gid: seq<Byte>,
    size: seq<Byte>,
    mtime: seq<Byte>,
    typeflag: seq<Byte>,
    linkname: seq<Byte>,
    magic: seq<Byte>,
    version: seq<Byte>,
    uname: seq<Byte>,
    gname: seq<Byte>,
    devmajor: seq<Byte>,
    devminor: seq<Byte>,
    prefix: seq<Byte>)
  {
    /** The widths of the header comment at src/tar.ts:26-42. */
    predicate WellFormed()
    {
      && |name| == 100 && |mode| == 8 && |uid| == 8 && |gid| == 8
      && |size| == 12 && |mtime| == 12 && |typeflag| == 1 && |linkname| == 100
      && |magic| == 6 && |version| == 2 && |uname| == 32 && |gname| == 32
      && |devmajor| == 8 && |devminor| == 8 && |prefix| == 155
    }
  }

  const MAGIC: seq<Byte> := [0x75, 0x73, 0x74, 0x61, 0x72, 0x00]
  const VERSION: seq<Byte> := [0x30, 0x30]
  const DEFAULT_MODE: nat := 0x1FF

  /** The mode field of an entry without a mode: "0000777" and NUL, which is
      what `ShortOctal(DEFAULT_MODE)` computes (DefaultModeField). */
  const DEFAULT_MODE_FIELD: seq<Byte> := [0x30, 0x30, 0x30, 0x30, 0x37, 0x37, 0x37, NUL]

  /** The mode field: the default mode when none (or 0) is given. */
  function ModeField(mode: nat): (r: seq<Byte>)
    ensures |r| == 8
  {
    if mode == 0 then DEFAULT_MODE_FIELD else ShortOctal(mode)
  }

  /** The fields the `TarHeaderBlock` constructor fills from its parameters. */
  function FieldsOf(p: Params): (f: Fields)
    requires ValidParams(p)
    ensures f.WellFormed()
  {
    var (name, prefix) := NameAndPrefix(p.name);
    Fields(
      name,
      ModeField(p.mode),
      ShortOctal(p.uid),
      ShortOctal(p.gid),
      LongOctal(p.size),
      LongOctal(p.mtime),
      [match p.typeflag case Some(t) => t.Flag() case None => RegType.Flag()],
      Zeros(100),
      MAGIC,
      VERSION,
      Place(Take(p.uname, 31), 32),
      Place(Take(p.gname, 31), 32),
      Place(Take(p.devmajor, 7), 8),
      Place(Take(p.devminor, 7), 8),
      prefix)
  }

  /** The PAX records the constructor pushes: `path` when no split fits, then
      `size` (in decimal) when the size exceeds 11 octal digits. */
  function PaxRecordsOf(p: Params): seq<PaxExtendedHeader>
  {
    (if PrefixAndName(p.name).None? then [PaxExtendedHeader(Path, p.name)] else [])
    + (if p.size > MAX_OCTAL_11 then [PaxExtendedHeader(Size, Decimal(p.size))] else [])
  }

  /** The numeric fields: mode, uid and gid keep their value modulo 2^21, a mode
      of 0 counting as absent and becoming 0o777; size and mtime keep theirs
      modulo 2^33, exactly when it fits. */
  lemma NumericFields(p: Params)
    requires ValidParams(p)
    ensures var f := FieldsOf(p);
      && AllDigits(f.mode[..7], 8) && AllDigits(f.uid[..7], 8) && AllDigits(f.gid[..7], 8)
      && AllDigits(f.size[..11], 8) && AllDigits(f.mtime[..11], 8)
      && Value(f.mode[..7], 8) == (if p.mode == 0 then DEFAULT_MODE else p.mode % TWO_POW_21)
      && Value(f.uid[..7], 8) == p.uid % TWO_POW_21
      && Value(f.gid[..7], 8) == p.gid % TWO_POW_21
      && Value(f.size[..11], 8) == p.size % TWO_POW_33
      && Value(f.mtime[..11], 8) == p.mtime % TWO_POW_33
      && (p.size <= MAX_OCTAL_11 ==> Value(f.size[..11], 8) == p.size)
      && (p.mtime <= MAX_OCTAL_11 ==> Value(f.mtime[..11], 8) == p.mtime)
  {
    DefaultModeField(p.mode);
    ShortOctalReadsBack(if p.mode == 0 then DEFAULT_MODE else p.mode);
    ShortOctalReadsBack(p.uid);
    ShortOctalReadsBack(p.gid);
    LongOctalReadsBack(p.size);
    LongOctalReadsBack(p.mtime);
  }

  /** The mode field is the 7-digit octal of the mode, or of 0o777 when the mode
      is absent or 0; for the default that is "0000777" and NUL. */
  lemma DefaultModeField(mode: nat)
    ensures ModeField(mode) == ShortOctal(if mode == 0 then DEFAULT_MODE else mode)
  {
    if mode == 0 {
      OctalPowers();
      LowBits21Mod(DEFAULT_MODE);
      assert LowBits21(DEFAULT_MODE) == 511;
      assert Digits(511, 8) == [0x37, 0x37, 0x37] by {
        assert Digits(63, 8) == Digits(7, 8) + [0x37];
      }
    }
  }

  /** The fields copied from strings keep their first 31 (uname, gname) or
      7 (devmajor, devminor) bytes and always end in NUL; linkname is left NUL
      whatever the parameters say; the typeflag defaults to '0'. */
  lemma TextFields(p: Params)
    requires ValidParams(p)
    ensures var f := FieldsOf(p);
      && f.linkname == Zeros(100)
      && f.uname[..|Take(p.uname, 31)|] == Take(p.uname, 31) && f.uname[31] == NUL
      && f.gname[..|Take(p.gname, 31)|] == Take(p.gname, 31) && f.gname[31] == NUL
      && f.devmajor[..|Take(p.devmajor, 7)|] == Take(p.devmajor, 7) && f.devmajor[7] == NUL
      && f.devminor[..|Take(p.devminor, 7)|] == Take(p.devminor, 7) && f.devminor[7] == NUL
      && f.typeflag == [if p.typeflag.Some? then p.typeflag.value.Flag() else 0x30]
      && f.magic == MAGIC && f.version == VERSION
  {
  }

  /** A size record is made exactly when the size exceeds 0o77777777777, and it
      carries the size in decimal; a path record exactly when no split fits, and
      it carries the whole path, before any size record. No record is ever made
      for mtime. */
  lemma PaxRecordsCorrect(p: Params)
    ensures var recs := PaxRecordsOf(p);
      && |recs| <= 2
      && ((exists i :: 0 <= i < |recs| && recs[i].keyword == Size) <==> p.size > MAX_OCTAL_11)
      && ((exists i :: 0 <= i < |recs| && recs[i].keyword == Path) <==> PrefixAndName(p.name).None?)
      && (forall i :: 0 <= i < |recs| && recs[i].keyword == Size ==> recs[i].value == Decimal(p.size))
      && (forall i :: 0 <= i < |recs| && recs[i].keyword == Path ==> recs[i].value == p.name && i == 0)
  {
    var recs := PaxRecordsOf(p);
    if p.size > MAX_OCTAL_11 {
      assert recs[|recs| - 1].keyword == Size;
    }
    if PrefixAndName(p.name).None? {
      assert recs[0].keyword == Path;
    }
  }

  /** A path record is made only for paths over 99 bytes, so its base length is
      at least 107. */
  lemma PathRecordBase(p: Params)
    requires PrefixAndName(p.name).None?
    ensures PaxRecordsOf(p)[0] == PaxExtendedHeader(Path, p.name)
    ensures PaxRecordsOf(p)[0].BaseLength() >= 107
  {
  }

  // ---------------------------------------------------------------------------
  // The header block

  /** The 512-byte buffer with every field `set` at its offset and the checksum
      field still NUL. */
  function Layout(f: Fields): (r: seq<Byte>)
    requires f.WellFormed()
    ensures |r| == 512
  {
    f.name + f.mode + f.uid + f.gid + f.size + f.mtime + Zeros(8) + f.typeflag + f.linkname
    + f.magic + f.version + f.uname + f.gname + f.devmajor + f.devminor + f.prefix + Zeros(12)
  }

  /** The sum of the bytes with the checksum field counted as 8 spaces. */
  function Checksum(f: Fields): nat
    requires f.WellFormed()
  {
    Sum(Layout(f)) + 8 * SPACE
  }

  lemma {:induction false} SumSpaces(n: nat)
    ensures Sum(seq(n, _ => SPACE)) == n * SPACE
  {
    if n > 0 {
      assert seq(n, _ => SPACE)[..n - 1] == seq(n - 1, _ => SPACE);
      SumSpaces(n - 1);
    }
  }

  lemma ChecksumWidth(f: Fields)
    requires f.WellFormed()
    ensures |OctalField(Checksum(f), 6)| == 6
  {
    ChecksumFits(f);
    OctalFieldRoundTrip(Checksum(f), 6);
  }

  lemma ChecksumFits(f: Fields)
    requires f.WellFormed()
    ensures Checksum(f) < Pow(8, 6)
  {
    SumBound(Layout(f));
    OctalPowers();
  }

  /** `header()`: the layout with 6 octal digits of the checksum, NUL and a space
      written over bytes 148..155. */
  function Encode(f: Fields): (r: seq<Byte>)
    requires f.WellFormed()
    ensures |r| == 512
  {
    ChecksumWidth(f);
    Layout(f)[..148] + OctalField(Checksum(f), 6) + [NUL, SPACE] + Layout(f)[156..]
  }

  /** l[|pre|..|pre| + |x|] is x when l starts with pre + x. */
  lemma SliceAfter(l: seq<Byte>, pre: seq<Byte>, x: seq<Byte>)
    requires |pre| + |x| <= |l| && l[..|pre| + |x|] == pre + x
    ensures l[..|pre|] == pre && l[|pre|..|pre| + |x|] == x
  {
    assert l[..|pre|] == l[..|pre| + |x|][..|pre|];
    assert l[|pre|..|pre| + |x|] == l[..|pre| + |x|][|pre|..];
  }

  /** Every field sits at the offset of the header comment in the layout,
      followed by 12 NUL bytes. */
  lemma LayoutOffsets(f: Fields)
    requires f.WellFormed()
    ensures var l := Layout(f);
      && l[0..100] == f.name && l[100..108] == f.mode && l[108..116] == f.uid
      && l[116..124] == f.gid && l[124..136] == f.size && l[136..148] == f.mtime
      && l[148..156] == Zeros(8)
      && l[156..157] == f.typeflag && l[157..257] == f.linkname
      && l[257..263] == f.magic && l[263..265] == f.version
      && l[265..297] == f.uname && l[297..329] == f.gname
      && l[329..337] == f.devmajor && l[337..345] == f.devminor
      && l[345..500] == f.prefix && l[500..512] == Zeros(12)
  {
    var l := Layout(f);
    var p1 := f.name;
    var p2 := p1 + f.mode;
    var p3 := p2 + f.uid;
    var p4 := p3 + f.gid;
    var p5 := p4 + f.size;
    var p6 := p5 + f.mtime;
    var p7 := p6 + Zeros(8);
    var p8 := p7 + f.typeflag;
    var p9 := p8 + f.linkname;
    var p10 := p9 + f.magic;
    var p11 := p10 + f.version;
    var p12 := p11 + f.uname;
    var p13 := p12 + f.gname;
    var p14 := p13 + f.devmajor;
    var p15 := p14 + f.devminor;
    var p16 := p15 + f.prefix;
    assert l == p16 + Zeros(12);
    SliceAfter(l, p16, Zeros(12));
    SliceAfter(l, p15, f.prefix);
    SliceAfter(l, p14, f.devminor);
    SliceAfter(l, p13, f.devmajor);
    SliceAfter(l, p12, f.gname);
    SliceAfter(l, p11, f.uname);
    SliceAfter(l, p10, f.version);
    SliceAfter(l, p9, f.magic);
    SliceAfter(l, p8, f.linkname);
    SliceAfter(l, p7, f.typeflag);
    SliceAfter(l, p6, Zeros(8));
    SliceAfter(l, p5, f.mtime);
    SliceAfter(l, p4, f.size);
    SliceAfter(l, p3, f.gid);
    SliceAfter(l, p2, f.uid);
    SliceAfter(l, p1, f.mode);
    SliceAfter(l, [], f.name);
  }

  /** The finished block keeps every field at its offset, followed by 12 NUL
      bytes; only bytes 148..155 differ from the layout. */
  lemma EncodeOffsets(f: Fields)
    requires f.WellFormed()
    ensures var e := Encode(f);
      && |e| == 512
      && e[0..100] == f.name && e[100..108] == f.mode && e[108..116] == f.uid
      && e[116..124] == f.gid && e[124..136] == f.size && e[136..148] == f.mtime
      && e[156..157] == f.typeflag && e[157..257] == f.linkname
      && e[257..263] == f.magic && e[263..265] == f.version
      && e[265..297] == f.uname && e[297..329] == f.gname
      && e[329..337] == f.devmajor && e[337..345] == f.devminor
      && e[345..500] == f.prefix && e[500..512] == Zeros(12)
  {
    ChecksumFits(f);
    OctalFieldRoundTrip(Checksum(f), 6);
    LayoutOffsets(f);
    var l := Layout(f);
    var e := Encode(f);
    assert e[..148] == l[..148] && e[156..] == l[156..];
    assert e[..148][0..100] == e[0..100] && l[..148][0..100] == l[0..100];
    assert e[..148][100..108] == e[100..108] && l[..148][100..108] == l[100..108];
    assert e[..148][108..116] == e[108..116] && l[..148][108..116] == l[108..116];
    assert e[..148][116..124] == e[116..124] && l[..148][116..124] == l[116..124];
    assert e[..148][124..136] == e[124..136] && l[..148][124..136] == l[124..136];
    assert e[..148][136..148] == e[136..148] && l[..148][136..148] == l[136..148];
    forall a, b | 156 <= a <= b <= 512
      ensures e[a..b] == l[a..b]
    {
      assert e[a..b] == e[156..][a - 156..b - 156];
      assert l[a..b] == l[156..][a - 156..b - 156];
    }
  }

  /** The checksum field holds 6 octal digits, NUL and a space, and the digits
      read back as the sum of the finished block with bytes 148..155 counted as
      spaces. */
  lemma ChecksumRoundTrip(f: Fields)
    requires f.WellFormed()
    ensures var e := Encode(f);
      && |e| == 512
      && AllDigits(e[148..154], 8) && e[154] == NUL && e[155] == SPACE
      && Value(e[148..154], 8) == Sum(e[..148] + seq(8, _ => SPACE) + e[156..])
  {
    ChecksumFits(f);
    OctalFieldRoundTrip(Checksum(f), 6);
    var l := Layout(f);
    var e := Encode(f);
    assert e[..148] == l[..148] && e[156..] == l[156..] && e[148..154] == OctalField(Checksum(f), 6);
    assert l == l[..148] + Zeros(8) + l[156..];
    SumAppend(l[..148] + Zeros(8), l[156..]);
    SumAppend(l[..148], Zeros(8));
    SumZeros(8);
    var spaces: seq<Byte> := seq(8, _ => SPACE);
    SumSpaces(8);
    SumAppend(l[..148] + spaces, l[156..]);
    SumAppend(l[..148], spaces);
  }
}
