/** Every byte of a boot image in terms of the command line, at the offsets of the format itself. */
module BootBytes {
  import opened Bits
  import opened Bytes
  import opened Utf8
  import opened Paging
  import opened Format
  import opened OsVersion
  import opened BootHeader
  import opened BootImage
  import opened BootRepack

  /** A file that is not given has no bytes. */
  function Data(file: Option<bytes>): bytes {
    match file case None => [] case Some(b) => b
  }

  // ----- versions 0, 1 and 2

  /** The words up to offset 48. */
  ghost predicate BaseWords(file: bytes, c: Command) {
    && |file| >= 48 && file[..8] == [0x41, 0x4E, 0x44, 0x52, 0x4F, 0x49, 0x44, 0x21]
    && Has32(file, 8, |Data(c.kernel)|) && Has32(file, 12, c.base + c.kernelOffset)
    && Has32(file, 16, |Data(c.ramdisk)|)
    && Has32(file, 20, if Data(c.ramdisk) != [] then c.base + c.ramdiskOffset else 0)
    && Has32(file, 24, |Data(c.second)|)
    && Has32(file, 28, if Data(c.second) != [] then c.base + c.secondOffset else 0)
    && Has32(file, 32, c.base + c.tagsOffset) && Has32(file, 36, c.pagesize) && Has32(file, 40, c.headerVersion)
    && Version(c).Some? && Patch(c).Some? && Has32(file, 44, 2048 * Version(c).value + Patch(c).value)
  }

  /** The name, and the command line in two parts. */
  ghost predicate TextFields(file: bytes, c: Command) {
    && HasField(file, 48, 16, Encode(c.board))
    && var e := Encode(c.cmdline);
       if |e| <= 511 then HasField(file, 64, 512, e) && HasField(file, 608, 1024, [])
       else HasField(file, 64, 512, e[..511]) && HasField(file, 608, 1024, e[511..])
  }

  /** A file and its size, as the image id covers them. */
  function WithSize(b: bytes): bytes {
    var n := |b|;
    var w: int, x: int, y: int, z: int := n % 256, n / 256 % 256, n / 65536 % 256, n / 16777216 % 256;
    b + [w, x, y, z]
  }

  /** What the image id is computed over. */
  function Covered(c: Command): bytes {
    WithSize(Data(c.kernel)) + WithSize(Data(c.ramdisk)) + WithSize(Data(c.second))
    + (if c.headerVersion >= 1 then WithSize(Data(c.recoveryDtbo)) else [])
    + (if c.headerVersion >= 2 then WithSize(Data(c.dtb)) else [])
  }

  /** The 32 bytes of the id: the digest and zeros behind it. */
  ghost predicate HasId(file: bytes, digest: bytes) {
    if |digest| <= 32 then HasField(file, 576, 32, digest) else |file| >= 608 && file[576..608] == digest[..32]
  }

  /** Where the recovery DTBO begins: on the page behind header, kernel, ramdisk and second. */
  function DtboPosition(c: Command): nat
    requires c.pagesize > 0
  {
    var p: nat := c.pagesize;
    PageEnd(PageEnd(PageEnd(p + |Data(c.kernel)|, p) + |Data(c.ramdisk)|, p) + |Data(c.second)|, p)
  }

  /** The words of versions 1 and 2. */
  ghost predicate VersionWords(file: bytes, c: Command)
    requires c.pagesize > 0
  {
    && (c.headerVersion >= 1 ==>
          && Has32(file, 1632, |Data(c.recoveryDtbo)|)
          && Has64(file, 1636, if c.recoveryDtbo.Some? then DtboPosition(c) else 0)
          && Has32(file, 1644, if c.headerVersion == 1 then 1648 else 1660))
    && (c.headerVersion >= 2 ==> Has32(file, 1648, |Data(c.dtb)|) && Has64(file, 1652, c.base + c.dtbOffset))
  }

  /** The files behind the header, in order. */
  function Files(c: Command): seq<bytes> {
    [Data(c.kernel), Data(c.ramdisk), Data(c.second)]
    + (if 1 <= c.headerVersion <= 2 then [Data(c.recoveryDtbo)] else [])
    + (if c.headerVersion == 2 then [Data(c.dtb)] else [])
  }

  function HeaderLength(version: int): nat {
    if version == 0 then 1632
    else if version == 1 then 1648
    else if version == 2 then 1660
    else if version == 3 then 1580
    else 1584
  }

  /** The header, then every file from a page boundary on, and nothing but zeros between them. */
  ghost predicate InOrder(file: bytes, c: Command, page: nat)
    requires page > 0
  {
    |file| >= HeaderLength(c.headerVersion) && Laid(file, 0, [file[..HeaderLength(c.headerVersion)]] + Files(c), page)
  }

  /** Every byte of an image of versions 0 to 2. */
  lemma ImageBytes012(c: Command, sha: bytes -> bytes)
    requires PlainCommand(c) && Pack(c, sha).Ok? && c.headerVersion < 3
    ensures c.headerVersion >= 0 && c.pagesize in {2048, 4096, 8192, 16384}
    ensures var file := Pack(c, sha).value;
            && BaseWords(file, c) && TextFields(file, c) && HasId(file, sha(Covered(c)))
            && VersionWords(file, c) && InOrder(file, c, c.pagesize)
  {
    hide Pack, FieldsOf, Render, WriteAll, Sections, Base2, BaseWords, TextFields, HasId, VersionWords, InOrder,
      HeaderReads012, PackableWords, Packable, Pad, Covered, PlainCommand, CheckArguments;
    PackedIs012(c, sha);
    var f, file := FieldsOf(c, sha), Pack(c, sha).value;
    PrefixStays(Pad(Render(f), c.pagesize), Sections(c), c.pagesize);
    HeaderFirst(f, file, c.pagesize, Sections(c));
    ReadHeader012(f, file);
    ReadBase2(f, file);
    BaseWordsAre(c, sha, file);
    TextFieldsAre(c, sha, file);
    IdIs(c, sha, file);
    VersionWordsAre(c, sha, file);
    FilesInOrder(c, sha);
  }

  lemma PackedIs012(c: Command, sha: bytes -> bytes)
    requires PlainCommand(c) && Pack(c, sha).Ok? && c.headerVersion < 3
    ensures 0 <= c.headerVersion && CheckArguments(c).Ok? && ShaInput(c).Some? && Packable(FieldsOf(c, sha))
    ensures IsPageSize(c.pagesize)
    ensures Pack(c, sha).value == WriteAll(Pad(Render(FieldsOf(c, sha)), c.pagesize), Sections(c), c.pagesize)
  {
    hide Render, WriteAll, Pad, Sections, ShaInput;
  }

  lemma HeaderFirst(f: Fields, file: bytes, page: nat, sections: seq<Option<bytes>>)
    requires Packable(f) && page > 0 && Pad(Render(f), page) <= file
    ensures Render(f) <= file
  {
    hide Render;
  }

  lemma BaseWordsAre(c: Command, sha: bytes -> bytes, file: bytes)
    requires PlainCommand(c) && CheckArguments(c).Ok? && ShaInput(c).Some? && 0 <= c.headerVersion < 3
    requires HeaderReads012(file, FieldsOf(c, sha))
    ensures BaseWords(file, c)
  {
    hide Has32, Has64, BootHeader.Word, Long, OsWord, Version, Patch, Encode, Asciiz, FirstCmdline, ExtraCmdline,
      ShaInput, RecoveryDtboOffset;
    ReadWords(file);
    AcceptedArguments(c);
    OsWordIs(c);
  }

  lemma OsWordIs(c: Command)
    requires Version(c).Some? && Patch(c).Some?
    ensures OsWord(c) == 2048 * Version(c).value + Patch(c).value
  {
    hide Pow2, Version, Patch, PatchLevel;
    Pow2Values();
    ParsedFits(c);
    JoinedWord(Version(c).value, Patch(c).value);
  }

  lemma JoinedWord(version: nat, patch: nat)
    requires patch < Pow2(11)
    ensures OsVersion.Word(version, patch) == 2048 * version + patch
  {
    hide Or;
    Pow2Values();
    OrDisjoint(patch, version, 11);
    OrCommutes(Shl(version, 11), patch);
  }

  /** A word read is a word there. */
  lemma ReadWords(file: bytes)
    ensures forall off: nat | off + 4 <= |file| :: Has32(file, off, BootHeader.Word(file, off))
    ensures forall off: nat | off + 8 <= |file| :: Has64(file, off, Long(file, off))
  {
    forall off: nat | off + 4 <= |file| ensures Has32(file, off, BootHeader.Word(file, off)) {
      Word32(file, off, BootHeader.Word(file, off));
    }
    forall off: nat | off + 8 <= |file| ensures Has64(file, off, Long(file, off)) {
      Word64(file, off, Long(file, off));
    }
  }

  lemma TextFieldsAre(c: Command, sha: bytes -> bytes, file: bytes)
    requires PlainCommand(c) && CheckArguments(c).Ok? && ShaInput(c).Some? && 0 <= c.headerVersion < 3
    requires |file| >= 1632 && file[48..64] == PackS(16, FieldsOf(c, sha).name)
    requires file[64..576] == PackS(512, FieldsOf(c, sha).cmdline)
    requires file[608..1632] == PackS(1024, FieldsOf(c, sha).extraCmdline)
    ensures TextFields(file, c)
  {
    hide HasField, PackS, Encode, ShaInput, Version, Patch;
    AcceptedArguments(c);
    var e := Encode(c.cmdline);
    TerminatedField(file, 48, 16, Encode(c.board));
    if |e| <= 510 {
      assert FirstCmdline(Asciiz(c.cmdline)) == e + [0] + [0];
      TwiceTerminated(file, 64, 512, e);
      NoField(file, 608, 1024);
    } else if |e| == 511 {
      assert FirstCmdline(Asciiz(c.cmdline)) == e + [0];
      assert ExtraCmdline(Asciiz(c.cmdline)) == [] + [0];
      TerminatedField(file, 64, 512, e);
      TerminatedField(file, 608, 1024, []);
    } else {
      assert FirstCmdline(Asciiz(c.cmdline)) == e[..511] + [0];
      assert ExtraCmdline(Asciiz(c.cmdline)) == e[511..] + [0];
      TerminatedField(file, 64, 512, e[..511]);
      TerminatedField(file, 608, 1024, e[511..]);
    }
  }

  lemma TerminatedField(file: bytes, off: nat, n: nat, b: bytes)
    requires off + n <= |file| && |b| < n && file[off..off + n] == PackS(n, b + [0])
    ensures HasField(file, off, n, b)
  {
    assert b + [0] == b + Zeros(1);
    PaddedField(file, off, n, b + Zeros(1));
    ZerosArePadding(file, off, n, b, 1);
  }

  lemma TwiceTerminated(file: bytes, off: nat, n: nat, b: bytes)
    requires off + n <= |file| && |b| + 1 < n && file[off..off + n] == PackS(n, b + [0] + [0])
    ensures HasField(file, off, n, b)
  {
    assert b + [0] + [0] == b + Zeros(2);
    PaddedField(file, off, n, b + Zeros(2));
    ZerosArePadding(file, off, n, b, 2);
  }

  lemma NoField(file: bytes, off: nat, n: nat)
    requires off + n <= |file| && file[off..off + n] == PackS(n, [])
    ensures HasField(file, off, n, [])
  {
    PaddedField(file, off, n, []);
  }

  lemma IdIs(c: Command, sha: bytes -> bytes, file: bytes)
    requires PlainCommand(c) && CheckArguments(c).Ok? && ShaInput(c).Some? && 0 <= c.headerVersion < 3
    requires |file| >= 1632 && file[576..608] == PackS(32, FieldsOf(c, sha).id)
    ensures HasId(file, sha(Covered(c)))
  {
    hide Version, Patch, CheckArguments, OsWord, RecoveryDtboOffset, Encode, Asciiz, FirstCmdline, ExtraCmdline;
    CoveredIs(c);
    IdField(file, sha(Covered(c)));
  }

  lemma IdField(file: bytes, digest: bytes)
    requires |file| >= 1632 && file[576..608] == PackS(32, digest)
    ensures HasId(file, digest)
  {
    hide HasField;
    if |digest| <= 32 { PaddedField(file, 576, 32, digest); }
  }

  lemma CoveredIs(c: Command)
    requires ShaInput(c).Some? && 0 <= c.headerVersion < 3
    ensures ShaInput(c).value == Covered(c)
  {
    hide ShaOf, SizesFit, WithSize;
    var t2 := if c.headerVersion > 1 then [c.dtb] else [];
    var t1 := (if c.headerVersion > 0 then [c.recoveryDtbo] else []) + t2;
    assert ShaFiles(c) == [c.kernel] + ([c.ramdisk] + ([c.second] + t1));
    NoFiles();
    OneFile(c.kernel, [c.ramdisk] + ([c.second] + t1));
    OneFile(c.ramdisk, [c.second] + t1);
    OneFile(c.second, t1);
    if c.headerVersion > 0 { OneFile(c.recoveryDtbo, t2); }
    if c.headerVersion > 1 {
      assert t2 == [c.dtb] + [];
      OneFile(c.dtb, []);
    }
  }

  lemma NoFiles()
    ensures SizesFit([]) && ShaOf([]) == []
  {
  }

  lemma OneFile(s: Option<bytes>, rest: seq<Option<bytes>>)
    requires SizesFit([s] + rest)
    ensures SizesFit(rest) && ShaOf([s] + rest) == WithSize(Data(s)) + ShaOf(rest)
  {
    hide WithSize;
    var all := [s] + rest;
    assert all[1..] == rest;
    assert Fits32(Size(all[0]));
    SizeIs(s);
  }

  lemma SizeIs(s: Option<bytes>)
    ensures Content(s) == Data(s) && Size(s) == |Data(s)|
    ensures Fits32(Size(s)) ==> Content(s) + U32(Size(s)) == WithSize(Data(s))
  {
  }

  lemma VersionWordsAre(c: Command, sha: bytes -> bytes, file: bytes)
    requires PlainCommand(c) && CheckArguments(c).Ok? && ShaInput(c).Some? && 0 <= c.headerVersion < 3
    requires HeaderReads012(file, FieldsOf(c, sha)) && IsPageSize(c.pagesize)
    ensures VersionWords(file, c)
  {
    hide Has32, Has64, BootHeader.Word, Long, OsWord, Version, Patch, Encode, Asciiz, FirstCmdline, ExtraCmdline,
      ShaInput, RecoveryDtboOffset, DtboPosition;
    ReadWords(file);
    DtboPositionIs(c);
  }

  lemma DtboPositionIs(c: Command)
    requires IsPageSize(c.pagesize)
    ensures RecoveryDtboOffset(c) == DtboPosition(c)
  {
    hide Pages, PageEnd, Pow2;
    var p: nat := c.pagesize;
    var k := PageSizes(p);
    var a, b, d := Pages(Size(c.kernel), p), Pages(Size(c.ramdisk), p), Pages(Size(c.second), p);
    assert p * 1 == p;
    NextPage(1, |Data(c.kernel)|, p, k);
    NextPage(1 + a, |Data(c.ramdisk)|, p, k);
    NextPage(1 + a + b, |Data(c.second)|, p, k);
  }

  lemma NextPage(c: nat, n: nat, page: nat, k: nat)
    requires page == Pow2(k) && page > 0
    ensures page * c >= 0 && PageEnd(page * c + n, page) == page * (c + Pages(n, page))
  {
    hide Pages, PageEnd, PadLen, Pow2;
    MulMono(page, 0, c);
    PaddedLength(page * c + n, page, k);
    PagesFrom(c, n, page);
    PadsToPageEnd(Zeros(page * c + n), page, k);
  }

  lemma FilesInOrder(c: Command, sha: bytes -> bytes)
    requires PlainCommand(c) && Pack(c, sha).Ok? && c.headerVersion < 3 && c.pagesize > 0
    ensures InOrder(Pack(c, sha).value, c, c.pagesize)
  {
    hide Pack, FieldsOf, Render, WriteAll, Sections, Pad, Files, Laid, Pow2, CheckArguments, ShaInput;
    PackedIs012(c, sha);
    var f := FieldsOf(c, sha);
    var file, header := Pack(c, sha).value, Render(f);
    var k := PageSizes(c.pagesize);
    FilesAre(c);
    HeaderIsLaid(header, Sections(c), c.pagesize, k, Files(c));
    PrefixStays(Pad(header, c.pagesize), Sections(c), c.pagesize);
    HeaderFirst(f, file, c.pagesize, Sections(c));
    RenderLength(c, sha);
    assert file[..|header|] == header;
  }

  lemma FilesAre(c: Command)
    ensures |Files(c)| == |Sections(c)| && forall i :: 0 <= i < |Files(c)| ==> Files(c)[i] == Content(Sections(c)[i])
  {
  }

  lemma RenderLength(c: Command, sha: bytes -> bytes)
    requires PlainCommand(c) && CheckArguments(c).Ok? && ShaInput(c).Some? && Packable(FieldsOf(c, sha))
    ensures |Render(FieldsOf(c, sha))| == HeaderLength(c.headerVersion)
  {
    hide Base2, U32, U64, OsWord, Version, Patch, ShaInput, CheckArguments, RecoveryDtboOffset, Encode, Asciiz;
  }

  // ----- versions 3 and 4

  ghost predicate Header34(file: bytes, c: Command) {
    && |file| >= 1580 && file[..8] == [0x41, 0x4E, 0x44, 0x52, 0x4F, 0x49, 0x44, 0x21]
    && Has32(file, 8, |Data(c.kernel)|) && Has32(file, 12, |Data(c.ramdisk)|)
    && Version(c).Some? && Patch(c).Some? && Has32(file, 16, 2048 * Version(c).value + Patch(c).value)
    && Has32(file, 20, HeaderLength(c.headerVersion)) && HasField(file, 24, 16, []) && Has32(file, 40, c.headerVersion)
    && HasField(file, 44, 1536, Encode(c.cmdline))
    && (c.headerVersion == 4 ==> Has32(file, 1580, 0))
  }

  /** Every byte of an image of versions 3 and 4, which has no second file. */
  lemma ImageBytes34(c: Command, sha: bytes -> bytes)
    requires PlainCommand(c) && Pack(c, sha).Ok? && c.headerVersion >= 3
    ensures c.headerVersion <= 4 && c.second.None?
    ensures Header34(Pack(c, sha).value, c) && InOrder(Pack(c, sha).value, c, 4096)
  {
    hide Pack, Fields3Of, Render3, WriteAll, Sections, Pad, Files, Laid, Pow2, CheckArguments, Header34;
    PackedIs34(c, sha);
    var f := Fields3Of(c);
    var file, header := Pack(c, sha).value, Render3(f);
    Page4096();
    FilesAre(c);
    HeaderIsLaid(header, Sections(c), 4096, 12, Files(c));
    PrefixStays(Pad(header, 4096), Sections(c), 4096);
    HeaderFirst34(f, file);
    Header34Is(c, file);
    assert file[..|header|] == header;
  }

  lemma Page4096()
    ensures Pow2(12) == 4096
  {
    Pow2Values();
    Pow2Add(11, 1);
  }

  lemma PackedIs34(c: Command, sha: bytes -> bytes)
    requires PlainCommand(c) && Pack(c, sha).Ok? && c.headerVersion >= 3
    ensures c.headerVersion <= 4 && c.second.None? && CheckArguments(c).Ok? && Packable3(Fields3Of(c))
    ensures Pack(c, sha).value == WriteAll(Pad(Render3(Fields3Of(c)), 4096), Sections(c), 4096)
    ensures |Render3(Fields3Of(c))| == HeaderLength(c.headerVersion)
  {
    hide Render3, WriteAll, Pad, Sections;
  }

  lemma HeaderFirst34(f: Fields3, file: bytes)
    requires Packable3(f) && Pad(Render3(f), 4096) <= file
    ensures Render3(f) <= file
  {
    hide Render3;
  }

  lemma Header34Is(c: Command, file: bytes)
    requires PlainCommand(c) && CheckArguments(c).Ok? && 3 <= c.headerVersion <= 4 && Packable3(Fields3Of(c))
    requires Render3(Fields3Of(c)) <= file
    ensures Header34(file, c)
  {
    hide Has32, Has64, HasField, BootHeader.Word, Long, OsWord, Version, Patch, Encode, Render3, CheckArguments;
    ReadRendered3(Fields3Of(c), file);
    ReadWords(file);
    AcceptedArguments(c);
    OsWordIs(c);
    MagicAt(file);
    NoNumbers(file);
    TerminatedField(file, 44, 1536, Encode(c.cmdline));
  }

  lemma NoNumbers(file: bytes)
    requires |file| >= 40 && file[24..40] == Zeros(16)
    ensures HasField(file, 24, 16, [])
  {
    assert PackS(16, []) == Zeros(16);
    PaddedField(file, 24, 16, []);
  }

  // ----- which command lines make an image

  predicate In32(v: int) { 0 <= v < 0x1_0000_0000 }
  predicate In64(v: int) { 0 <= v < 0x1_0000_0000_0000_0000 }

  /** What every version asks for. */
  predicate ArgumentsAreGood(c: Command) {
    && |Encode(c.cmdline)| <= (if c.headerVersion < 3 then 1534 else 1535) && |Encode(c.board)| <= 15
    && c.pagesize in {2048, 4096, 8192, 16384} && Version(c).Some? && Patch(c).Some?
  }

  /** What versions 0 to 2 ask for: sizes and addresses that fit their fields, and a dtb in version 2. */
  predicate FieldsFit012(c: Command) {
    && In32(|Data(c.kernel)|) && In32(|Data(c.ramdisk)|) && In32(|Data(c.second)|)
    && In32(c.base + c.kernelOffset) && In32(c.base + c.tagsOffset)
    && (Data(c.ramdisk) != [] ==> In32(c.base + c.ramdiskOffset))
    && (Data(c.second) != [] ==> In32(c.base + c.secondOffset))
    && (c.headerVersion >= 1 ==> In32(|Data(c.recoveryDtbo)|))
    && (c.headerVersion == 2 ==> Data(c.dtb) != [] && In32(|Data(c.dtb)|) && In64(c.base + c.dtbOffset))
  }

  /** An image is made exactly from these command lines. */
  lemma MakesImageIff(c: Command, sha: bytes -> bytes)
    requires PlainCommand(c)
    ensures Pack(c, sha).Ok? <==>
              && 0 <= c.headerVersion <= 4 && ArgumentsAreGood(c)
              && if c.headerVersion < 3 then FieldsFit012(c)
                 else c.second.None? && In32(|Data(c.kernel)|) && In32(|Data(c.ramdisk)|)
  {
    hide Pack, CheckArguments, ArgumentsAreGood, FieldsFit012, Encode;
    GoodArguments(c);
    RefusedArguments(c, sha);
    if CheckArguments(c).Ok? {
      if c.headerVersion >= 3 { Makes34Iff(c, sha); } else { Makes012Iff(c, sha); }
    }
  }

  lemma RefusedArguments(c: Command, sha: bytes -> bytes)
    requires PlainCommand(c)
    ensures Pack(c, sha).Ok? ==> CheckArguments(c).Ok?
  {
  }

  lemma Makes34Iff(c: Command, sha: bytes -> bytes)
    requires PlainCommand(c) && CheckArguments(c).Ok? && c.headerVersion >= 3
    ensures Pack(c, sha).Ok? <==>
              c.headerVersion <= 4 && c.second.None? && In32(|Data(c.kernel)|) && In32(|Data(c.ramdisk)|)
  {
    hide Render3, WriteAll, Pad, Sections, Fields3Of, Packable3, CheckArguments;
    Fits34(c);
  }

  lemma Makes012Iff(c: Command, sha: bytes -> bytes)
    requires PlainCommand(c) && CheckArguments(c).Ok? && c.headerVersion < 3
    ensures Pack(c, sha).Ok? <==> c.headerVersion >= 0 && FieldsFit012(c)
  {
    hide Render, WriteAll, Pad, Sections, ShaInput, FieldsOf, Packable, FieldsFit012, CheckArguments, SizesOfId,
      RecoveryDtboOffset;
    CoversIff(c);
    if FieldsFit012(c) { TooLate(c); }
    if ShaInput(c).Some? && (c.headerVersion == 2 ==> Size(c.dtb) > 0) {
      DtboOffsetFits(c);
      Fits012(c, sha);
    }
  }

  lemma GoodArguments(c: Command)
    requires PlainCommand(c)
    ensures CheckArguments(c).Ok? <==> ArgumentsAreGood(c)
  {
    hide Version, Patch, Encode;
  }

  lemma Fits34(c: Command)
    requires PlainCommand(c) && CheckArguments(c).Ok? && c.headerVersion >= 3
    ensures Packable3(Fields3Of(c)) <==> c.headerVersion <= 4 && In32(|Data(c.kernel)|) && In32(|Data(c.ramdisk)|)
  {
    hide OsWord, Version, Patch, CheckArguments;
    AcceptedArguments(c);
    OsWordDecodes(c);
    SizeIs(c.kernel);
    SizeIs(c.ramdisk);
  }

  /** The sizes that go into the id. */
  predicate SizesOfId(c: Command) {
    && In32(|Data(c.kernel)|) && In32(|Data(c.ramdisk)|) && In32(|Data(c.second)|)
    && (c.headerVersion > 0 ==> In32(|Data(c.recoveryDtbo)|)) && (c.headerVersion > 1 ==> In32(|Data(c.dtb)|))
  }

  lemma CoversIff(c: Command)
    ensures ShaInput(c).Some? <==> SizesOfId(c)
  {
    var files := ShaFiles(c);
    assert files[0] == c.kernel && files[1] == c.ramdisk && files[2] == c.second;
    assert c.headerVersion > 0 ==> files[3] == c.recoveryDtbo;
    assert c.headerVersion > 1 ==> files[4] == c.dtb;
  }

  lemma DtboOffsetFits(c: Command)
    requires PlainCommand(c) && CheckArguments(c).Ok? && SizesOfId(c)
    ensures In64(RecoveryDtboOffset(c))
  {
    hide RecoveryDtboOffset, PageEnd, CheckArguments;
    AcceptedArguments(c);
    DtboPositionIs(c);
    PageEndBound(c);
  }

  lemma PageEndBound(c: Command)
    requires IsPageSize(c.pagesize) && SizesOfId(c)
    ensures DtboPosition(c) <= 4 * 16384 + 3 * 0x1_0000_0000
  {
  }

  lemma Fits012(c: Command, sha: bytes -> bytes)
    requires PlainCommand(c) && CheckArguments(c).Ok? && ShaInput(c).Some? && c.headerVersion < 3
    requires SizesOfId(c) && In64(RecoveryDtboOffset(c)) && (c.headerVersion == 2 ==> Size(c.dtb) > 0)
    ensures Packable(FieldsOf(c, sha)) <==> 0 <= c.headerVersion && FieldsFit012(c)
  {
    hide OsWord, Version, Patch, CheckArguments, ShaInput, RecoveryDtboOffset, FirstCmdline, ExtraCmdline, Asciiz;
    AcceptedArguments(c);
    OsWordDecodes(c);
  }

  /** What the fields need the id needs too. */
  lemma TooLate(c: Command)
    requires FieldsFit012(c) && c.headerVersion < 3
    ensures SizesOfId(c) && (c.headerVersion == 2 ==> Size(c.dtb) > 0)
  {
  }
}
