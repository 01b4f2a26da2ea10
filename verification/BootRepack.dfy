/** Unpacking a packed boot image gives back every field and section, and packing what was unpacked
    gives back the image, byte for byte. */
module BootRepack {
  import opened Bits
  import opened Bytes
  import opened Utf8
  import opened Paging
  import opened OsVersion
  import opened BootHeader
  import opened BootImage
  import opened Argparse

  // ----- the pieces

  /** The characters that end within the first 511 bytes, and the others. */
  function Head(s: string): string { if |Encode(s)| <= 511 then s else s[..CharsIn(s, 511)] }
  function Tail(s: string): string { if |Encode(s)| <= 511 then [] else s[CharsIn(s, 511)..] }

  /** The two command line fields of versions 0 to 2 hold the two parts of the text, unless a character is
      cut: then the first field does not decode. */
  lemma CmdlineFields(s: string)
    requires Plain(s) && |Encode(s)| <= 1534
    ensures Plain(Head(s)) && Plain(Tail(s)) && Head(s) + Tail(s) == s
    ensures if CutsBetween(s, 511) then
              && Text(PackS(512, FirstCmdline(Asciiz(s)))) == Some(Head(s))
              && Text(PackS(1024, ExtraCmdline(Asciiz(s)))) == Some(Tail(s))
            else Text(PackS(512, FirstCmdline(Asciiz(s)))) == None
  {
    hide Encode, Decode, Text, PackS, FirstCmdline, ExtraCmdline, Asciiz, CutsBetween, CharsIn;
    ShortTextIsUncut(s);
    if |Encode(s)| <= 511 {
      UncutFields(s);
    } else if CutsBetween(s, 511) {
      CutFields(s);
    } else {
      LostField(s);
    }
  }

  lemma ShortTextIsUncut(s: string)
    ensures |Encode(s)| <= 511 ==> CutsBetween(s, 511)
  {
  }

  lemma LostField(s: string)
    requires 511 < |Encode(s)| && !CutsBetween(s, 511)
    ensures Text(PackS(512, FirstCmdline(Asciiz(s)))) == None
  {
    hide Encode, Decode, CutsBetween, CStr;
    CutTextIsLost(s, 511, [0]);
    assert FirstCmdline(Asciiz(s)) == Encode(s)[..511] + [0];
    assert PackS(512, Encode(s)[..511] + [0]) == Encode(s)[..511] + [0];
  }

  lemma UncutFields(s: string)
    requires Plain(s) && |Encode(s)| <= 511
    ensures Text(PackS(512, FirstCmdline(Asciiz(s)))) == Some(s)
    ensures Text(PackS(1024, ExtraCmdline(Asciiz(s)))) == Some([])
  {
    var b := Asciiz(s);
    AsciizField(512, s);
    AsciizField(1024, []);
    hide Encode, Decode, CStr;
    EmptyAsciiz();
    if |Encode(s)| <= 510 {
      assert FirstCmdline(b) == Asciiz(s) + Zeros(1);
      PackSZeros(512, Asciiz(s), 1);
      assert ExtraCmdline(b) + Zeros(1) == Asciiz([]);
      PackSZeros(1024, [], 1);
    } else {
      assert FirstCmdline(b) == Asciiz(s);
      assert ExtraCmdline(b) == Asciiz([]);
    }
  }

  lemma EmptyAsciiz()
    ensures Asciiz([]) == [0]
  {
  }

  lemma CutFields(s: string)
    requires Plain(s) && 511 < |Encode(s)| <= 1534 && CutsBetween(s, 511)
    ensures Text(PackS(512, FirstCmdline(Asciiz(s)))) == Some(Head(s))
    ensures Text(PackS(1024, ExtraCmdline(Asciiz(s)))) == Some(Tail(s))
  {
    hide Encode, Decode, CStr;
    CutText(s, 511);
    AsciizField(512, Head(s));
    AsciizField(1024, Tail(s));
    assert FirstCmdline(Asciiz(s)) == Asciiz(Head(s));
    assert ExtraCmdline(Asciiz(s)) == Asciiz(Tail(s));
  }

  /** Pages are powers of two that hold a whole header. */
  lemma PageSizes(p: int) returns (k: nat)
    requires IsPageSize(p)
    ensures p == Pow2(k) && p >= 2048
  {
    Pow2Values();
    Pow2Add(11, 1);
    Pow2Add(11, 2);
    Pow2Add(11, 3);
    k := if p == 2048 then 11 else if p == 4096 then 12 else if p == 8192 then 13 else 14;
  }

  /** A header that fits fills exactly the first page. */
  lemma HeaderPage(header: bytes, page: nat, k: nat)
    requires page == Pow2(k) && 0 < |header| <= page
    ensures |Pad(header, page)| == page * 1 && header <= Pad(header, page)
  {
    PaddedLength(|header|, page, k);
    ModUnique(|header| + page - 1, page, 1, |header| - 1);
  }

  lemma {:induction false} PagesBeforeNext(sections: seq<Option<bytes>>, i: nat, page: nat)
    requires page > 0 && i < |sections|
    ensures PagesBefore(sections, i + 1, page) == PagesBefore(sections, i, page) + Pages(|Content(sections[i])|, page)
  {
    if i > 0 {
      PagesBeforeNext(sections[1..], i - 1, page);
    }
  }

  /** Section i is where the unpacker looks for it. */
  lemma SectionSlice(header: bytes, sections: seq<Option<bytes>>, page: nat, k: nat, c: nat, i: nat)
    requires page == Pow2(k) && |header| == page * c && i < |sections|
    ensures var file := WriteAll(header, sections, page);
            && Slice(file, PageOffset(page, c + PagesBefore(sections, i, page)), |Content(sections[i])|)
               == Content(sections[i])
    ensures PagesBefore(sections, i + 1, page) == PagesBefore(sections, i, page) + Pages(|Content(sections[i])|, page)
  {
    hide WriteAll, PagesBefore, Pages, Pow2, At, Slice;
    SectionAt(header, sections, page, k, c, i);
    PagesBeforeNext(sections, i, page);
    AtSlice(WriteAll(header, sections, page), page * (c + PagesBefore(sections, i, page)), Content(sections[i]));
  }

  function NonEmpty(s: Option<bytes>): Option<bytes> {
    if Size(s) > 0 then Some(Content(s)) else None
  }

  predicate AddressesAreNat(c: Command) {
    c.headerVersion < 3 ==>
      && c.base + c.kernelOffset >= 0 && c.base + c.tagsOffset >= 0
      && (Size(c.ramdisk) > 0 ==> c.base + c.ramdiskOffset >= 0)
      && (Size(c.second) > 0 ==> c.base + c.secondOffset >= 0)
      && (c.headerVersion == 2 ==> c.base + c.dtbOffset >= 0)
  }

  function AddressIf(present: bool, address: int): nat
    requires present ==> address >= 0
  {
    if present then address else 0
  }

  /** What the info object shows of an image packed from c. */
  function InfoOf(c: Command): Info
    requires PlainCommand(c) && CheckArguments(c).Ok? && 0 <= c.headerVersion <= 4
    requires AddressesAreNat(c)
  {
    hide FormatOsVersion, FormatPatchLevel, Version, Patch, AddressesAreNat, CheckArguments, Pow2, PatchLevel;
    ParsedFits(c);
    AcceptedArguments(c);
    var osVersion, patch := FormatOsVersion(Version(c).value), FormatPatchLevel(Patch(c).value);
    if c.headerVersion < 3 then InfoOf012(c, osVersion, patch)
    else
      Info(c.headerVersion, 0, 0, 0, 0, 4096, osVersion, patch, "", c.cmdline, "", 0, 0,
           Content(c.kernel), Content(c.ramdisk), None, None, None)
  }

  function InfoOf012(c: Command, osVersion: Option<string>, patch: Option<string>): Info
    requires 0 <= c.headerVersion < 3 && c.pagesize >= 0 && AddressesAreNat(c)
  {
    Info(c.headerVersion, c.base + c.kernelOffset,
         AddressIf(Size(c.ramdisk) > 0, c.base + c.ramdiskOffset),
         AddressIf(Size(c.second) > 0, c.base + c.secondOffset),
         c.base + c.tagsOffset, c.pagesize, osVersion, patch, c.board, Head(c.cmdline), Tail(c.cmdline),
         AddressIf(c.headerVersion == 2, c.base + c.dtbOffset), 0,
         Content(c.kernel), Content(c.ramdisk), NonEmpty(c.second),
         if c.headerVersion > 0 then NonEmpty(c.recoveryDtbo) else None,
         if c.headerVersion == 2 then NonEmpty(c.dtb) else None)
  }

  lemma AcceptedArguments(c: Command)
    requires PlainCommand(c) && CheckArguments(c).Ok?
    ensures Version(c).Some? && Patch(c).Some? && IsPageSize(c.pagesize)
    ensures |Encode(c.cmdline)| + 1 <= CmdlineSize(c.headerVersion) && |Encode(c.board)| <= 15
  {
  }

  lemma ParsedFits(c: Command)
    ensures Version(c).Some? ==> Version(c).value < Pow2(21)
    ensures Patch(c).Some? ==> PatchLevel(Patch(c).value) && Patch(c).value < Pow2(11)
  {
    Pow2Values();
    if c.osVersion.Some? { ParsedVersionFits(c.osVersion.value); }
    if c.osPatchLevel.Some? { ParsedPatchFits(c.osPatchLevel.value); }
  }

  /** The version word decodes to the two parsed values. */
  lemma OsWordDecodes(c: Command)
    requires Version(c).Some? && Patch(c).Some?
    ensures OsWord(c) < TWO32
    ensures VersionOf(OsWord(c)) == Version(c).value && PatchOf(OsWord(c)) == Patch(c).value
  {
    ParsedFits(c);
    WordRoundTrip(Version(c).value, Patch(c).value);
  }

  // ----- pack, then unpack

  lemma Sections012(c: Command)
    requires 0 <= c.headerVersion < 3
    ensures var s := Sections(c);
            && s[0] == c.kernel && s[1] == c.ramdisk && s[2] == c.second
            && (c.headerVersion > 0 ==> |s| > 3 && s[3] == c.recoveryDtbo)
            && (c.headerVersion == 2 ==> |s| > 4 && s[4] == c.dtb)
  {
  }

  /** The sections of a version 0, 1 or 2 image lie where the unpacker computes them to be. */
  predicate SectionsLie(file: bytes, c: Command, p: nat)
    requires p > 0
  {
    var n1 := 1 + Pages(Size(c.kernel), p);
    var n2 := n1 + Pages(Size(c.ramdisk), p);
    var n3 := n2 + Pages(Size(c.second), p);
    && Slice(file, p, Size(c.kernel)) == Content(c.kernel)
    && Slice(file, PageOffset(p, n1), Size(c.ramdisk)) == Content(c.ramdisk)
    && Slice(file, PageOffset(p, n2), Size(c.second)) == Content(c.second)
    && (c.headerVersion > 0 ==> Slice(file, PageOffset(p, n3), Size(c.recoveryDtbo)) == Content(c.recoveryDtbo))
    && (c.headerVersion == 2 ==>
          Slice(file, PageOffset(p, n3 + Pages(Size(c.recoveryDtbo), p)), Size(c.dtb)) == Content(c.dtb))
  }

  lemma FirstPage(p: nat)
    ensures PageOffset(p, 1) == p
  {
  }

  lemma SectionAfterHeader(header: bytes, sections: seq<Option<bytes>>, page: nat, k: nat, i: nat)
    requires page == Pow2(k) && |header| == page && i < |sections|
    ensures var file := WriteAll(header, sections, page);
            && Slice(file, PageOffset(page, 1 + PagesBefore(sections, i, page)), Size(sections[i]))
               == Content(sections[i])
    ensures PagesBefore(sections, i + 1, page) == PagesBefore(sections, i, page) + Pages(Size(sections[i]), page)
  {
    hide WriteAll, PagesBefore, Pages, Slice, Pow2, PageOffset;
    SectionSlice(header, sections, page, k, 1, i);
  }

  /** How many pages the sections before each section take. */
  lemma PagesBeforeEach(s: seq<Option<bytes>>, p: nat)
    requires p > 0 && |s| >= 3
    ensures PagesBefore(s, 0, p) == 0
    ensures PagesBefore(s, 1, p) == Pages(Size(s[0]), p)
    ensures PagesBefore(s, 2, p) == PagesBefore(s, 1, p) + Pages(Size(s[1]), p)
    ensures PagesBefore(s, 3, p) == PagesBefore(s, 2, p) + Pages(Size(s[2]), p)
    ensures |s| > 3 ==> PagesBefore(s, 4, p) == PagesBefore(s, 3, p) + Pages(Size(s[3]), p)
  {
    NoPagesBefore(s, p);
    hide PagesBefore, Pages;
    PagesBeforeNext(s, 0, p);
    PagesBeforeNext(s, 1, p);
    PagesBeforeNext(s, 2, p);
    if |s| > 3 { PagesBeforeNext(s, 3, p); }
  }

  /** Every section lies where the pages before it end, behind one page of header. */
  ghost predicate EachSectionAt(file: bytes, s: seq<Option<bytes>>, p: nat)
    requires p > 0
  {
    forall i :: 0 <= i < |s| ==> SectionIsAt(file, s, p, i)
  }

  predicate SectionIsAt(file: bytes, s: seq<Option<bytes>>, p: nat, i: nat)
    requires p > 0 && i < |s|
  {
    Slice(file, PageOffset(p, 1 + PagesBefore(s, i, p)), Size(s[i])) == Content(s[i])
  }

  lemma SlicesAfterHeader(header: bytes, s: seq<Option<bytes>>, p: nat, k: nat)
    requires p == Pow2(k) && |header| == p
    ensures EachSectionAt(WriteAll(header, s, p), s, p)
  {
    hide WriteAll, PagesBefore, Pages, Slice, Pow2, PageOffset, Size;
    forall i | 0 <= i < |s| ensures SectionIsAt(WriteAll(header, s, p), s, p, i) {
      SectionAfterHeader(header, s, p, k, i);
    }
  }

  lemma SlicesOf012(header: bytes, c: Command, k: nat)
    requires 0 <= c.headerVersion < 3 && c.pagesize == Pow2(k) && |header| == c.pagesize
    ensures SectionsLie(WriteAll(header, Sections(c), c.pagesize), c, c.pagesize)
  {
    hide WriteAll, Pow2, Sections, SectionsLie, EachSectionAt;
    SlicesAfterHeader(header, Sections(c), c.pagesize, k);
    SectionsLieIntro(WriteAll(header, Sections(c), c.pagesize), c, c.pagesize);
  }

  lemma SectionsLieIntro(file: bytes, c: Command, p: nat)
    requires p > 0 && 0 <= c.headerVersion < 3
    requires EachSectionAt(file, Sections(c), p)
    ensures SectionsLie(file, c, p)
  {
    FirstPage(p);
    Sections012(c);
    PagesBeforeEach(Sections(c), p);
    hide PagesBefore, Pages, Slice, Sections, Pow2, PageOffset, Size;
    var s := Sections(c);
    assert SectionIsAt(file, s, p, 0) && SectionIsAt(file, s, p, 1) && SectionIsAt(file, s, p, 2);
    assert c.headerVersion > 0 ==> SectionIsAt(file, s, p, 3);
    assert c.headerVersion == 2 ==> SectionIsAt(file, s, p, 4);
  }

  lemma NoPagesBefore(sections: seq<Option<bytes>>, page: nat)
    requires page > 0
    ensures PagesBefore(sections, 0, page) == 0
  {
  }

  /** The text fields of the header read back as the texts. */
  lemma TextsOf012(c: Command, sha: bytes -> bytes, file: bytes)
    requires PlainCommand(c) && CheckArguments(c).Ok? && ShaInput(c).Some? && c.headerVersion < 3
    requires Packable(FieldsOf(c, sha)) && Base2(FieldsOf(c, sha)) <= file
    ensures |file| >= 1632
    ensures Text(file[48..64]) == Some(c.board)
    ensures if CutsBetween(c.cmdline, 511) then
              Text(file[64..576]) == Some(Head(c.cmdline)) && Text(file[608..1632]) == Some(Tail(c.cmdline))
            else Text(file[64..576]) == None
  {
    hide PackableWords, Base2, PackS, FirstCmdline, ExtraCmdline, Text, Head, Tail, Encode, CutsBetween;
    ReadBase2(FieldsOf(c, sha), file);
    CmdlineFields(c.cmdline);
    BoardField(c.board);
  }

  lemma BoardField(s: string)
    requires Plain(s) && |Encode(s)| <= 15
    ensures Text(PackS(16, Asciiz(s))) == Some(s)
  {
    AsciizField(16, s);
  }

  lemma PackedAddresses(c: Command, sha: bytes -> bytes)
    requires PlainCommand(c) && CheckArguments(c).Ok? && ShaInput(c).Some? && Packable(FieldsOf(c, sha))
    ensures AddressesAreNat(c)
  {
  }

  /** The split of the command line in versions 0 to 2 cuts no character. */
  predicate CmdlineIsWhole(c: Command) {
    c.headerVersion < 3 ==> CutsBetween(c.cmdline, 511)
  }

  /** All header fields read back, at the offsets of versions 0 to 2. */
  ghost predicate HeaderReads012(file: bytes, f: Fields) {
    && 0 <= f.version <= 2 && |file| >= HeaderEnd(f.version) && file[..8] == Magic()
    && BootHeader.Word(file, 8) == f.kernelSize && BootHeader.Word(file, 12) == f.kernelAddr
    && BootHeader.Word(file, 16) == f.ramdiskSize && BootHeader.Word(file, 20) == f.ramdiskAddr
    && BootHeader.Word(file, 24) == f.secondSize && BootHeader.Word(file, 28) == f.secondAddr
    && BootHeader.Word(file, 32) == f.tagsAddr && BootHeader.Word(file, 36) == f.pageSize
    && BootHeader.Word(file, 40) == f.version && BootHeader.Word(file, 44) == f.osWord
    && (f.version >= 1 ==> BootHeader.Word(file, 1632) == f.dtboSize && Long(file, 1636) == f.dtboOffset)
    && (f.version >= 1 ==> BootHeader.Word(file, 1644) == if f.version == 1 then 1648 else 1660)
    && (f.version == 2 ==> BootHeader.Word(file, 1648) == f.dtbSize && Long(file, 1652) == f.dtbAddr)
  }

  lemma ReadHeader012(f: Fields, file: bytes)
    requires Packable(f) && Render(f) <= file
    ensures HeaderReads012(file, f) && Base2(f) <= file && PackableWords(f)
  {
    hide Render, Base1, Base2, BootHeader.Word, Long, At, Magic;
    ReadRendered(f, file);
    ReadBase2(f, file);
    ReadBase1(f, file);
    MagicAt(file);
  }

  lemma UnpackPacked012(c: Command, sha: bytes -> bytes)
    requires PlainCommand(c) && Pack(c, sha).Ok? && c.headerVersion < 3
    ensures 0 <= c.headerVersion && AddressesAreNat(c) && CheckArguments(c).Ok?
    ensures Unpack(Pack(c, sha).value) == if CmdlineIsWhole(c) then Ok(InfoOf(c)) else Err(UnicodeError)
  {
    hide Render, Sections, WriteAll, Pad, Pow2, HeaderReads012, Unpack, InfoOf, FieldsOf, AddressesAreNat, Base2,
      CmdlineIsWhole, SectionsLie, CutsBetween, PackableWords;
    var f := FieldsOf(c, sha);
    AcceptedArguments(c);
    var k := PageSizes(c.pagesize);
    var header := Pad(Render(f), c.pagesize);
    HeaderPage(Render(f), c.pagesize, k);
    PackedAddresses(c, sha);
    VersionIsNat(c, sha);
    SlicesOf012(header, c, k);
    PrefixStays(header, Sections(c), c.pagesize);
    var file := Pack(c, sha).value;
    ReadHeader012(f, file);
    TextsOf012(c, sha, file);
    UnpackReads012(c, sha, file);
  }

  lemma VersionIsNat(c: Command, sha: bytes -> bytes)
    requires PlainCommand(c) && CheckArguments(c).Ok? && ShaInput(c).Some? && Packable(FieldsOf(c, sha))
    ensures 0 <= c.headerVersion <= 2
  {
  }

  /** What is read at the fixed offsets makes up the info object. */
  lemma UnpackReads012(c: Command, sha: bytes -> bytes, file: bytes)
    requires PlainCommand(c) && CheckArguments(c).Ok? && ShaInput(c).Some? && 0 <= c.headerVersion < 3
             && AddressesAreNat(c)
    requires HeaderReads012(file, FieldsOf(c, sha)) && IsPageSize(c.pagesize) && SectionsLie(file, c, c.pagesize)
    requires |file| >= 1632 && Text(file[48..64]) == Some(c.board)
    requires if CutsBetween(c.cmdline, 511) then
               Text(file[64..576]) == Some(Head(c.cmdline)) && Text(file[608..1632]) == Some(Tail(c.cmdline))
             else Text(file[64..576]) == None
    ensures Unpack(file) == if CmdlineIsWhole(c) then Ok(InfoOf(c)) else Err(UnicodeError)
  {
    hide Pages, PageOffset, Slice, Text, Head, Tail, Encode, OsWord, VersionOf, PatchOf, CutsBetween, FormatOsVersion,
      FormatPatchLevel, BootHeader.Word, Long, Magic, Pow2, Version, Patch, CheckArguments, FirstCmdline, ExtraCmdline,
      Asciiz;
    AcceptedArguments(c);
    OsWordDecodes(c);
    ParsedFits(c);
  }

  lemma MagicAt(file: bytes)
    requires At(file, 0, Magic())
    ensures |file| >= 8 && file[..8] == Magic()
  {
  }

  lemma SlicesOf34(header: bytes, c: Command)
    requires c.headerVersion >= 3 && |header| == 4096 * 1
    ensures var file := WriteAll(header, Sections(c), 4096);
            && Slice(file, 4096, Size(c.kernel)) == Content(c.kernel)
            && Slice(file, 4096 * (1 + Pages(Size(c.kernel), 4096)), Size(c.ramdisk)) == Content(c.ramdisk)
  {
    Pow2Values();
    Pow2Add(11, 1);
    assert Pow2(12) == 4096;
    var s := Sections(c);
    assert s[0] == c.kernel && s[1] == c.ramdisk;
    hide WriteAll, PagesBefore, Pages, Slice, Sections, Pow2;
    NoPagesBefore(s, 4096);
    SectionSlice(header, s, 4096, 12, 1, 0);
    SectionSlice(header, s, 4096, 12, 1, 1);
  }

  lemma CmdlineField3(s: string)
    requires Plain(s) && |Encode(s)| <= 1535
    ensures Text(PackS(1536, Asciiz(s))) == Some(s)
  {
    AsciizField(1536, s);
  }

  lemma UnpackPacked34(c: Command, sha: bytes -> bytes)
    requires PlainCommand(c) && Pack(c, sha).Ok? && c.headerVersion >= 3
    ensures c.headerVersion <= 4 && AddressesAreNat(c) && CheckArguments(c).Ok?
    ensures Unpack(Pack(c, sha).value) == Ok(InfoOf(c))
  {
    hide Render3, Sections, WriteAll, Pad, Pow2, Pages, Slice, Text, OsWord, VersionOf, PatchOf, FormatOsVersion,
      FormatPatchLevel, BootHeader.Word, Magic;
    var f := Fields3Of(c);
    var header := Pad(Render3(f), 4096);
    FirstPage4096(Render3(f));
    SlicesOf34(header, c);
    PrefixStays(header, Sections(c), 4096);
    var file := Pack(c, sha).value;
    assert Render3(f) <= file;
    ReadRendered3(f, file);
    CmdlineField3(c.cmdline);
    OsWordDecodes(c);
    ParsedFits(c);
    MagicAt(file);
  }

  lemma FirstPage4096(header: bytes)
    requires 0 < |header| <= 4096
    ensures |Pad(header, 4096)| == 4096 * 1 && header <= Pad(header, 4096)
  {
    Pow2Values();
    Pow2Add(11, 1);
    HeaderPage(header, 4096, 12);
  }

  /** Unpacking what was packed returns every field and every section, exactly when no character of the
      command line was cut. */
  lemma UnpackReturnsWhatWasPacked(c: Command, sha: bytes -> bytes)
    requires PlainCommand(c) && Pack(c, sha).Ok?
    ensures 0 <= c.headerVersion <= 4 && AddressesAreNat(c) && CheckArguments(c).Ok?
    ensures Unpack(Pack(c, sha).value) == if CmdlineIsWhole(c) then Ok(InfoOf(c)) else Err(UnicodeError)
  {
    hide Pack, Unpack, InfoOf, AddressesAreNat, CheckArguments;
    if c.headerVersion < 3 { UnpackPacked012(c, sha); } else { UnpackPacked34(c, sha); }
  }

  // ----- unpack, then pack

  /** The command line that the info object of a packed image formats to. */
  function Repacked(c: Command): Command
    requires PlainCommand(c) && CheckArguments(c).Ok? && 0 <= c.headerVersion <= 4 && AddressesAreNat(c)
  {
    Format(InfoOf(c))
  }

  lemma PlainJoin(s: string)
    ensures Head(s) + Tail(s) == s
  {
  }

  /** Everything that decides the image, apart from the offset of an empty recovery DTBO, is the same. */
  lemma SameArguments(c: Command)
    requires PlainCommand(c) && CheckArguments(c).Ok? && 0 <= c.headerVersion <= 4 && AddressesAreNat(c)
    ensures var d := Repacked(c);
            && PlainCommand(d) && CheckArguments(d).Ok? && d.headerVersion == c.headerVersion && d.cmdline == c.cmdline
            && Version(d) == Version(c) && Patch(d) == Patch(c)
            && Content(d.kernel) == Content(c.kernel) && Content(d.ramdisk) == Content(c.ramdisk)
  {
    hide FormatOsVersion, FormatPatchLevel, ParseOsVersion, ParsePatchLevel, Pow2, Head, Tail;
    PlainJoin(c.cmdline);
    ParsedFits(c);
    VersionComesBack(c);
    var d := Repacked(c);
  }

  lemma VersionComesBack(c: Command)
    requires Version(c).Some? && Patch(c).Some?
    ensures Version(c).value < Pow2(21) && Patch(c).value < Pow2(11)
    ensures var s := FormatOsVersion(Version(c).value);
            (match s case None => Some(0) case Some(t) => ParseOsVersion(t)) == Version(c)
    ensures var s := FormatPatchLevel(Patch(c).value);
            (match s case None => Some(0) case Some(t) => ParsePatchLevel(t)) == Patch(c)
  {
    hide ParseOsVersion, ParsePatchLevel, Pow2;
    ParsedFits(c);
    if Version(c).value > 0 { OsVersionRoundTrip(Version(c).value); }
    if Patch(c).value > 0 { PatchLevelRoundTrip(Patch(c).value); }
  }

  /** The one thing that does not survive: an empty recovery DTBO has an offset, a missing one has none. */
  predicate EmptyDtbo(c: Command) {
    1 <= c.headerVersion <= 2 && c.recoveryDtbo == Some([])
  }

  ghost predicate SameContents(a: seq<Option<bytes>>, b: seq<Option<bytes>>) {
    |a| == |b| && forall i :: 0 <= i < |a| ==> Content(a[i]) == Content(b[i])
  }

  lemma SameFiles(c: Command)
    requires PlainCommand(c) && CheckArguments(c).Ok? && 0 <= c.headerVersion <= 4 && AddressesAreNat(c)
    requires c.headerVersion >= 3 ==> c.second.None?
    ensures var d := Repacked(c);
            && SameContents(Sections(d), Sections(c))
            && Content(d.second) == Content(c.second)
            && (c.headerVersion > 0 && c.headerVersion < 3 ==> Content(d.recoveryDtbo) == Content(c.recoveryDtbo))
            && (c.headerVersion == 2 ==> Content(d.dtb) == Content(c.dtb))
  {
    hide FormatOsVersion, FormatPatchLevel, CheckArguments, AddressesAreNat, Head, Tail, Version, Patch;
    ContentOfNonEmpty(c.second);
    ContentOfNonEmpty(c.recoveryDtbo);
    ContentOfNonEmpty(c.dtb);
  }

  lemma ContentOfNonEmpty(s: Option<bytes>)
    ensures Content(NonEmpty(s)) == Content(s)
  {
  }

  lemma {:induction false} SameSha(a: seq<Option<bytes>>, b: seq<Option<bytes>>)
    requires SameContents(a, b) && SizesFit(a)
    ensures SizesFit(b) && ShaOf(a) == ShaOf(b)
  {
    if a != [] {
      SameSha(a[1..], b[1..]);
      assert Content(a[0]) == Content(b[0]);
    }
  }

  lemma SameShaInput(c: Command, d: Command)
    requires c.headerVersion == d.headerVersion && 0 <= c.headerVersion <= 2 && ShaInput(c).Some?
    requires SameContents(Sections(d), Sections(c))
    ensures ShaInput(d) == ShaInput(c)
  {
    assert ShaFiles(c) == Sections(c) && ShaFiles(d) == Sections(d);
    SameSha(ShaFiles(c), ShaFiles(d));
  }

  /** The header fields are the same, except for the offset of an empty recovery DTBO. */
  lemma SameFields(c: Command, sha: bytes -> bytes)
    requires PlainCommand(c) && Pack(c, sha).Ok? && c.headerVersion < 3
    ensures 0 <= c.headerVersion && AddressesAreNat(c)
    ensures var d := Repacked(c);
            && PlainCommand(d) && CheckArguments(d).Ok? && ShaInput(d).Some? && d.headerVersion == c.headerVersion
            && FieldsOf(d, sha) == if EmptyDtbo(c) then FieldsOf(c, sha).(dtboOffset := 0) else FieldsOf(c, sha)
  {
    hide Render, Sections, WriteAll, Pad, Pow2, Pages, OsWord, FirstCmdline, ExtraCmdline, Asciiz, ShaInput,
      FormatOsVersion, FormatPatchLevel, Version, Patch, InfoOf, RecoveryDtboOffset;
    PackedAddresses(c, sha);
    var d := Repacked(c);
    SameArguments(c);
    SameFiles(c);
    SameShaInput(c, d);
    RepackedAddresses(c);
    SameOsWord(c, d);
    SameDtboOffset(c, d);
  }

  lemma SameOsWord(c: Command, d: Command)
    requires Version(c).Some? && Patch(c).Some? && Version(d) == Version(c) && Patch(d) == Patch(c)
    ensures OsWord(d) == OsWord(c)
  {
  }

  lemma SameDtboOffset(c: Command, d: Command)
    requires c.pagesize > 0 && d.pagesize == c.pagesize
    requires Content(d.kernel) == Content(c.kernel) && Content(d.ramdisk) == Content(c.ramdisk)
    requires Content(d.second) == Content(c.second)
    ensures RecoveryDtboOffset(d) == RecoveryDtboOffset(c)
  {
  }

  lemma RepackedAddresses(c: Command)
    requires PlainCommand(c) && CheckArguments(c).Ok? && 0 <= c.headerVersion < 3 && AddressesAreNat(c)
    ensures var d := Repacked(c);
            && d.base == 0 && d.kernelOffset == c.base + c.kernelOffset && d.tagsOffset == c.base + c.tagsOffset
            && (Size(c.ramdisk) > 0 ==> d.ramdiskOffset == c.base + c.ramdiskOffset)
            && (Size(c.second) > 0 ==> d.secondOffset == c.base + c.secondOffset)
            && (c.headerVersion == 2 ==> d.dtbOffset == c.base + c.dtbOffset)
            && d.pagesize == c.pagesize && d.board == c.board
            && d.recoveryDtbo == (if c.headerVersion > 0 then NonEmpty(c.recoveryDtbo) else None)
  {
    hide FormatOsVersion, FormatPatchLevel, CheckArguments, Head, Tail, Version, Patch;
  }

  /** The texts that are formatted can be passed as values. */
  predicate TextsAreValues(c: Command) {
    IsValue(MAIN, c.cmdline) && (c.headerVersion <= 2 ==> IsValue(MAIN, c.board))
  }

  /** Packing the unpacked image again gives the same bytes exactly when it has no empty recovery DTBO and
      its texts do not look like options. */
  lemma RepackIsIdentity(c: Command, sha: bytes -> bytes)
    requires PlainCommand(c) && Pack(c, sha).Ok?
    ensures 0 <= c.headerVersion <= 4 && AddressesAreNat(c) && CheckArguments(c).Ok?
    ensures Unpack(Pack(c, sha).value) == if CmdlineIsWhole(c) then Ok(InfoOf(c)) else Err(UnicodeError)
    ensures PlainCommand(Format(InfoOf(c)))
    ensures PackFormatted(InfoOf(c), sha) == Pack(c, sha) <==> !EmptyDtbo(c) && TextsAreValues(c)
  {
    hide CheckArguments, Version, Patch, FormatOsVersion, FormatPatchLevel, Pack, Unpack, IsValue, EmptyDtbo;
    UnpackReturnsWhatWasPacked(c, sha);
    RepackedTexts(c);
    if c.headerVersion < 3 { Repack012(c, sha); } else { Repack34(c, sha); NoEmptyDtbo(c); EmptyTextIsValue(); }
  }

  /** Without leading dashes only the empty recovery DTBO is left. */
  lemma RepackWithoutDashes(c: Command, sha: bytes -> bytes)
    requires PlainCommand(c) && Pack(c, sha).Ok? && !Dashed(c.cmdline) && !Dashed(c.board)
    ensures 0 <= c.headerVersion <= 4 && AddressesAreNat(c) && CheckArguments(c).Ok? && PlainCommand(Format(InfoOf(c)))
    ensures PackFormatted(InfoOf(c), sha) == Pack(c, sha) <==> !EmptyDtbo(c)
  {
    hide Pack, PackFormatted, Format, InfoOf, CheckArguments, AddressesAreNat, EmptyDtbo;
    RepackIsIdentity(c, sha);
  }

  lemma RepackedTexts(c: Command)
    requires PlainCommand(c) && CheckArguments(c).Ok? && 0 <= c.headerVersion <= 4 && AddressesAreNat(c)
    ensures var d := Repacked(c);
            PlainCommand(d) && d.cmdline == c.cmdline && d.board == if c.headerVersion <= 2 then c.board else ""
  {
    SameArguments(c);
  }

  lemma NoEmptyDtbo(c: Command)
    requires c.headerVersion >= 3
    ensures !EmptyDtbo(c)
  {
  }

  lemma EmptyTextIsValue()
    ensures IsValue(MAIN, "")
  {
  }

  lemma Repack34(c: Command, sha: bytes -> bytes)
    requires PlainCommand(c) && Pack(c, sha).Ok? && 3 <= c.headerVersion <= 4 && AddressesAreNat(c)
    ensures PlainCommand(Repacked(c)) && Pack(Repacked(c), sha) == Pack(c, sha)
  {
    hide Render3, Sections, WriteAll, Pad, Pow2, OsWord, Asciiz, InfoOf, Version, Patch;
    var d := Repacked(c);
    SameArguments(c);
    SameFiles(c);
    SameOsWord(c, d);
    Defaults(c);
    assert Fields3Of(d) == Fields3Of(c);
    FirstPage4096(Render3(Fields3Of(c)));
    SameSections(Pad(Render3(Fields3Of(c)), 4096), c, d, 4096);
  }

  lemma Defaults(c: Command)
    requires PlainCommand(c) && CheckArguments(c).Ok? && 3 <= c.headerVersion <= 4 && AddressesAreNat(c)
    ensures Repacked(c).second.None?
  {
  }

  lemma SameSections(header: bytes, c: Command, d: Command, page: nat)
    requires IsPageSize(page) && |header| == page * 1 && SameContents(Sections(d), Sections(c))
    ensures WriteAll(header, Sections(d), page) == WriteAll(header, Sections(c), page)
  {
    hide Sections, WriteAll;
    var k := PageSizes(page);
    SameContentSameFile(header, Sections(d), Sections(c), page, k, 1);
  }

  lemma Repack012(c: Command, sha: bytes -> bytes)
    requires PlainCommand(c) && Pack(c, sha).Ok? && 0 <= c.headerVersion <= 2 && AddressesAreNat(c)
    ensures PlainCommand(Repacked(c))
    ensures Pack(Repacked(c), sha) == Pack(c, sha) <==> !EmptyDtbo(c)
  {
    hide Render, Sections, WriteAll, Pad, Pow2, Pages, InfoOf, CheckArguments, ShaInput, FieldsOf, BootHeader.Word,
      Long, PlainCommand, RecoveryDtboOffset;
    var d := Repacked(c);
    SameFields(c, sha);
    SameFiles(c);
    RepackedAddresses(c);
    PageIsPositive(c);
    var f, g := FieldsOf(c, sha), FieldsOf(d, sha);
    assert Packable(g);
    var k := PageSizes(c.pagesize);
    HeaderPage(Render(f), c.pagesize, k);
    HeaderPage(Render(g), c.pagesize, k);
    SameSections(Pad(Render(g), c.pagesize), c, d, c.pagesize);
    assert Pack(d, sha) == Ok(WriteAll(Pad(Render(g), c.pagesize), Sections(c), c.pagesize));
    if EmptyDtbo(c) {
      PrefixStays(Pad(Render(f), c.pagesize), Sections(c), c.pagesize);
      PrefixStays(Pad(Render(g), c.pagesize), Sections(c), c.pagesize);
      ReadRendered(f, Pack(c, sha).value);
      ReadRendered(g, Pack(d, sha).value);
      DtboOffsetIsPositive(c, sha);
      assert g.dtboOffset == 0 && g.version >= 1;
      assert Long(Pack(d, sha).value, 1636) == 0;
      assert Long(Pack(c, sha).value, 1636) == f.dtboOffset;
    }
  }

  lemma PageIsPositive(c: Command)
    requires PlainCommand(c) && CheckArguments(c).Ok?
    ensures IsPageSize(c.pagesize)
  {
  }

  lemma DtboOffsetIsPositive(c: Command, sha: bytes -> bytes)
    requires PlainCommand(c) && CheckArguments(c).Ok? && ShaInput(c).Some? && EmptyDtbo(c)
    ensures FieldsOf(c, sha).dtboOffset > 0 && FieldsOf(c, sha).version >= 1
  {
    hide OsWord, FirstCmdline, ExtraCmdline, Pages, Asciiz;
    var p: nat := c.pagesize;
    MulMono(p, 1, 1 + Pages(Size(c.kernel), p) + Pages(Size(c.ramdisk), p) + Pages(Size(c.second), p));
    assert RecoveryDtboOffset(c) >= p * 1;
  }

  // ----- images exist

  /** A kernel and nothing else. */
  function KernelOnly(version: int, kernel: bytes): Command {
    Command(version, Some(kernel), None, None, None, None, "", 0, 0, 0, 0, 0, 0, None, None, "", 4096)
  }

  /** Every version but 2, which needs a dtb, makes an image of a kernel alone. */
  lemma KernelOnlyIsAccepted(version: int, kernel: bytes, sha: bytes -> bytes)
    requires |kernel| < TWO32
    ensures PlainCommand(KernelOnly(version, kernel))
    ensures Pack(KernelOnly(version, kernel), sha).Ok? <==> 0 <= version <= 4 && version != 2
  {
    hide Render, Render3, WriteAll, Pad, OsVersion.Word, ShaOf;
    Pow2Values();
    WordRoundTrip(0, 0);
    KernelSizesFit(version, kernel);
  }

  lemma KernelSizesFit(version: int, kernel: bytes)
    requires |kernel| < TWO32
    ensures SizesFit(ShaFiles(KernelOnly(version, kernel)))
  {
  }

  /** A text argparse refuses: the image is made from `--cmdline=-v` and unpacked, and the formatted
      arguments do not pack. */
  lemma DashedCmdlineIsLost(kernel: bytes, sha: bytes -> bytes)
    requires |kernel| < TWO32
    ensures var c := KernelOnly(0, kernel).(cmdline := "-v");
            && PlainCommand(c) && Pack(c, sha).Ok? && AddressesAreNat(c) && !EmptyDtbo(c)
            && Unpack(Pack(c, sha).value) == Ok(InfoOf(c)) && PlainCommand(Format(InfoOf(c)))
            && PackFormatted(InfoOf(c), sha) == Err(ArgumentError)
  {
    var c := KernelOnly(0, kernel).(cmdline := "-v");
    hide Render, WriteAll, Pad, OsVersion.Word, ShaOf, IsValue, Unpack, InfoOf, Format;
    Pow2Values();
    WordRoundTrip(0, 0);
    KernelSizesFit(0, kernel);
    assert ShaFiles(c) == ShaFiles(KernelOnly(0, kernel));
    ShortExamples();
    RepackIsIdentity(c, sha);
    RepackedTexts(c);
  }

  /** An empty recovery DTBO is accepted by both versions that know the field, and does not come back. */
  lemma EmptyDtboIsLost(version: int, kernel: bytes, sha: bytes -> bytes)
    requires |kernel| < TWO32 && 1 <= version <= 2
    ensures var c := KernelOnly(version, kernel).(recoveryDtbo := Some([]), dtb := Some([0]));
            && PlainCommand(c) && Pack(c, sha).Ok? && AddressesAreNat(c) && EmptyDtbo(c) && TextsAreValues(c)
            && Unpack(Pack(c, sha).value) == Ok(InfoOf(c)) && PlainCommand(Format(InfoOf(c)))
            && PackFormatted(InfoOf(c), sha) != Pack(c, sha)
  {
    var c := KernelOnly(version, kernel).(recoveryDtbo := Some([]), dtb := Some([0]));
    hide Render, WriteAll, Pad, OsVersion.Word, ShaOf, Unpack, InfoOf, Format, PackFormatted;
    Pow2Values();
    WordRoundTrip(0, 0);
    RepackIsIdentity(c, sha);
  }

  /** A command line of 510 letters and one character of two bytes is packed in versions 0 and 1, and unpacking the
      image raises. */
  lemma CutCharacterIsLost(version: int, kernel: bytes, sha: bytes -> bytes)
    requires |kernel| < TWO32 && 0 <= version <= 1
    ensures var c := KernelOnly(version, kernel).(cmdline := seq(510, _ => 'a') + [0xE9 as char]);
            PlainCommand(c) && Pack(c, sha).Ok? && Unpack(Pack(c, sha).value) == Err(UnicodeError)
  {
    var c := KernelOnly(version, kernel).(cmdline := seq(510, _ => 'a') + [0xE9 as char]);
    hide Render, WriteAll, Pad, OsVersion.Word, ShaOf, Unpack, InfoOf, Format, PackFormatted, Encode, CutsBetween,
      ExtraCmdline, FirstCmdline;
    Pow2Values();
    WordRoundTrip(0, 0);
    KernelSizesFit(version, kernel);
    assert ShaFiles(c) == ShaFiles(KernelOnly(version, kernel));
    CutCharacter();
    UnpackReturnsWhatWasPacked(c, sha);
  }

  lemma CutCharacter()
    ensures var s := seq(510, _ => 'a') + [0xE9 as char];
            Plain(s) && |Encode(s)| == 512 && !CutsBetween(s, 511)
  {
    var a: string := seq(510, _ => 'a');
    var s := a + [0xE9 as char];
    AsciiText(a);
    EncodeJoin(a, [0xE9 as char]);
    assert Encode([0xE9 as char]) == [0xC3, 0xA9];
    assert Encode(s)[511] == 0xA9;
  }
}
