/** What unpack_bootimg takes from any file at all, packed by mkbootimg or not, at the offsets of the format itself. */
module UnpackedBytes {
  import opened Bits
  import opened Bytes
  import opened Utf8
  import opened Paging
  import opened Format
  import opened Decimals
  import opened OsVersion
  import opened BootHeader
  import opened BootImage
  import opened BootBytes
  import opened VendorTable
  import opened VendorBoot

  /** The text in front of the first NUL of a field. */
  ghost predicate Shows(field: bytes, t: string) {
    match Decode(field)
    case None => false
    case Some(s) => t <= s && '\0' !in t && (|t| == |s| || s[|t|] == '\0')
  }

  /** `size` bytes from `pos` on, or as many as the file has there. */
  ghost predicate Taken(file: bytes, pos: nat, size: nat, b: bytes) {
    && |b| == (if |file| <= pos then 0 else if |file| < pos + size then |file| - pos else size)
    && forall i :: 0 <= i < |b| ==> b[i] == file[pos + i]
  }

  /** A part that is skipped when it has no bytes. */
  ghost predicate MayBeTaken(file: bytes, pos: nat, size: nat, b: Option<bytes>) {
    if size == 0 then b == None else b.Some? && Taken(file, pos, size, b.value)
  }

  /** The lower eleven bits are year and month, the others the version; neither is shown when it is 0. */
  ghost predicate ShowsVersions(word: nat, version: Option<string>, patch: Option<string>) {
    var v, p := word / 2048, word % 2048;
    && (if v == 0 then version == None else version.Some? && ParseOsVersion(version.value) == Some(v))
    && (if p == 0 then patch == None else patch.Some? && ShowsMonth(p, patch.value))
  }

  ghost predicate ShowsMonth(p: nat, s: string) {
    && |s| == 7 && Digits(s[..4]) && Digits(s[5..]) && Value(s[..4]) == 2000 + p / 16
    && s[4] == '-' && Value(s[5..]) == p % 16
    && (1 <= p % 16 <= 12 ==> ParsePatchLevel(s) == Some(p))
  }

  // ----- boot images

  /** The header is complete. */
  ghost predicate Complete(file: bytes) {
    && |file| >= 44 && file[..8] == [0x41, 0x4E, 0x44, 0x52, 0x4F, 0x49, 0x44, 0x21]
    && |file| >= HeaderLength(Little(file[40..44]))
  }

  /** What unpack_boot_image takes: a page size is needed up to version 2 only, and versions above 4 are read like 4. */
  ghost predicate Readable(file: bytes) {
    && Complete(file)
    && if Little(file[40..44]) <= 2 then
         && Little(file[36..40]) > 0
         && Decode(file[48..64]).Some? && Decode(file[64..576]).Some? && Decode(file[608..1632]).Some?
       else Decode(file[44..1580]).Some?
  }

  lemma WordIsLittle(file: bytes, off: nat)
    requires off + 4 <= |file|
    ensures BootHeader.Word(file, off) == Little(file[off..off + 4])
  {
    LittleIs32(file[off..off + 4]);
  }

  lemma LongIsLittle(file: bytes, off: nat)
    requires off + 8 <= |file|
    ensures Long(file, off) == Little(file[off..off + 8])
  {
    LittleIs64(file[off..off + 8]);
  }

  lemma MagicIs()
    ensures Magic() == [0x41, 0x4E, 0x44, 0x52, 0x4F, 0x49, 0x44, 0x21]
  {
  }

  lemma UnpacksIff(file: bytes)
    ensures Unpack(file).Ok? <==> Readable(file)
  {
    hide BootHeader.Word, Long, Little, Decode, Slice, Pages, FormatOsVersion, FormatPatchLevel, Info012, Magic;
    MagicIs();
    if |file| >= 44 {
      WordIsLittle(file, 36);
      WordIsLittle(file, 40);
    }
  }

  lemma {:induction false} CStrIs(s: string)
    ensures CStr(s) <= s && '\0' !in CStr(s) && (|CStr(s)| == |s| || s[|CStr(s)|] == '\0')
  {
    if s != [] && s[0] != '\0' { CStrIs(s[1..]); }
  }

  lemma TextIsShown(field: bytes)
    requires Text(field).Some?
    ensures Shows(field, Text(field).value)
  {
    CStrIs(Decode(field).value);
  }

  lemma SliceIsTaken(file: bytes, pos: nat, size: nat)
    ensures Taken(file, pos, size, Slice(file, pos, size))
    ensures MayBeTaken(file, pos, size, Extract(file, pos, size))
  {
  }

  lemma VersionsAreShown(word: nat)
    requires word < TWO32
    ensures VersionOf(word) < Pow2(21) && PatchOf(word) < Pow2(11)
    ensures ShowsVersions(word, FormatOsVersion(VersionOf(word)), FormatPatchLevel(PatchOf(word)))
  {
    hide ParseOsVersion, FormatOsVersion, FormatPatchLevel, ShowsMonth;
    DecodedFits(word);
    Halves(word);
    NoneForZero();
    if word / 2048 > 0 { OsVersionRoundTrip(word / 2048); SomeVersion(word / 2048); }
    if word % 2048 > 0 { MonthIsShown(word % 2048); }
  }

  lemma Halves(word: nat)
    ensures VersionOf(word) == word / 2048 && PatchOf(word) == word % 2048
  {
    Pow2Values();
    AndMask(word, 11);
  }

  lemma NoneForZero()
    ensures 0 < Pow2(21) && FormatOsVersion(0) == None && 0 < Pow2(11) && FormatPatchLevel(0) == None
  {
  }

  lemma SomeVersion(v: nat)
    requires 0 < v < Pow2(21)
    ensures FormatOsVersion(v).Some?
  {
  }

  lemma MonthIsShown(p: nat)
    requires 0 < p < Pow2(11)
    ensures FormatPatchLevel(p).Some? && ShowsMonth(p, FormatPatchLevel(p).value)
  {
    hide Value, Dec4, Dec2, ParsePatchLevel;
    Pow2Values();
    AndMask(p, 4);
    var y, m := p / 16, p % 16;
    var s := Dec4(y + 2000) + "-" + Dec2(m);
    assert FormatPatchLevel(p) == Some(s);
    assert s[..4] == Dec4(y + 2000) && s[5..] == Dec2(m);
    Dec4Value(y + 2000);
    Dec2Value(m);
    if 1 <= m <= 12 { PatchLevelRoundTrip(p); }
  }

  /** A part that begins on a page boundary, and where the next one begins. */
  lemma NextPart(page: nat, n: nat, size: nat)
    requires page > 0
    ensures PageEnd(page * n + size, page) == page * (n + Pages(size, page))
  {
    hide Pages;
    var q, r := size / page, size % page;
    QuotientNonneg(size, page);
    assert size == page * q + r;
    PagesValue(size, page, q, r);
    assert page * (n + q) == page * n + page * q && page * (n + (q + 1)) == page * n + page * q + page;
    ModUnique(page * n + size, page, n + q, r);
  }

  /** The header fields of versions 0 to 2. */
  ghost predicate ShowsFields(file: bytes, i: Info)
    requires Complete(file) && Little(file[40..44]) <= 2
  {
    var v := Little(file[40..44]);
    && i.headerVersion == v && i.kernelAddr == Little(file[12..16]) && i.ramdiskAddr == Little(file[20..24])
    && i.secondAddr == Little(file[28..32]) && i.tagsAddr == Little(file[32..36])
    && i.pageSize == Little(file[36..40]) && ShowsVersions(Little(file[44..48]), i.osVersion, i.osPatchLevel)
    && Shows(file[48..64], i.productName) && Shows(file[64..576], i.cmdline)
    && Shows(file[608..1632], i.extraCmdline) && i.signatureSize == 0
    && i.dtbAddr == if v == 2 then Little(file[1652..1660]) else 0
  }

  /** The sizes of the parts, and where the recovery DTBO is said to be. */
  datatype Sizes = Sizes(kernel: nat, ramdisk: nat, second: nat, at: nat, dtbo: nat, dtb: nat)

  ghost predicate PartsAt(file: bytes, k: nat, r: nat, s: nat, d: nat, z: Sizes, i: Info) {
    && Taken(file, k, z.kernel, i.kernel) && Taken(file, r, z.ramdisk, i.ramdisk)
    && MayBeTaken(file, s, z.second, i.second) && MayBeTaken(file, z.at, z.dtbo, i.recoveryDtbo)
    && MayBeTaken(file, d, z.dtb, i.dtb)
  }

  /** The parts behind the header: each on the page behind the one before, only the recovery DTBO where its offset says;
      the DTB counts the pages of the DTBO nevertheless. */
  ghost predicate ShowsParts(file: bytes, p: nat, z: Sizes, i: Info)
    requires p > 0
  {
    PartsAt(file, p, RamdiskStart(p, z), SecondStart(p, z), DtbStart(p, z), z, i)
  }

  function RamdiskStart(p: nat, z: Sizes): nat
    requires p > 0
  {
    PageEnd(p + z.kernel, p)
  }

  function SecondStart(p: nat, z: Sizes): nat
    requires p > 0
  {
    PageEnd(RamdiskStart(p, z) + z.ramdisk, p)
  }

  function DtbStart(p: nat, z: Sizes): nat
    requires p > 0
  {
    PageEnd(PageEnd(SecondStart(p, z) + z.second, p) + z.dtbo, p)
  }

  /** The sizes of the parts stand in the header. */
  ghost predicate ShowsFiles(file: bytes, i: Info)
    requires Complete(file) && Little(file[40..44]) <= 2 && Little(file[36..40]) > 0
  {
    var v := Little(file[40..44]);
    var z := Sizes(Little(file[8..12]), Little(file[16..20]), Little(file[24..28]),
                   if v > 0 then Little(file[1636..1644]) else 0, if v > 0 then Little(file[1632..1636]) else 0,
                   if v == 2 then Little(file[1648..1652]) else 0);
    ShowsParts(file, Little(file[36..40]), z, i)
  }

  lemma FieldsAreShown(file: bytes, version: nat)
    requires Readable(file) && version == Little(file[40..44]) <= 2
    ensures |file| >= HeaderEnd(version) && TextsDecode(file) && BootHeader.Word(file, 36) > 0
    ensures ShowsFields(file, Info012(file, version))
  {
    hide Little, BootHeader.Word, Long, Decode, Shows, ShowsVersions, FormatOsVersion, FormatPatchLevel, VersionOf,
      PatchOf, Slice, Pages;
    forall off | off in {12, 20, 28, 32, 36, 44} ensures BootHeader.Word(file, off) == Little(file[off..off + 4]) {
      WordIsLittle(file, off);
    }
    VersionsAreShown(BootHeader.Word(file, 44));
    TextIsShown(file[48..64]);
    TextIsShown(file[64..576]);
    TextIsShown(file[608..1632]);
    if version == 2 { LongIsLittle(file, 1652); }
  }

  lemma FilesAreShown(file: bytes, version: nat)
    requires Readable(file) && version == Little(file[40..44]) <= 2
    ensures |file| >= HeaderEnd(version) && TextsDecode(file) && BootHeader.Word(file, 36) > 0
    ensures ShowsFiles(file, Info012(file, version))
  {
    hide Little, BootHeader.Word, Long, Decode, Info012, ShowsParts;
    forall off | off in {8, 16, 24, 36} ensures BootHeader.Word(file, off) == Little(file[off..off + 4]) {
      WordIsLittle(file, off);
    }
    if version > 0 { WordIsLittle(file, 1632); LongIsLittle(file, 1636); }
    if version == 2 { WordIsLittle(file, 1648); }
    PartsOf012(file, version);
  }

  function SizesOf(file: bytes, version: nat): Sizes
    requires version <= 2 && |file| >= HeaderEnd(version)
  {
    Sizes(BootHeader.Word(file, 8), BootHeader.Word(file, 16), BootHeader.Word(file, 24),
          if version > 0 then Long(file, 1636) else 0, if version > 0 then BootHeader.Word(file, 1632) else 0,
          if version == 2 then BootHeader.Word(file, 1648) else 0)
  }

  lemma PartsOf012(file: bytes, version: nat)
    requires version <= 2 && |file| >= HeaderEnd(version) && TextsDecode(file) && BootHeader.Word(file, 36) > 0
    ensures ShowsParts(file, BootHeader.Word(file, 36), SizesOf(file, version), Info012(file, version))
  {
    hide BootHeader.Word, TextsDecode, Info012, SizesOf, HasPages, ShowsParts;
    PartsAreSlices(file, version);
    PagesAreParts(file, BootHeader.Word(file, 36), SizesOf(file, version), Info012(file, version));
  }

  /** The parts as unpack_boot_image counts pages. */
  function RamdiskPage(p: nat, z: Sizes): nat
    requires p > 0
  {
    1 + Pages(z.kernel, p)
  }

  function SecondPage(p: nat, z: Sizes): nat
    requires p > 0
  {
    RamdiskPage(p, z) + Pages(z.ramdisk, p)
  }

  function DtbPage(p: nat, z: Sizes): nat
    requires p > 0
  {
    SecondPage(p, z) + Pages(z.second, p) + Pages(z.dtbo, p)
  }

  ghost predicate HasPages(file: bytes, p: nat, z: Sizes, i: Info)
    requires p > 0
  {
    HasSlices(file, p, PageOffset(p, RamdiskPage(p, z)), PageOffset(p, SecondPage(p, z)), PageOffset(p, DtbPage(p, z)),
              z, i)
  }

  lemma PagesAreParts(file: bytes, p: nat, z: Sizes, i: Info)
    requires p > 0 && HasPages(file, p, z, i)
    ensures ShowsParts(file, p, z, i)
  {
    hide PartsAt, PageOffset, HasSlices, RamdiskStart, SecondStart, DtbStart, RamdiskPage, SecondPage, DtbPage;
    PartsBegin(p, z);
    SlicesAreParts(file, p, RamdiskStart(p, z), SecondStart(p, z), DtbStart(p, z), z, i);
  }

  ghost predicate HasSlices(file: bytes, k: nat, r: nat, s: nat, d: nat, z: Sizes, i: Info) {
    && i.kernel == Slice(file, k, z.kernel) && i.ramdisk == Slice(file, r, z.ramdisk)
    && i.second == Extract(file, s, z.second) && i.recoveryDtbo == Extract(file, z.at, z.dtbo)
    && i.dtb == Extract(file, d, z.dtb)
  }

  lemma PartsAreSlices(file: bytes, version: nat)
    requires version <= 2 && |file| >= HeaderEnd(version) && TextsDecode(file) && BootHeader.Word(file, 36) > 0
    ensures HasPages(file, BootHeader.Word(file, 36), SizesOf(file, version), Info012(file, version))
  {
    hide BootHeader.Word, Long, Text, FormatOsVersion, FormatPatchLevel, VersionOf, PatchOf, Slice, Pages, Extract,
      PageOffset;
  }

  lemma SlicesAreParts(file: bytes, k: nat, r: nat, s: nat, d: nat, z: Sizes, i: Info)
    requires HasSlices(file, k, r, s, d, z, i)
    ensures PartsAt(file, k, r, s, d, z, i)
  {
    hide Slice, Extract, Taken, MayBeTaken;
    SliceIsTaken(file, k, z.kernel);
    SliceIsTaken(file, r, z.ramdisk);
    SliceIsTaken(file, s, z.second);
    SliceIsTaken(file, z.at, z.dtbo);
    SliceIsTaken(file, d, z.dtb);
  }

  lemma PartsBegin(p: nat, z: Sizes)
    requires p > 0
    ensures RamdiskStart(p, z) == PageOffset(p, RamdiskPage(p, z))
    ensures SecondStart(p, z) == PageOffset(p, SecondPage(p, z)) && DtbStart(p, z) == PageOffset(p, DtbPage(p, z))
  {
    hide Pages, PageEnd;
    NextPart(p, 1, z.kernel);
    NextPart(p, RamdiskPage(p, z), z.ramdisk);
    NextPart(p, SecondPage(p, z), z.second);
    NextPart(p, SecondPage(p, z) + Pages(z.second, p), z.dtbo);
  }

  /** Versions 3 and above. */
  ghost predicate ShowsNew(file: bytes, i: Info)
    requires Complete(file) && Little(file[40..44]) > 2
  {
    ShowsNewFields(file, i) && ShowsNewFiles(file, i)
  }

  ghost predicate ShowsNewFields(file: bytes, i: Info)
    requires Complete(file) && Little(file[40..44]) > 2
  {
    var v := Little(file[40..44]);
    && i.headerVersion == v && ShowsVersions(Little(file[16..20]), i.osVersion, i.osPatchLevel)
    && Shows(file[44..1580], i.cmdline) && i.signatureSize == if v > 3 then Little(file[1580..1584]) else 0
  }

  ghost predicate ShowsNewFiles(file: bytes, i: Info)
    requires |file| >= 44
  {
    var kernel, ramdisk := Little(file[8..12]), Little(file[12..16]);
    && Taken(file, 4096, kernel, i.kernel) && Taken(file, PageEnd(4096 + kernel, 4096), ramdisk, i.ramdisk)
    && i.second == None && i.recoveryDtbo == None && i.dtb == None
  }

  lemma UnpackIsNew(file: bytes)
    requires Readable(file) && Little(file[40..44]) > 2
    ensures var v := Little(file[40..44]); |file| >= HeaderEnd(v) && Unpack(file) == Unpack34(file, v)
  {
    hide BootHeader.Word, Little, Decode, Magic, Unpack012, Unpack34;
    MagicIs();
    WordIsLittle(file, 40);
  }

  lemma NewIsShown(file: bytes)
    requires Readable(file) && Little(file[40..44]) > 2
    ensures Unpack(file).Ok? && ShowsNew(file, Unpack(file).value)
  {
    hide Little, BootHeader.Word, Decode, Shows, ShowsVersions, FormatOsVersion, FormatPatchLevel, VersionOf, PatchOf,
      Slice, Pages, Unpack, ShowsNewFiles;
    UnpackIsNew(file);
    WordIsLittle(file, 16);
    if Little(file[40..44]) > 3 { WordIsLittle(file, 1580); }
    VersionsAreShown(BootHeader.Word(file, 16));
    TextIsShown(file[44..1580]);
    NewFilesAreShown(file, Little(file[40..44]));
  }

  lemma NewFilesAreShown(file: bytes, version: nat)
    requires version > 2 && |file| >= HeaderEnd(version) && Text(file[44..1580]).Some?
    ensures Unpack34(file, version).Ok? && ShowsNewFiles(file, Unpack34(file, version).value)
  {
    hide Little, BootHeader.Word, Text, FormatOsVersion, FormatPatchLevel, VersionOf, PatchOf, Slice, Pages, PageEnd,
      Taken;
    WordIsLittle(file, 8);
    WordIsLittle(file, 12);
    var kernel, ramdisk := BootHeader.Word(file, 8), BootHeader.Word(file, 12);
    SliceIsTaken(file, 4096, kernel);
    NextPart(4096, 1, kernel);
    SliceIsTaken(file, 4096 * (1 + Pages(kernel, 4096)), ramdisk);
  }

  /** Every file: it is refused exactly when it is not readable, and otherwise every field and every part of it is
      shown. */
  lemma UnpackedBytesAre(file: bytes)
    ensures Unpack(file).Ok? <==> Readable(file)
    ensures Readable(file) && Little(file[40..44]) > 2 ==> ShowsNew(file, Unpack(file).value)
    ensures Readable(file) && Little(file[40..44]) <= 2 ==>
              ShowsFields(file, Unpack(file).value) && ShowsFiles(file, Unpack(file).value)
  {
    hide Unpack, Little, ShowsNew, ShowsFields, ShowsFiles;
    UnpacksIff(file);
    if Readable(file) {
      if Little(file[40..44]) > 2 {
        NewIsShown(file);
      } else {
        FieldsAreShown(file, Little(file[40..44]));
        FilesAreShown(file, Little(file[40..44]));
        UnpackIsInfo(file);
      }
    }
  }

  lemma UnpackIsInfo(file: bytes)
    requires Readable(file) && Little(file[40..44]) <= 2
    ensures var v := Little(file[40..44]);
            && |file| >= HeaderEnd(v) && TextsDecode(file) && BootHeader.Word(file, 36) > 0
            && Unpack(file) == Ok(Info012(file, v))
  {
    hide BootHeader.Word, Long, Little, Decode, Info012, Magic, Unpack34;
    MagicIs();
    WordIsLittle(file, 36);
    WordIsLittle(file, 40);
  }

  // ----- vendor boot images

  /** Where the parts of a vendor boot image begin: each on the page behind the one before. */
  datatype Starts = Starts(ramdisk: nat, dtb: nat, table: nat, bootconfig: nat)

  function StartsOf(page: nat, header: nat, ramdisk: nat, dtb: nat, table: nat): Starts
    requires page > 0
  {
    var r := PageEnd(header, page);
    var d := PageEnd(r + ramdisk, page);
    var t := PageEnd(d + dtb, page);
    Starts(r, d, t, PageEnd(t + table, page))
  }

  lemma StartsAre(page: nat, header: nat, ramdisk: nat, dtb: nat, table: nat)
    requires page > 0
    ensures var n := Pages(header, page);
            var m := n + Pages(ramdisk, page);
            StartsOf(page, header, ramdisk, dtb, table)
            == Starts(PageOffset(page, n), PageOffset(page, m), PageOffset(page, m + Pages(dtb, page)),
                      PageOffset(page, m + Pages(dtb, page) + Pages(table, page)))
  {
    hide Pages, PageEnd;
    var n := Pages(header, page);
    var m := n + Pages(ramdisk, page);
    NextPart(page, 0, header);
    NextPart(page, n, ramdisk);
    NextPart(page, m, dtb);
    NextPart(page, m + Pages(dtb, page), table);
  }

  /** The starts as the header gives them; the table is empty in version 3. */
  function PartStarts(file: bytes): Starts
    requires |file| >= 2112 && Little(file[12..16]) > 0
  {
    StartsOf(Little(file[12..16]), Little(file[2096..2100]), Little(file[24..28]), Little(file[2100..2104]),
             if |file| >= 2128 then Little(file[2112..2116]) else 0)
  }

  ghost predicate EntryReadable(file: bytes, off: nat) {
    |file| >= off + 108 && Decode(file[off + 12..off + 44]).Some?
  }

  /** Size, offset, type, name and board of an entry, and its ramdisk. */
  ghost predicate ShowsEntry(file: bytes, off: nat, ramdisks: nat, f: Fragment) {
    && |file| >= off + 108 && Taken(file, ramdisks + Little(file[off + 4..off + 8]), Little(file[off..off + 4]), f.data)
    && f.kind == Little(file[off + 8..off + 12]) && Shows(file[off + 12..off + 44], f.name)
    && ShowsBoard(file, off + 44, f.boardId)
  }

  ghost predicate ShowsBoard(file: bytes, off: nat, board: seq<int>)
    requires off + 64 <= |file|
  {
    |board| == 16 && forall j :: 0 <= j < 16 ==> board[j] == Little(file[off + 4 * j..off + 4 * j + 4])
  }

  lemma BoardIsShown(file: bytes, off: nat)
    requires off + 64 <= |file|
    ensures ShowsBoard(file, off, BoardAt(file, off))
  {
    hide Little, BootHeader.Word;
    forall j | 0 <= j < 16 ensures BoardAt(file, off)[j] == Little(file[off + 4 * j..off + 4 * j + 4]) {
      WordIsLittle(file, off + 4 * j);
    }
  }

  lemma EntryIsShown(file: bytes, off: nat, ramdisks: nat)
    ensures ReadEntry(file, off, ramdisks).Ok? <==> EntryReadable(file, off)
    ensures EntryReadable(file, off) ==> ShowsEntry(file, off, ramdisks, ReadEntry(file, off, ramdisks).value)
  {
    hide Little, BootHeader.Word, Decode, Shows, Slice, Taken, BoardAt, ShowsBoard;
    if |file| >= off + 108 {
      WordIsLittle(file, off);
      WordIsLittle(file, off + 4);
      WordIsLittle(file, off + 8);
      BoardIsShown(file, off + 44);
      SliceIsTaken(file, ramdisks + BootHeader.Word(file, off + 4), BootHeader.Word(file, off));
      if EntryReadable(file, off) { TextIsShown(file[off + 12..off + 44]); }
    }
  }

  ghost predicate AllReadable(file: bytes, table: nat, entrySize: nat, n: nat) {
    forall i :: 0 <= i < n ==> EntryReadable(file, table + PageOffset(entrySize, i))
  }

  ghost predicate AllShown(file: bytes, table: nat, entrySize: nat, ramdisks: nat, fragments: seq<Fragment>) {
    forall i :: 0 <= i < |fragments| ==> ShowsEntry(file, table + PageOffset(entrySize, i), ramdisks, fragments[i])
  }

  lemma {:induction false} EntriesAreShown(file: bytes, table: nat, entrySize: nat, n: nat, ramdisks: nat)
    ensures var r := ReadEntries(file, table, entrySize, n, ramdisks);
            && (r.Ok? <==> AllReadable(file, table, entrySize, n))
            && (r.Ok? ==> |r.value| == n && AllShown(file, table, entrySize, ramdisks, r.value))
  {
    hide ReadEntry, EntryReadable, ShowsEntry, PageOffset;
    if n > 0 {
      EntriesAreShown(file, table, entrySize, n - 1, ramdisks);
      EntryIsShown(file, table + PageOffset(entrySize, n - 1), ramdisks);
      assert AllReadable(file, table, entrySize, n) <==>
             AllReadable(file, table, entrySize, n - 1)
             && EntryReadable(file, table + PageOffset(entrySize, n - 1));
    }
  }

  /** All but the table. */
  ghost predicate HeaderReadable(file: bytes) {
    && |file| >= 2112 && file[..8] == [0x56, 0x4E, 0x44, 0x52, 0x42, 0x4F, 0x4F, 0x54]
    && Decode(file[28..2076]).Some? && Decode(file[2080..2096]).Some? && Little(file[12..16]) > 0
  }

  /** What unpack_vendor_boot_image takes, up to the links by name: versions above 4 are read like 4. */
  ghost predicate VendorReadable(file: bytes) {
    && HeaderReadable(file)
    && (Little(file[8..12]) > 3 ==>
          && |file| >= 2128
          && AllReadable(file, PartStarts(file).table, Little(file[2120..2124]), Little(file[2116..2120])))
  }

  ghost predicate ShowsVendorFields(file: bytes, i: VendorInfo)
    requires |file| >= 2112 && Little(file[12..16]) > 0
  {
    && i.headerVersion == Little(file[8..12]) && i.pageSize == Little(file[12..16])
    && i.kernelAddr == Little(file[16..20]) && i.ramdiskAddr == Little(file[20..24])
    && Shows(file[28..2076], i.cmdline) && i.tagsAddr == Little(file[2076..2080])
    && Shows(file[2080..2096], i.productName) && i.dtbAddr == Little(file[2104..2112])
    && MayBeTaken(file, PartStarts(file).dtb, Little(file[2100..2104]), i.dtb)
  }

  /** Version 3 has one ramdisk, the others have the table and the bootconfig. */
  ghost predicate ShowsRamdisks(file: bytes, i: VendorInfo)
    requires |file| >= 2112 && Little(file[12..16]) > 0
  {
    var s := PartStarts(file);
    if Little(file[8..12]) <= 3 then
      Taken(file, s.ramdisk, Little(file[24..28]), i.vendorRamdisk) && i.fragments == [] && i.bootconfig == []
    else
      && |file| >= 2128 && i.vendorRamdisk == [] && |i.fragments| == Little(file[2116..2120])
      && AllShown(file, s.table, Little(file[2120..2124]), s.ramdisk, i.fragments)
      && Taken(file, s.bootconfig, Little(file[2124..2128]), i.bootconfig)
  }

  lemma VendorFieldsAreShown(file: bytes, ramdisk: bytes, fragments: seq<Fragment>, bootconfig: bytes)
    requires |file| >= 2112 && Little(file[12..16]) > 0 && BootHeader.Word(file, 12) > 0
    requires Text(file[28..2076]).Some? && Text(file[2080..2096]).Some?
    ensures var p := BootHeader.Word(file, 12);
            var at := PageOffset(p, Pages(BootHeader.Word(file, 2096), p) + Pages(BootHeader.Word(file, 24), p));
            var dtb := Extract(file, at, BootHeader.Word(file, 2100));
            ShowsVendorFields(file, InfoWith(file, dtb, ramdisk, fragments, bootconfig))
  {
    hide Little, BootHeader.Word, Long, Decode, Shows, Slice, Pages, StartsOf, Extract, MayBeTaken, PageOffset;
    forall off | off in {8, 12, 16, 20, 24, 2076, 2096, 2100}
      ensures BootHeader.Word(file, off) == Little(file[off..off + 4])
    {
      WordIsLittle(file, off);
    }
    LongIsLittle(file, 2104);
    TextIsShown(file[28..2076]);
    TextIsShown(file[2080..2096]);
    VendorStarts(file);
    SliceIsTaken(file, PartStarts(file).dtb, BootHeader.Word(file, 2100));
  }

  lemma VendorStarts(file: bytes)
    requires |file| >= 2112 && Little(file[12..16]) > 0
    ensures var p, s := BootHeader.Word(file, 12), PartStarts(file);
            && p > 0
            && var n := Pages(BootHeader.Word(file, 2096), p);
               var m := n + Pages(BootHeader.Word(file, 24), p);
               var e := m + Pages(BootHeader.Word(file, 2100), p);
               && s.ramdisk == PageOffset(p, n) && s.dtb == PageOffset(p, m) && s.table == PageOffset(p, e)
               && (|file| >= 2128 ==> s.bootconfig == PageOffset(p, e + Pages(BootHeader.Word(file, 2112), p)))
  {
    hide Little, BootHeader.Word, Pages, StartsOf, PageOffset;
    forall off | off in {12, 24, 2096, 2100} ensures BootHeader.Word(file, off) == Little(file[off..off + 4]) {
      WordIsLittle(file, off);
    }
    if |file| >= 2128 { WordIsLittle(file, 2112); }
    StartsAre(BootHeader.Word(file, 12), BootHeader.Word(file, 2096), BootHeader.Word(file, 24),
              BootHeader.Word(file, 2100), if |file| >= 2128 then BootHeader.Word(file, 2112) else 0);
  }

  /** Every file: it is refused exactly when it is not readable or a name cannot be linked, and otherwise every field
      and every part of it is shown. */
  lemma UnpackedVendorBytesAre(file: bytes)
    ensures ReadVendor(file).Ok? <==> VendorReadable(file)
    ensures VendorReadable(file) ==>
              ShowsVendorFields(file, ReadVendor(file).value) && ShowsRamdisks(file, ReadVendor(file).value)
    ensures UnpackVendor(file).Ok? <==>
              VendorReadable(file) && forall f | f in ReadVendor(file).value.fragments :: '/' !in f.name
    ensures UnpackVendor(file).Ok? ==> UnpackVendor(file) == ReadVendor(file)
  {
    hide ReadVendor, VendorReadable, ShowsVendorFields, ShowsRamdisks;
    ReadVendorIs(file);
  }

  lemma ReadVendorIs(file: bytes)
    ensures ReadVendor(file).Ok? <==> VendorReadable(file)
    ensures VendorReadable(file) ==>
              ShowsVendorFields(file, ReadVendor(file).value) && ShowsRamdisks(file, ReadVendor(file).value)
  {
    hide Little, BootHeader.Word, Decode, Slice, Pages, Extract, PageOffset, UnpackV4, PartStarts, AllReadable, Taken,
      InfoWith, ShowsVendorFields, ShowsRamdisks, VendorMagic;
    VendorMagicIs();
    if |file| >= 2112 { WordIsLittle(file, 12); }
    if HeaderReadable(file) {
      if Little(file[8..12]) > 3 { Version4Is(file); } else { Version3Is(file); }
    }
  }

  lemma Version3Is(file: bytes)
    requires HeaderReadable(file) && Little(file[8..12]) <= 3
    ensures ReadVendor(file).Ok?
    ensures ShowsVendorFields(file, ReadVendor(file).value) && ShowsRamdisks(file, ReadVendor(file).value)
  {
    hide Little, BootHeader.Word, Long, Decode, Slice, Pages, Extract, PageOffset, UnpackV4, PartStarts, Taken,
      ShowsVendorFields, VendorMagic;
    VendorMagicIs();
    WordIsLittle(file, 8);
    WordIsLittle(file, 12);
    WordIsLittle(file, 24);
    VendorStarts(file);
    var p := BootHeader.Word(file, 12);
    var ramdisk := Slice(file, PageOffset(p, Pages(BootHeader.Word(file, 2096), p)), BootHeader.Word(file, 24));
    VendorFieldsAreShown(file, ramdisk, [], []);
    SliceIsTaken(file, PartStarts(file).ramdisk, BootHeader.Word(file, 24));
  }

  lemma Version4Is(file: bytes)
    requires HeaderReadable(file) && Little(file[8..12]) > 3
    ensures ReadVendor(file).Ok? <==> VendorReadable(file)
    ensures VendorReadable(file) ==>
              ShowsVendorFields(file, ReadVendor(file).value) && ShowsRamdisks(file, ReadVendor(file).value)
  {
    hide Little, BootHeader.Word, Long, Decode, Slice, Pages, Extract, PageOffset, PartStarts, Taken, AllReadable,
      AllShown, ShowsVendorFields, VendorMagic;
    VendorMagicIs();
    WordIsLittle(file, 8);
    WordIsLittle(file, 12);
    if |file| >= 2128 {
      WordIsLittle(file, 2116);
      WordIsLittle(file, 2120);
      WordIsLittle(file, 2124);
      VendorStarts(file);
      var s, n := PartStarts(file), BootHeader.Word(file, 2116);
      EntriesAreShown(file, s.table, BootHeader.Word(file, 2120), n, s.ramdisk);
      SliceIsTaken(file, s.bootconfig, BootHeader.Word(file, 2124));
      var r := ReadEntries(file, s.table, BootHeader.Word(file, 2120), n, s.ramdisk);
      if r.Ok? {
        VendorFieldsAreShown(file, [], r.value, Slice(file, s.bootconfig, BootHeader.Word(file, 2124)));
      }
    }
  }

  lemma VendorMagicIs()
    ensures VendorMagic() == [0x56, 0x4E, 0x44, 0x52, 0x42, 0x4F, 0x4F, 0x54]
  {
  }
}
