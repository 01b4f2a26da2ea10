/** Unpacking a packed vendor boot image gives back every field, section and fragment, and packing what
    was unpacked gives back the image, byte for byte. */
module VendorRepack {
  import opened Bits
  import opened Bytes
  import opened Utf8
  import opened Paging
  import opened BootHeader
  import opened BootImage
  import opened Argparse
  import opened BootRepack
  import opened VendorTable
  import opened VendorBoot

  // ----- the header

  lemma ReadBaseA(f: VFields, file: bytes)
    requires PackableA(f) && BaseA(f) <= file
    ensures |file| >= 28 && At(file, 0, VendorMagic())
    ensures Word(file, 8) == f.version && Word(file, 12) == f.pageSize && Word(file, 16) == f.kernelAddr
    ensures Word(file, 20) == f.ramdiskAddr && Word(file, 24) == f.ramdiskSize
  {
    hide U32, Word, At, VendorMagic;
    var d0 := VendorMagic();
    var d1 := d0 + U32(f.version);
    var d2 := d1 + U32(f.pageSize);
    var d3 := d2 + U32(f.kernelAddr);
    var d4 := d3 + U32(f.ramdiskAddr);
    LastWord(d4, f.ramdiskSize, file);
    LastWord(d3, f.ramdiskAddr, file);
    LastWord(d2, f.kernelAddr, file);
    LastWord(d1, f.pageSize, file);
    LastWord(d0, f.version, file);
    LastChunk([], d0, file);
  }

  lemma ReadBaseB(f: VFields, file: bytes)
    requires PackableC(f) && BaseB(f) <= file
    ensures |file| >= 2096 && BaseA(f) <= file
    ensures file[28..2076] == PackS(2048, f.cmdline) && file[2080..2096] == PackS(16, f.name)
    ensures Word(file, 2076) == f.tagsAddr
  {
    hide BaseA, PackS, U32, Word;
    var d1 := BaseA(f) + PackS(2048, f.cmdline);
    var d2 := d1 + U32(f.tagsAddr);
    LastChunk(d2, PackS(16, f.name), file);
    LastWord(d1, f.tagsAddr, file);
    LastChunk(BaseA(f), PackS(2048, f.cmdline), file);
  }

  lemma ReadBaseC(f: VFields, file: bytes)
    requires PackableC(f) && BaseC(f) <= file
    ensures |file| >= 2112 && BaseB(f) <= file
    ensures Word(file, 2096) == HeaderSize(f.version) && Word(file, 2100) == f.dtbSize && Long(file, 2104) == f.dtbAddr
  {
    hide BaseB, U32, U64, Word, Long;
    var d1 := BaseB(f) + U32(HeaderSize(f.version));
    var d2 := d1 + U32(f.dtbSize);
    LastLong(d2, f.dtbAddr, file);
    LastWord(d1, f.dtbSize, file);
    LastWord(BaseB(f), HeaderSize(f.version), file);
  }

  lemma ReadRenderV(f: VFields, file: bytes)
    requires PackableV(f) && RenderV(f) <= file
    ensures BaseC(f) <= file
    ensures f.version > 3 ==> |file| >= 2128 && Word(file, 2112) == 108 * f.entries && Word(file, 2116) == f.entries
                              && Word(file, 2120) == 108 && Word(file, 2124) == f.bootconfigSize
  {
    hide BaseC, U32, Word;
    if f.version > 3 {
      var d1 := BaseC(f) + U32(108 * f.entries);
      var d2 := d1 + U32(f.entries);
      var d3 := d2 + U32(108);
      LastWord(d3, f.bootconfigSize, file);
      LastWord(d2, 108, file);
      LastWord(d1, f.entries, file);
      LastWord(BaseC(f), 108 * f.entries, file);
    }
  }

  /** All header fields read back. */
  ghost predicate HeaderReads(file: bytes, f: VFields) {
    && |file| >= 2112 && file[..8] == VendorMagic()
    && Word(file, 8) == f.version && Word(file, 12) == f.pageSize && Word(file, 16) == f.kernelAddr
    && Word(file, 20) == f.ramdiskAddr && Word(file, 24) == f.ramdiskSize
    && file[28..2076] == PackS(2048, f.cmdline) && Word(file, 2076) == f.tagsAddr
    && file[2080..2096] == PackS(16, f.name)
    && Word(file, 2096) == HeaderSize(f.version) && Word(file, 2100) == f.dtbSize && Long(file, 2104) == f.dtbAddr
    && (f.version > 3 ==> |file| >= 2128 && Word(file, 2112) == 108 * f.entries && Word(file, 2116) == f.entries
                          && Word(file, 2120) == 108 && Word(file, 2124) == f.bootconfigSize)
  }

  lemma ReadVendorHeader(f: VFields, file: bytes)
    requires PackableV(f) && RenderV(f) <= file
    ensures HeaderReads(file, f)
  {
    hide RenderV, BaseA, BaseB, BaseC, Word, Long, PackS, Fits32, Fits64;
    ReadRenderV(f, file);
    ReadBaseC(f, file);
    ReadBaseB(f, file);
    ReadBaseA(f, file);
  }

  // ----- what comes back

  /** The vendor ramdisk as a fragment, if there is one. */
  function RamdiskFragment(c: VendorCommand): (r: seq<Fragment>)
    ensures |r| == if c.vendorRamdisk.Some? then 1 else 0
  {
    if c.vendorRamdisk.Some? then [Fragment(c.vendorRamdisk.value, VENDOR_RAMDISK_TYPE_PLATFORM, "", NoBoard())] else []
  }

  /** The fragments of the image: the vendor ramdisk and the option groups. */
  function AllFragments(c: VendorCommand): seq<Fragment> {
    RamdiskFragment(c) + c.fragments
  }

  predicate VendorAddressesAreNat(c: VendorCommand) {
    && 3 <= c.headerVersion <= 4 && c.pagesize >= 0
    && c.base + c.kernelOffset >= 0 && c.base + c.ramdiskOffset >= 0 && c.base + c.tagsOffset >= 0
    && c.base + c.dtbOffset >= 0
  }

  /** What the info object shows of an image packed from c. */
  function VendorInfoOf(c: VendorCommand): VendorInfo
    requires VendorAddressesAreNat(c)
  {
    VendorInfo(c.headerVersion, c.pagesize, c.base + c.kernelOffset, c.base + c.ramdiskOffset, c.vendorCmdline,
               c.base + c.tagsOffset, c.board, c.base + c.dtbOffset, NonEmpty(c.dtb),
               if c.headerVersion > 3 then [] else Content(c.vendorRamdisk),
               if c.headerVersion > 3 then AllFragments(c) else [],
               if c.headerVersion > 3 then Content(c.bootconfig) else [])
  }

  lemma FirstTableIsGood(c: VendorCommand)
    requires FirstTable(c).Ok?
    ensures var t := FirstTable(c).value;
            && Good(t) && |t.entries| == |RamdiskFragment(c)|
            && forall i :: 0 <= i < |t.entries| ==> Describes(t.entries[i], RamdiskFragment(c)[i])
  {
    hide Good, Strip, AllFit32, Banned, NoBoard;
    EmptyIsGood();
    if c.vendorRamdisk.Some? {
      AddEntryKeepsGood(EmptyTable(), c.vendorRamdisk.value, VENDOR_RAMDISK_TYPE_PLATFORM, [], None);
      assert Describes(FirstTable(c).value.entries[0], RamdiskFragment(c)[0]);
    }
  }

  lemma EmptyIsGood()
    ensures Good(EmptyTable())
  {
  }

  /** The table that is built holds all fragments in order, well formed. */
  lemma BuiltTable(c: VendorCommand)
    requires PlainVendor(c) && BuildTable(c).Ok?
    ensures var t := BuildTable(c).value;
            && Good(t) && |t.entries| == |AllFragments(c)|
            && forall i :: 0 <= i < |t.entries| ==> Describes(t.entries[i], AllFragments(c)[i])
  {
    hide Good, Describes, Strip, AllFit32, Banned, AddEntry, FirstTable, RamdiskFragment;
    FirstTableIsGood(c);
    var first := FirstTable(c).value;
    AddAllAppends(first, c.fragments);
    var t, n := BuildTable(c).value, |first.entries|;
    forall i | 0 <= i < |t.entries| ensures Describes(t.entries[i], AllFragments(c)[i]) {
      if i < n {
        assert t.entries[i] == first.entries[i];
        assert AllFragments(c)[i] == RamdiskFragment(c)[i];
      } else {
        assert Describes(t.entries[n + (i - n)], c.fragments[i - n]);
        assert AllFragments(c)[i] == c.fragments[i - n];
      }
    }
  }

  lemma TextFields(c: VendorCommand)
    requires PlainVendor(c) && ArgumentsFit(c)
    ensures Text(PackS(2048, Asciiz(c.vendorCmdline))) == Some(c.vendorCmdline)
    ensures Text(PackS(16, Asciiz(c.board))) == Some(c.board)
  {
    AsciizField(2048, c.vendorCmdline);
    AsciizField(16, c.board);
  }

  /** The header fills whole pages, as many as the unpacker computes. */
  lemma HeaderPages(header: bytes, page: nat, k: nat)
    requires page == Pow2(k) && page > 0
    ensures |Pad(header, page)| == page * Pages(|header|, page) && header <= Pad(header, page)
  {
    PaddedLength(|header|, page, k);
  }

  /** Section i of a file whose header takes h pages. */
  ghost predicate SectionAtPage(file: bytes, s: seq<Option<bytes>>, p: nat, h: nat, i: nat)
    requires p > 0 && i < |s|
  {
    At(file, PageOffset(p, h + PagesBefore(s, i, p)), Content(s[i]))
  }

  lemma SectionsAtPages(header: bytes, s: seq<Option<bytes>>, p: nat, k: nat, h: nat)
    requires p == Pow2(k) && p > 0 && |header| == p * h
    ensures forall i :: 0 <= i < |s| ==> SectionAtPage(WriteAll(header, s, p), s, p, h, i)
  {
    forall i | 0 <= i < |s| ensures SectionAtPage(WriteAll(header, s, p), s, p, h, i) {
      hide WriteAll, PagesBefore, Pow2, Pages, At;
      SectionAt(header, s, p, k, h, i);
    }
  }

  /** The parts of a packed image, at the offsets the unpacker recomputes. */
  ghost predicate VendorLayout(file: bytes, c: VendorCommand, t: Table, p: nat)
    requires p > 0 && (c.headerVersion > 3 ==> AllPackable(t.entries))
  {
    var h := Pages(HeaderSize(c.headerVersion), p);
    var r := Pages(if c.headerVersion > 3 then |Concat(t.entries)| else Size(c.vendorRamdisk), p);
    var d := Pages(Size(c.dtb), p);
    var e := Pages(108 * |t.entries|, p);
    && At(file, PageOffset(p, h), if c.headerVersion > 3 then Concat(t.entries) else Content(c.vendorRamdisk))
    && At(file, PageOffset(p, h + r), Content(c.dtb))
    && (c.headerVersion > 3 ==> At(file, PageOffset(p, h + r + d), TableBytes(t.entries)))
    && (c.headerVersion > 3 ==> At(file, PageOffset(p, h + r + d + e), Content(c.bootconfig)))
  }

  lemma FirstTwoSections(s: seq<Option<bytes>>, p: nat)
    requires p > 0 && |s| >= 2
    ensures PagesBefore(s, 0, p) == 0 && PagesBefore(s, 1, p) == Pages(Size(s[0]), p)
  {
    PagesBeforeNext(s, 0, p);
  }

  lemma LayoutFromSections(file: bytes, c: VendorCommand, t: Table, p: nat)
    requires p > 0 && 3 <= c.headerVersion <= 4 && (c.headerVersion > 3 ==> AllPackable(t.entries))
    requires forall i :: 0 <= i < |VSections(c, t)| ==>
               SectionAtPage(file, VSections(c, t), p, Pages(HeaderSize(c.headerVersion), p), i)
    ensures VendorLayout(file, c, t, p)
  {
    var s, h := VSections(c, t), Pages(HeaderSize(c.headerVersion), p);
    FirstTwoSections(s, p);
    if c.headerVersion > 3 { PagesBeforeEach(s, p); }
    hide PagesBefore, Pages, PageOffset, At, Concat, TableBytes, AllPackable;
    assert SectionAtPage(file, s, p, h, 0) && SectionAtPage(file, s, p, h, 1);
    assert c.headerVersion > 3 ==> SectionAtPage(file, s, p, h, 2) && SectionAtPage(file, s, p, h, 3);
  }

  lemma WrittenVendor(c: VendorCommand, t: Table)
    requires PlainVendor(c) && IsPageSize(c.pagesize) && 3 <= c.headerVersion <= 4 && WriteVendor(c, t).Ok?
    ensures c.headerVersion > 3 ==> AllPackable(t.entries)
    ensures HeaderReads(WriteVendor(c, t).value, VFieldsOf(c, t))
            && VendorLayout(WriteVendor(c, t).value, c, t, c.pagesize)
  {
    hide RenderV, VSections, WriteAll, Pad, Pow2, Pages, AllPackable, HeaderReads, VendorLayout, HeaderSize;
    var f, p: nat, s := VFieldsOf(c, t), c.pagesize, VSections(c, t);
    var k := PageSizes(p);
    var header := Pad(RenderV(f), p);
    HeaderPages(RenderV(f), p, k);
    SectionsAtPages(header, s, p, k, Pages(HeaderSize(c.headerVersion), p));
    PrefixStays(header, s, p);
    var file := WriteAll(header, s, p);
    ReadVendorHeader(f, file);
    LayoutFromSections(file, c, t, p);
  }

  /** The table of an image: what the builder built, or none. */
  function TableOf(c: VendorCommand): Table
    requires PlainVendor(c)
  {
    if c.headerVersion > 3 && BuildTable(c).Ok? then BuildTable(c).value else EmptyTable()
  }

  lemma PackIsWrite(c: VendorCommand)
    requires PlainVendor(c) && PackVendor(c).Ok?
    ensures ArgumentsFit(c) && 3 <= c.headerVersion <= 4 && (c.headerVersion == 3 ==> c.vendorRamdisk.Some?)
    ensures c.headerVersion > 3 ==> BuildTable(c).Ok?
    ensures IsPageSize(c.pagesize) && PackVendor(c) == WriteVendor(c, TableOf(c))
  {
    assert ArgumentsFit(c) && IsPageSize(c.pagesize);
    hide WriteVendor, BuildTable, ArgumentsFit, PlainVendor;
  }

  /** A packed image: its table, its header fields and its layout. */
  lemma PackedVendor(c: VendorCommand)
    requires PlainVendor(c) && PackVendor(c).Ok?
    ensures ArgumentsFit(c) && VendorAddressesAreNat(c) && (c.headerVersion == 3 ==> c.vendorRamdisk.Some?)
    ensures c.headerVersion > 3 ==> BuildTable(c).Ok? && AllPackable(TableOf(c).entries)
    ensures HeaderReads(PackVendor(c).value, VFieldsOf(c, TableOf(c)))
    ensures VendorLayout(PackVendor(c).value, c, TableOf(c), c.pagesize)
  {
    hide RenderV, VSections, WriteAll, Pad, TableOf, BuildTable, AllPackable, HeaderReads, VendorLayout, Asciiz,
      PackVendor, ArgumentsFit, PlainVendor;
    PackIsWrite(c);
    WrittenVendor(c, TableOf(c));
  }

  /** The fragments of version 4 can all be linked by name. */
  predicate AllLinkable(c: VendorCommand) {
    c.headerVersion > 3 ==> Linkable(AllFragments(c))
  }

  /** Unpacking what was packed returns every field, every section and every fragment in order, exactly when
      no fragment has a slash in its name. */
  lemma UnpackReturnsVendor(c: VendorCommand)
    requires PlainVendor(c) && PackVendor(c).Ok?
    ensures VendorAddressesAreNat(c)
    ensures UnpackVendor(PackVendor(c).value) == if AllLinkable(c) then Ok(VendorInfoOf(c)) else Err(OSError)
  {
    hide PackVendor, ReadVendor, HeaderReads, VendorLayout, ArgumentsFit, BuildTable, PlainNames, AllFragments;
    PackedVendor(c);
    var t := TableOf(c);
    var file := PackVendor(c).value;
    if c.headerVersion > 3 { UnpackV4Reads(c, t, file); } else { UnpackV3Reads(c, t, file); }
  }

  lemma UnpackV3Reads(c: VendorCommand, t: Table, file: bytes)
    requires PlainVendor(c) && ArgumentsFit(c) && VendorAddressesAreNat(c) && c.headerVersion == 3
    requires HeaderReads(file, VFieldsOf(c, t)) && VendorLayout(file, c, t, c.pagesize)
    ensures ReadVendor(file) == Ok(VendorInfoOf(c))
  {
    hide PackS, Asciiz, Pages, PageOffset, Word, Long, Slice, Text, VendorMagic;
    TextFields(c);
    var p: nat := c.pagesize;
    var h, r := Pages(2112, p), Pages(Size(c.vendorRamdisk), p);
    AtSlice(file, PageOffset(p, h), Content(c.vendorRamdisk));
    AtSlice(file, PageOffset(p, h + r), Content(c.dtb));
  }

  lemma ShortFragmentNames(c: VendorCommand)
    requires ArgumentsFit(c)
    ensures forall i :: 0 <= i < |AllFragments(c)| ==> |Encode(AllFragments(c)[i].name)| <= 31
  {
    forall i | 0 <= i < |AllFragments(c)| ensures |Encode(AllFragments(c)[i].name)| <= 31 {
      if c.vendorRamdisk.Some? && i > 0 { assert AllFragments(c)[i] == c.fragments[i - 1]; }
    }
  }

  /** The table loop returns all fragments. */
  lemma FragmentsReadBack(c: VendorCommand, t: Table, file: bytes, table: nat, base: nat)
    requires PlainVendor(c) && ArgumentsFit(c) && BuildTable(c) == Ok(t) && AllPackable(t.entries)
    requires At(file, table, TableBytes(t.entries)) && At(file, base, Concat(t.entries))
    ensures ReadEntries(file, table, 108, |t.entries|, base) == Ok(AllFragments(c))
    ensures t.total == |Concat(t.entries)|
  {
    BuiltTable(c);
    ShortFragmentNames(c);
    hide At, AllPackable, Concat, TableBytes, ReadEntries, Describes, GoodNames, BuildTable;
    var all := AllFragments(c);
    EntriesReadBack(file, table, base, t.entries, all, |all|);
    assert all[..|all|] == all;
  }

  lemma UnpackV4Reads(c: VendorCommand, t: Table, file: bytes)
    requires PlainVendor(c) && ArgumentsFit(c) && VendorAddressesAreNat(c) && c.headerVersion == 4
    requires BuildTable(c) == Ok(t) && AllPackable(t.entries)
    requires HeaderReads(file, VFieldsOf(c, t)) && VendorLayout(file, c, t, c.pagesize)
    ensures ReadVendor(file) == Ok(VendorInfoOf(c))
  {
    hide PackS, Asciiz, Pages, PageOffset, Word, Long, Slice, Text, VendorMagic, BuildTable, AllPackable, Concat,
      TableBytes, ReadEntries, PlainNames, ShortNames, AllFragments, At;
    TextFields(c);
    var p: nat := c.pagesize;
    var h, r, d, e := Pages(2128, p), Pages(t.total, p), Pages(Size(c.dtb), p), Pages(108 * |t.entries|, p);
    FragmentsReadBack(c, t, file, PageOffset(p, h + Pages(|Concat(t.entries)|, p) + d), PageOffset(p, h));
    AtSlice(file, PageOffset(p, h + r), Content(c.dtb));
    AtSlice(file, PageOffset(p, h + r + d + e), Content(c.bootconfig));
  }

  // ----- unpack, then pack

  /** The command line that the info object of a packed image formats to. */
  function RepackedVendor(c: VendorCommand): VendorCommand
    requires VendorAddressesAreNat(c)
  {
    FormatVendor(VendorInfoOf(c))
  }

  lemma RepackedArguments(c: VendorCommand)
    requires PlainVendor(c) && ArgumentsFit(c) && VendorAddressesAreNat(c)
             && (c.headerVersion == 3 ==> c.vendorRamdisk.Some?)
    ensures PlainVendor(RepackedVendor(c)) && ArgumentsFit(RepackedVendor(c))
  {
    var d := RepackedVendor(c);
    forall i | 0 <= i < |d.fragments|
      ensures Plain(d.fragments[i].name) && |Asciiz(d.fragments[i].name)| <= VENDOR_RAMDISK_NAME_SIZE
    {
      if c.vendorRamdisk.Some? && i > 0 { assert d.fragments[i] == c.fragments[i - 1]; }
    }
  }

  /** The unnamed first entry and the same fragment given as an option group pack alike. */
  lemma FirstFragment(data: bytes)
    ensures var f := Fragment(data, VENDOR_RAMDISK_TYPE_PLATFORM, "", NoBoard());
            && AddFragment(EmptyTable(), f).Ok? && AddEntry(EmptyTable(), data, f.kind, [], None).Ok?
            && Alike(AddEntry(EmptyTable(), data, f.kind, [], None).value, AddFragment(EmptyTable(), f).value)
  {
    hide Strip, AllFit32, PackS, Asciiz, NoBoard, Banned;
    EmptyNames();
    BoardOfZeros();
  }

  /** No name and an empty one are stripped and packed alike. */
  lemma EmptyNames()
    ensures Strip(Asciiz("")) == [] == Strip([]) && Banned() != []
    ensures PackS(32, Asciiz("")) == PackS(32, [])
  {
    assert Asciiz("") == [0] == [] + Zeros(1);
    PackSZeros(32, [], 1);
  }

  lemma BoardOfZeros()
    ensures AllFit32(NoBoard())
  {
  }

  lemma AlikeSelf(t: Table)
    ensures Alike(t, t)
  {
  }

  /** The builder gets the same table again, up to the terminator of the empty name. */
  lemma SameTable(c: VendorCommand)
    requires PlainVendor(c) && ArgumentsFit(c) && VendorAddressesAreNat(c) && c.headerVersion == 4 && BuildTable(c).Ok?
    ensures var d := RepackedVendor(c);
            PlainVendor(d) && BuildTable(d).Ok? && Alike(BuildTable(c).value, BuildTable(d).value)
  {
    RepackedArguments(c);
    var d := RepackedVendor(c);
    AlikeSelf(EmptyTable());
    hide Strip, AllFit32, Alike, PlainNames, AddFragment;
    if c.vendorRamdisk.Some? {
      FirstFragment(c.vendorRamdisk.value);
      var first := AllFragments(c)[0];
      assert d.fragments == [first] + c.fragments && d.fragments[1..] == c.fragments;
      var next := AddFragment(EmptyTable(), first).value;
      assert AddAll(EmptyTable(), d.fragments) == AddAll(next, c.fragments);
      AddAllAlike(FirstTable(c).value, next, c.fragments);
    } else {
      assert d.fragments == c.fragments;
      AddAllAlike(EmptyTable(), EmptyTable(), c.fragments);
    }
  }

  lemma SameVendorFields(c: VendorCommand, t: Table, u: Table)
    requires PlainVendor(c) && ArgumentsFit(c) && VendorAddressesAreNat(c) && t.total == u.total
             && |t.entries| == |u.entries|
    requires c.headerVersion == 3 ==> c.vendorRamdisk.Some?
    ensures var d := RepackedVendor(c);
            && PlainVendor(d) && d.pagesize == c.pagesize && d.headerVersion == c.headerVersion
            && VFieldsOf(d, u) == VFieldsOf(c, t)
  {
    RepackedArguments(c);
    ContentOfNonEmpty(c.dtb);
    hide Asciiz, PlainVendor, AllFragments, ArgumentsFit, NonEmpty;
  }

  lemma SameVendorSections(c: VendorCommand, t: Table, u: Table)
    requires VendorAddressesAreNat(c) && (c.headerVersion == 3 ==> c.vendorRamdisk.Some?)
    requires c.headerVersion == 4 ==>
               && AllPackable(t.entries) && AllPackable(u.entries)
               && Concat(t.entries) == Concat(u.entries) && TableBytes(t.entries) == TableBytes(u.entries)
    ensures SameContents(VSections(c, t), VSections(RepackedVendor(c), u))
  {
    hide AllPackable, Concat, TableBytes, AllFragments;
    ContentOfNonEmpty(c.dtb);
    var a, b := VSections(c, t), VSections(RepackedVendor(c), u);
    assert |a| == |b| && Content(a[0]) == Content(b[0]) && Content(a[1]) == Content(b[1]);
    assert c.headerVersion == 4 ==> |a| == 4 && Content(a[2]) == Content(b[2]) && Content(a[3]) == Content(b[3]);
  }

  /** Alike tables and the same contents write the same image. */
  lemma SameVendorFile(c: VendorCommand, t: Table, u: Table)
    requires PlainVendor(c) && ArgumentsFit(c) && VendorAddressesAreNat(c) && Alike(t, u) && WriteVendor(c, t).Ok?
    requires c.headerVersion == 3 ==> c.vendorRamdisk.Some?
    ensures PlainVendor(RepackedVendor(c)) && IsPageSize(RepackedVendor(c).pagesize)
    ensures WriteVendor(RepackedVendor(c), u) == WriteVendor(c, t)
  {
    AlikeBytes(t.entries, u.entries);
    SameVendorFields(c, t, u);
    SameVendorSections(c, t, u);
    var d, p: nat := RepackedVendor(c), c.pagesize;
    hide RenderV, WriteAll, Pad, Pow2, Pages, AllPackable, Concat, TableBytes, Asciiz, PackableV, PlainVendor,
      VSections, VFieldsOf, Alike, RepackedVendor;
    var header := Pad(RenderV(VFieldsOf(c, t)), p);
    var k := PageSizes(p);
    HeaderPages(RenderV(VFieldsOf(c, t)), p, k);
    SameContentSameFile(header, VSections(c, t), VSections(d, u), p, k, Pages(|RenderV(VFieldsOf(c, t))|, p));
  }

  /** Unpacking, formatting and packing again gives the same bytes exactly when every fragment can be linked
      by its name and no text looks like an option. */
  lemma VendorRepackIsIdentity(c: VendorCommand)
    requires PlainVendor(c) && PackVendor(c).Ok?
    ensures VendorAddressesAreNat(c) && PlainVendor(FormatVendor(VendorInfoOf(c)))
    ensures UnpackVendor(PackVendor(c).value) == if AllLinkable(c) then Ok(VendorInfoOf(c)) else Err(OSError)
    ensures PackFormattedVendor(VendorInfoOf(c)) == PackVendor(c) <==> AllTextsAreValues(c)
  {
    hide UnpackVendor, PackVendor, ArgumentsFit, AllLinkable, IsValue, NamesAreValues, AllFragments;
    UnpackReturnsVendor(c);
    RepackedVendorPacks(c);
    SameTexts(c);
  }

  /** The texts of the image: fragments have names in version 4 only. */
  predicate AllTextsAreValues(c: VendorCommand) {
    IsValue(MAIN, c.vendorCmdline) && IsValue(MAIN, c.board) && (c.headerVersion > 3 ==> NamesAreValues(c.fragments))
  }

  /** The unnamed vendor ramdisk is no obstacle. */
  lemma SameTexts(c: VendorCommand)
    requires VendorAddressesAreNat(c)
    ensures VendorTextsAreValues(RepackedVendor(c)) <==> AllTextsAreValues(c)
  {
    hide IsValue, IsName, NamesAreValues;
    SameNames(c);
    NoNames();
  }

  lemma SameNames(c: VendorCommand)
    ensures NamesAreValues(AllFragments(c)) <==> NamesAreValues(c.fragments)
  {
    hide IsName;
    EmptyNameIsName();
    var all, rest := AllFragments(c), c.fragments;
    if c.vendorRamdisk.Some? {
      assert forall i :: 0 < i < |all| ==> all[i] == rest[i - 1];
      assert forall i :: 0 <= i < |rest| ==> rest[i] == all[i + 1];
    } else {
      assert all == rest;
    }
  }

  lemma NoNames()
    ensures NamesAreValues([])
  {
  }

  lemma EmptyNameIsName()
    ensures IsName("")
  {
  }

  /** With the arguments as they were formatted, the packer gives the image again. */
  lemma RepackedVendorPacks(c: VendorCommand)
    requires PlainVendor(c) && PackVendor(c).Ok?
    ensures VendorAddressesAreNat(c) && PlainVendor(RepackedVendor(c)) && PackVendor(RepackedVendor(c)) == PackVendor(c)
  {
    PackedVendor(c);
    PackIsWrite(c);
    var t := TableOf(c);
    RepackedArguments(c);
    hide WriteVendor, HeaderReads, VendorLayout, ArgumentsFit, BuildTable, Alike, PlainNames;
    if c.headerVersion > 3 {
      SameTable(c);
      SameVendorFile(c, t, BuildTable(RepackedVendor(c)).value);
    } else {
      AlikeSelf(t);
      SameVendorFile(c, t, t);
    }
  }

  // ----- links

  /** The names of a packed image are distinct, so every link leads to the fragment of its name. */
  lemma LinksLeadHome(c: VendorCommand, i: nat)
    requires PlainVendor(c) && PackVendor(c).Ok? && c.headerVersion == 4 && i < |AllFragments(c)|
    ensures var all := AllFragments(c); all[i].name in Links(all, |all|) && Links(all, |all|)[all[i].name] == i
  {
    hide PackVendor, BuildTable, AllFragments, HeaderReads, VendorLayout, AllPackable, Links, Good, Describes;
    PackedVendor(c);
    BuiltTable(c);
    var t, all := BuildTable(c).value, AllFragments(c);
    forall j | i < j < |all| ensures all[j].name != all[i].name {
      NamesDiffer(t, i, j, all[i], all[j]);
    }
    LastLink(all, i, |all|);
  }

  lemma NamesDiffer(t: Table, i: nat, j: nat, f: Fragment, g: Fragment)
    requires Good(t) && i < j < |t.entries| && Describes(t.entries[i], f) && Describes(t.entries[j], g)
    ensures f.name != g.name
  {
    StripOfText(f.name);
    StripOfText(g.name);
    hide Strip, Encode, Asciiz;
    assert Strip([]) == Strip(Asciiz("")) by { EmptyStrip(); }
  }

  lemma EmptyStrip()
    ensures Strip([]) == [] == Strip(Asciiz(""))
  {
    assert Asciiz("") == [0];
  }

  lemma {:induction false} LastLink(all: seq<Fragment>, i: nat, n: nat)
    requires i < n <= |all| && forall j :: i < j < n ==> all[j].name != all[i].name
    ensures all[i].name in Links(all, n) && Links(all, n)[all[i].name] == i
  {
    if i + 1 < n {
      LastLink(all, i, n - 1);
    }
  }

  // ----- images that do not come back

  /** One fragment, its name as given. */
  function OneFragment(name: string, cmdline: string): VendorCommand {
    VendorCommand(4, 4096, 0, 0, 0, 0, 0, cmdline, "", None, None, None,
                  [Fragment([], VENDOR_RAMDISK_TYPE_PLATFORM, name, NoBoard())])
  }

  lemma OneFragmentIsAccepted(name: string, cmdline: string)
    requires Plain(name) && Plain(cmdline) && |Encode(name)| < 32 && |Encode(cmdline)| < 2048
             && Encode(name) != Banned()
    ensures PlainVendor(OneFragment(name, cmdline)) && PackVendor(OneFragment(name, cmdline)).Ok?
  {
    var c := OneFragment(name, cmdline);
    hide WriteVendor, BuildTable, Encode, Asciiz, Banned, NoBoard;
    NoBytes();
    OneFragmentTable(c);
    OneFragmentWrites(c, BuildTable(c).value);
  }

  lemma NoBytes()
    ensures |Asciiz("")| == 1 && forall s: string :: |Asciiz(s)| == |Encode(s)| + 1
  {
  }

  lemma OneFragmentTable(c: VendorCommand)
    requires PlainVendor(c) && c.vendorRamdisk.None? && |c.fragments| == 1
    requires Encode(c.fragments[0].name) != Banned() && c.fragments[0].boardId == NoBoard()
    ensures BuildTable(c).Ok?
  {
    hide Encode, Banned;
    AcceptedGroups(EmptyTable(), c.fragments);
  }

  lemma OneFragmentWrites(c: VendorCommand, t: Table)
    requires |c.fragments| == 1 && c == OneFragment(c.fragments[0].name, c.vendorCmdline)
    requires PlainVendor(c) && BuildTable(c) == Ok(t)
    ensures WriteVendor(c, t).Ok?
  {
    BuiltTable(c);
    hide BuildTable, WriteAll, Pad, RenderV, VSections, Strip, Encode, Banned, GoodNames;
    assert |t.entries| == 1 && Describes(t.entries[0], c.fragments[0]);
    NothingInTotal(t);
  }

  lemma NothingInTotal(t: Table)
    requires GoodOffsets(t) && |t.entries| == 1 && t.entries[0].data == []
    ensures t.total == 0 && t.entries[0].offset == 0
  {
    assert t.entries[..0] == [];
  }

  /** A fragment named "a/b" is packed, and unpacking the image raises. */
  lemma SlashedNameIsLost()
    ensures var c := OneFragment("a/b", "");
            PlainVendor(c) && PackVendor(c).Ok? && UnpackVendor(PackVendor(c).value) == Err(OSError)
  {
    var c := OneFragment("a/b", "");
    hide PackVendor, UnpackVendor, Links, Banned, VendorInfoOf;
    NotBanned("a/b");
    NotBanned("");
    OneFragmentIsAccepted("a/b", "");
    UnpackReturnsVendor(c);
    assert AllFragments(c) == c.fragments && c.fragments[0].name[1] == '/';
    assert !Linkable(c.fragments);
  }

  lemma NotBanned(s: string)
    requires |s| < 4 && forall i :: 0 <= i < |s| ==> s[i] as int < 128
    ensures |Encode(s)| < 4 && Encode(s) != Banned()
  {
    AsciiText(s);
  }

  /** A fragment or a command line "-v" is packed and unpacked, and the formatted arguments do not pack. */
  lemma DashedTextsAreLost(name: string, cmdline: string)
    requires (name, cmdline) == ("-v", "") || (name, cmdline) == ("a", "-v")
    ensures var c := OneFragment(name, cmdline);
            && PlainVendor(c) && PackVendor(c).Ok? && VendorAddressesAreNat(c)
            && PlainVendor(FormatVendor(VendorInfoOf(c)))
            && UnpackVendor(PackVendor(c).value) == Ok(VendorInfoOf(c))
            && PackFormattedVendor(VendorInfoOf(c)) == Err(ArgumentError)
  {
    var c := OneFragment(name, cmdline);
    hide PackVendor, UnpackVendor, Links, Banned, IsValue, IsName, VendorInfoOf, FormatVendor;
    NotBanned(name);
    NotBanned(cmdline);
    OneFragmentIsAccepted(name, cmdline);
    VendorRepackIsIdentity(c);
    ShortExamples();
    assert AllFragments(c) == c.fragments;
    SameTexts(c);
    assert NamesAreValues(c.fragments) ==> IsName(c.fragments[0].name);
  }
}
