/** Every byte of a vendor boot image in terms of the command line, at the offsets of the format itself. */
module VendorBytes {
  import opened Bits
  import opened Bytes
  import opened Utf8
  import opened Paging
  import opened Format
  import opened BootHeader
  import opened BootImage
  import opened BootRepack
  import opened BootBytes
  import opened VendorTable
  import opened VendorBoot
  import opened VendorRepack

  /** The fragments of an image: the vendor ramdisk, of type 1 and without name or board, and the option groups. */
  function Listed(c: VendorCommand): seq<Fragment> {
    (match c.vendorRamdisk
     case None => []
     case Some(data) => [Fragment(data, 1, "", [0, 0, 0, 0, 0, 0, 0, 0, 0, 0, 0, 0, 0, 0, 0, 0])])
    + c.fragments
  }

  /** The data of all fragments, one after the other. */
  function Joined(fragments: seq<Fragment>): bytes {
    if fragments == [] then [] else Joined(fragments[..|fragments| - 1]) + fragments[|fragments| - 1].data
  }

  function VendorHeaderLength(c: VendorCommand): nat { if c.headerVersion == 3 then 2112 else 2128 }

  ghost predicate VendorWords(file: bytes, c: VendorCommand) {
    && |file| >= VendorHeaderLength(c) && file[..8] == [0x56, 0x4E, 0x44, 0x52, 0x42, 0x4F, 0x4F, 0x54]
    && Has32(file, 8, c.headerVersion) && Has32(file, 12, c.pagesize)
    && Has32(file, 16, c.base + c.kernelOffset) && Has32(file, 20, c.base + c.ramdiskOffset)
    && Has32(file, 24, if c.headerVersion == 3 then |Data(c.vendorRamdisk)| else |Joined(Listed(c))|)
    && HasField(file, 28, 2048, Encode(c.vendorCmdline)) && Has32(file, 2076, c.base + c.tagsOffset)
    && HasField(file, 2080, 16, Encode(c.board)) && Has32(file, 2096, VendorHeaderLength(c))
    && Has32(file, 2100, |Data(c.dtb)|) && Has64(file, 2104, c.base + c.dtbOffset)
    && (c.headerVersion == 4 ==>
          && Has32(file, 2112, 108 * |Listed(c)|) && Has32(file, 2116, |Listed(c)|) && Has32(file, 2120, 108)
          && Has32(file, 2124, |Data(c.bootconfig)|))
  }

  /** Entry i of the table, at 108 * i: size and offset of the data, type, name and board. */
  ghost predicate HasEntry(table: bytes, fragments: seq<Fragment>, i: nat)
    requires i < |fragments|
  {
    var off, f := 108 * i, fragments[i];
    && Has32(table, off, |f.data|) && Has32(table, off + 4, |Joined(fragments[..i])|) && Has32(table, off + 8, f.kind)
    && HasField(table, off + 12, 32, Encode(f.name)) && |f.boardId| == 16
    && HasWords(table, off + 44, f.boardId)
  }

  /** Numbers one after the other. */
  ghost predicate HasWords(table: bytes, off: nat, words: seq<int>) {
    forall j :: 0 <= j < |words| ==> HasWord(table, off, words, j)
  }

  ghost predicate HasWord(table: bytes, off: nat, words: seq<int>, j: nat)
    requires j < |words|
  {
    Has32(table, off + 4 * j, words[j])
  }

  /** The files behind the header. */
  function VendorFiles(c: VendorCommand, table: bytes): seq<bytes> {
    if c.headerVersion == 3 then [Data(c.vendorRamdisk), Data(c.dtb)]
    else [Joined(Listed(c)), Data(c.dtb), table, Data(c.bootconfig)]
  }

  /** Every byte of a vendor boot image. */
  lemma VendorImageBytes(c: VendorCommand) returns (table: bytes)
    requires PlainVendor(c) && PackVendor(c).Ok?
    ensures c.headerVersion in {3, 4} && c.pagesize in {2048, 4096, 8192, 16384}
    ensures VendorWords(PackVendor(c).value, c)
    ensures c.headerVersion == 4 ==>
              |table| == 108 * |Listed(c)| && forall i :: 0 <= i < |Listed(c)| ==> HasEntry(table, Listed(c), i)
    ensures var file := PackVendor(c).value;
            Laid(file, 0, [file[..VendorHeaderLength(c)]] + VendorFiles(c, table), c.pagesize)
  {
    hide PackVendor, TableOf, BuildTable, HeaderReads, VendorLayout, ArgumentsFit, PlainVendor, VendorWords, Listed,
      Joined, VendorFiles, Laid, HasEntry, AllPackable, VFieldsOf, WriteVendor;
    PackedVendor(c);
    PackIsWrite(c);
    var t, file := TableOf(c), PackVendor(c).value;
    TableIsListed(c);
    VendorWordsAre(c, t, file);
    VendorFilesInOrder(c, t);
    if c.headerVersion == 4 {
      table := TableBytes(t.entries);
      EntriesAre(c, t);
    } else {
      table := [];
    }
  }

  lemma TableIsListed(c: VendorCommand)
    requires PlainVendor(c) && PackVendor(c).Ok? && 3 <= c.headerVersion <= 4 && ArgumentsFit(c)
    requires c.headerVersion > 3 ==> BuildTable(c).Ok?
    ensures ShortNames(c.fragments)
    ensures c.headerVersion == 4 ==> ListedAs(TableOf(c), Listed(c))
  {
    hide Describes, Good, PackVendor, PlainVendor;
    if c.headerVersion == 4 {
      BuiltTable(c);
      ListedIsAll(c);
    }
  }

  lemma ListedIsAll(c: VendorCommand)
    ensures Listed(c) == AllFragments(c)
  {
    if c.vendorRamdisk.Some? { assert Listed(c)[0].boardId == NoBoard(); }
  }

  /** A good table with one entry for every fragment. */
  ghost predicate ListedAs(t: Table, fragments: seq<Fragment>) {
    && Good(t) && |t.entries| == |fragments|
    && forall i :: 0 <= i < |fragments| ==> Describes(t.entries[i], fragments[i])
  }

  lemma {:induction false} ConcatIsJoined(entries: seq<Entry>, fragments: seq<Fragment>)
    requires |entries| == |fragments| && forall i :: 0 <= i < |fragments| ==> Describes(entries[i], fragments[i])
    ensures Concat(entries) == Joined(fragments)
  {
    if entries != [] {
      ConcatIsJoined(entries[..|entries| - 1], fragments[..|entries| - 1]);
      assert Describes(entries[|entries| - 1], fragments[|entries| - 1]);
    }
  }

  lemma TotalIsJoined(t: Table, fragments: seq<Fragment>)
    requires ListedAs(t, fragments)
    ensures Concat(t.entries) == Joined(fragments) && t.total == |Joined(fragments)|
  {
    hide Describes, GoodNames, Concat, Joined;
    ConcatIsJoined(t.entries, fragments);
  }

  lemma VendorWordsAre(c: VendorCommand, t: Table, file: bytes)
    requires PlainVendor(c) && ArgumentsFit(c) && HeaderReads(file, VFieldsOf(c, t)) && 3 <= c.headerVersion <= 4
    requires c.headerVersion == 4 ==> ListedAs(t, Listed(c))
    ensures VendorWords(file, c)
  {
    hide Has32, Has64, HasField, BootHeader.Word, Long, ListedAs, Joined, Encode, Listed;
    ReadWords(file);
    SizeIs(c.vendorRamdisk);
    SizeIs(c.dtb);
    SizeIs(c.bootconfig);
    if c.headerVersion == 4 {
      TotalIsJoined(t, Listed(c));
      ListedCount(t, Listed(c));
    }
    TerminatedField(file, 28, 2048, Encode(c.vendorCmdline));
    TerminatedField(file, 2080, 16, Encode(c.board));
  }

  lemma ListedCount(t: Table, fragments: seq<Fragment>)
    requires ListedAs(t, fragments)
    ensures |t.entries| == |fragments|
  {
  }

  lemma VendorFilesInOrder(c: VendorCommand, t: Table)
    requires PlainVendor(c) && IsPageSize(c.pagesize) && 3 <= c.headerVersion <= 4 && WriteVendor(c, t).Ok?
    requires c.headerVersion == 4 ==> AllPackable(t.entries) && ListedAs(t, Listed(c))
    ensures var file, table := WriteVendor(c, t).value, if c.headerVersion == 4 then TableBytes(t.entries) else [];
            && |file| >= VendorHeaderLength(c)
            && Laid(file, 0, [file[..VendorHeaderLength(c)]] + VendorFiles(c, table), c.pagesize)
  {
    hide RenderV, VSections, WriteAll, Pad, Pow2, Laid, VendorFiles, AllPackable, TableBytes, ListedAs, VFieldsOf,
      PackableV;
    var file, table := WriteVendor(c, t).value, if c.headerVersion == 4 then TableBytes(t.entries) else [];
    var f, p: nat := VFieldsOf(c, t), c.pagesize;
    var k := PageSizes(p);
    VendorFilesAre(c, t, table);
    HeaderIsLaid(RenderV(f), VSections(c, t), p, k, VendorFiles(c, table));
    PrefixStays(Pad(RenderV(f), p), VSections(c, t), p);
    VendorHeaderFirst(c, t, file);
    assert file[..|RenderV(f)|] == RenderV(f);
  }

  lemma VendorFilesAre(c: VendorCommand, t: Table, table: bytes)
    requires 3 <= c.headerVersion <= 4
    requires c.headerVersion == 4 ==> AllPackable(t.entries) && ListedAs(t, Listed(c)) && table == TableBytes(t.entries)
    ensures var all, s := VendorFiles(c, table), VSections(c, t);
            |all| == |s| && forall i :: 0 <= i < |all| ==> all[i] == Content(s[i])
  {
    hide Concat, Joined, TableBytes, AllPackable, ListedAs, Listed;
    if c.headerVersion == 4 { TotalIsJoined(t, Listed(c)); }
  }

  lemma VendorHeaderFirst(c: VendorCommand, t: Table, file: bytes)
    requires PlainVendor(c) && PackableV(VFieldsOf(c, t)) && c.pagesize > 0
    requires Pad(RenderV(VFieldsOf(c, t)), c.pagesize) <= file
    ensures RenderV(VFieldsOf(c, t)) <= file && |RenderV(VFieldsOf(c, t))| == VendorHeaderLength(c)
  {
    hide RenderV;
  }

  lemma EntriesAre(c: VendorCommand, t: Table)
    requires c.headerVersion == 4 && AllPackable(t.entries) && ListedAs(t, Listed(c)) && PlainVendor(c)
    requires ShortNames(c.fragments)
    ensures |TableBytes(t.entries)| == 108 * |Listed(c)|
    ensures forall i :: 0 <= i < |Listed(c)| ==> HasEntry(TableBytes(t.entries), Listed(c), i)
  {
    hide AllPackable, ListedAs, HasEntry, TableBytes, Encode;
    ListedCount(t, Listed(c));
    forall i | 0 <= i < |Listed(c)| ensures HasEntry(TableBytes(t.entries), Listed(c), i) {
      ShortListedName(c, i);
      OneEntry(t, Listed(c), i);
    }
  }

  lemma ShortListedName(c: VendorCommand, i: nat)
    requires ShortNames(c.fragments) && i < |Listed(c)|
    ensures |Encode(Listed(c)[i].name)| <= 31
  {
    var n := |Listed(c)| - |c.fragments|;
    if i >= n { assert Listed(c)[i] == c.fragments[i - n]; }
  }

  lemma OneEntry(t: Table, fragments: seq<Fragment>, i: nat)
    requires AllPackable(t.entries) && ListedAs(t, fragments) && i < |fragments| && |Encode(fragments[i].name)| <= 31
    ensures HasEntry(TableBytes(t.entries), fragments, i)
  {
    hide TableBytes, EntryBytes, Concat, Joined, Has32, HasField, HasWords, BootHeader.Word, BoardAt, PackS, Encode,
      AllPackable, ListedAs, PackableEntry, Describes;
    ListedCount(t, fragments);
    var e, f, table := t.entries[i], fragments[i], TableBytes(t.entries);
    EntryIs(t, fragments, i);
    EntryAt(t.entries, i);
    EntryFields(table, 108 * i, e);
    ReadWords(table);
    EntryName(table, 108 * i + 12, e, f);
    BoardWords(table, 108 * i + 44);
  }

  lemma EntryIs(t: Table, fragments: seq<Fragment>, i: nat)
    requires AllPackable(t.entries) && ListedAs(t, fragments) && i < |fragments|
    ensures |t.entries| == |fragments| && PackableEntry(t.entries[i]) && Describes(t.entries[i], fragments[i])
    ensures var e, f := t.entries[i], fragments[i];
            && e.data == f.data && e.kind == f.kind && e.boardId == f.boardId && |f.boardId| == 16
            && e.offset == |Joined(fragments[..i])|
  {
    hide Concat, Joined, AllFit32;
    var e := t.entries[i];
    assert Describes(e, fragments[i]) && PackableEntry(e) && GoodEntry(e);
    ConcatIsJoined(t.entries[..i], fragments[..i]);
  }

  lemma BoardWords(table: bytes, off: nat)
    requires off + 64 <= |table|
    ensures HasWords(table, off, BoardAt(table, off))
  {
    hide Has32, BootHeader.Word;
    ReadWords(table);
    var words := BoardAt(table, off);
    forall j | 0 <= j < |words| ensures HasWord(table, off, words, j) {
      assert words[j] == BootHeader.Word(table, off + 4 * j);
    }
  }

  lemma EntryName(table: bytes, off: nat, e: Entry, f: Fragment)
    requires Describes(e, f) && |Encode(f.name)| <= 31 && off + 32 <= |table|
    requires table[off..off + 32] == PackS(32, e.name)
    ensures HasField(table, off, 32, Encode(f.name))
  {
    hide HasField, PackS;
    if e.name == [] {
      NoField(table, off, 32);
      assert Encode([]) == [];
    } else {
      TerminatedField(table, off, 32, Encode(f.name));
    }
  }

  // ----- which command lines make an image

  predicate VendorArgumentsAreGood(c: VendorCommand) {
    && |Encode(c.vendorCmdline)| <= 2047 && |Encode(c.board)| <= 15 && c.pagesize in {2048, 4096, 8192, 16384}
    && forall i :: 0 <= i < |c.fragments| ==> |Encode(c.fragments[i].name)| <= 31
  }

  predicate AddressesFit(c: VendorCommand) {
    && In32(c.base + c.kernelOffset) && In32(c.base + c.ramdiskOffset) && In32(c.base + c.tagsOffset)
    && In32(|Data(c.dtb)|) && In64(c.base + c.dtbOffset)
  }

  /** The option groups: no name twice, none that is reserved, sixteen board numbers, and numbers that fit. */
  predicate GroupsAreGood(c: VendorCommand) {
    && (forall i :: 0 <= i < |c.fragments| ==> GroupIsGood(c, c.fragments[i]))
    && (forall i, j :: 0 <= i < j < |c.fragments| ==> c.fragments[i].name != c.fragments[j].name)
    && In32(|Joined(Listed(c))|) && In32(108 * |Listed(c)|)
  }

  predicate GroupIsGood(c: VendorCommand, f: Fragment) {
    && f.name != "default" && (f.name == "" ==> c.vendorRamdisk.None?) && In32(f.kind)
    && |f.boardId| == 16 && forall j :: 0 <= j < 16 ==> In32(f.boardId[j])
  }

  /** A vendor image is made exactly from these command lines. */
  lemma MakesVendorImageIff(c: VendorCommand)
    requires PlainVendor(c)
    ensures PackVendor(c).Ok? <==>
              && VendorArgumentsAreGood(c) && AddressesFit(c)
              && (   (c.headerVersion == 3 && c.fragments == [] && c.vendorRamdisk.Some?
                     && In32(|Data(c.vendorRamdisk)|))
                  || (c.headerVersion == 4 && GroupsAreGood(c) && In32(|Data(c.bootconfig)|)))
  {
    hide ArgumentsFit, VendorArgumentsAreGood, AddressesFit, GroupsAreGood, BuildTable, WriteVendor, PlainVendor;
    GoodVendorArguments(c);
    if VendorArgumentsAreGood(c) {
      if c.headerVersion == 3 { Writes3Iff(c); }
      if c.headerVersion == 4 { Writes4Iff(c); }
    }
  }

  lemma GoodVendorArguments(c: VendorCommand)
    ensures ArgumentsFit(c) <==> VendorArgumentsAreGood(c)
    ensures ArgumentsFit(c) ==> IsPageSize(c.pagesize)
  {
    hide Encode;
  }

  lemma Writes3Iff(c: VendorCommand)
    requires PlainVendor(c) && IsPageSize(c.pagesize) && c.headerVersion == 3
    ensures WriteVendor(c, EmptyTable()).Ok? <==> AddressesFit(c) && In32(|Data(c.vendorRamdisk)|)
  {
    hide RenderV, WriteAll, Pad, VSections, Encode, Asciiz;
    SizeIs(c.vendorRamdisk);
    SizeIs(c.dtb);
  }

  lemma Writes4Iff(c: VendorCommand)
    requires PlainVendor(c) && IsPageSize(c.pagesize) && c.headerVersion == 4
    ensures BuildTable(c).Ok? && WriteVendor(c, BuildTable(c).value).Ok? <==>
              AddressesFit(c) && GroupsAreGood(c) && In32(|Data(c.bootconfig)|)
  {
    hide BuildTable, WriteVendor, AddressesFit, Joined, Listed, PlainVendor, GroupIsGood, KindsFit;
    GroupsIff(c);
    if BuildTable(c).Ok? {
      WritesTableIff(c, BuildTable(c).value);
    }
  }

  predicate KindsFit(fragments: seq<Fragment>) { forall i :: 0 <= i < |fragments| ==> In32(fragments[i].kind) }

  /** The table is built exactly when every group is good but for its type, which is looked at later. */
  lemma GroupsIff(c: VendorCommand)
    requires PlainVendor(c)
    ensures BuildTable(c).Ok? && KindsFit(c.fragments) <==>
              && (forall i :: 0 <= i < |c.fragments| ==> GroupIsGood(c, c.fragments[i]))
              && (forall i, j :: 0 <= i < j < |c.fragments| ==> c.fragments[i].name != c.fragments[j].name)
  {
    hide Strip, Encode, Banned, AddAll, Acceptable, GroupIsGood;
    FirstNames(c);
    var t := FirstTable(c).value;
    AcceptedGroups(t, c.fragments);
    forall i | 0 <= i < |c.fragments|
      ensures GroupIsGood(c, c.fragments[i]) <==> Acceptable(t, c.fragments[i]) && In32(c.fragments[i].kind)
    {
      GroupIff(c, t, c.fragments[i]);
    }
  }

  lemma FirstNames(c: VendorCommand)
    ensures FirstTable(c).Ok? && FirstTable(c).value.names == if c.vendorRamdisk.Some? then {[]} else {}
  {
    hide Banned;
    EmptyNames();
    BoardOfZeros();
  }

  lemma GroupIff(c: VendorCommand, t: Table, f: Fragment)
    requires Plain(f.name) && t.names == if c.vendorRamdisk.Some? then {[]} else {}
    ensures GroupIsGood(c, f) <==> Acceptable(t, f) && In32(f.kind)
  {
    ReservedName(f.name);
    NameOfNoBytes(f.name);
    hide Encode, Banned;
  }

  lemma ReservedName(name: string)
    ensures Encode(name) == Banned() <==> name == "default"
  {
    AsciiText("default");
    assert Encode("default") == Banned();
    if Encode(name) == Banned() { EncodeInjective(name, "default"); }
  }

  lemma NameOfNoBytes(name: string)
    ensures Encode(name) == [] <==> name == ""
  {
  }

  lemma WritesTableIff(c: VendorCommand, t: Table)
    requires PlainVendor(c) && IsPageSize(c.pagesize) && c.headerVersion == 4 && BuildTable(c) == Ok(t)
    ensures WriteVendor(c, t).Ok? <==>
              && AddressesFit(c) && In32(|Data(c.bootconfig)|) && KindsFit(c.fragments)
              && In32(|Joined(Listed(c))|) && In32(108 * |Listed(c)|)
  {
    hide RenderV, WriteAll, Pad, VSections, Encode, Asciiz, BuildTable, AllPackable, ListedAs, Joined, Listed, KindsFit;
    SizeIs(c.bootconfig);
    SizeIs(c.dtb);
    IsListed(c, t);
    TotalIsJoined(t, Listed(c));
    ListedCount(t, Listed(c));
    if In32(t.total) { PackableIff(c, t); }
  }

  lemma IsListed(c: VendorCommand, t: Table)
    requires PlainVendor(c) && BuildTable(c) == Ok(t)
    ensures ListedAs(t, Listed(c))
  {
    hide Describes, Good, BuildTable;
    BuiltTable(c);
    ListedIsAll(c);
  }

  /** When the total fits, so does every size and offset. */
  lemma PackableIff(c: VendorCommand, t: Table)
    requires ListedAs(t, Listed(c)) && In32(t.total)
    ensures AllPackable(t.entries) <==> KindsFit(c.fragments)
  {
    hide ListedAs, PackableEntry, Describes;
    var all, n := Listed(c), |Listed(c)| - |c.fragments|;
    ListedCount(t, all);
    forall i | 0 <= i < |all| ensures PackableEntry(t.entries[i]) <==> In32(all[i].kind) {
      PackableEntryIff(t, all, i);
    }
    assert forall i :: 0 <= i < |c.fragments| ==> c.fragments[i] == all[n + i];
    assert forall i :: n <= i < |all| ==> all[i] == c.fragments[i - n];
    assert n == 1 ==> all[0].kind == 1;
  }

  lemma PackableEntryIff(t: Table, all: seq<Fragment>, i: nat)
    requires ListedAs(t, all) && In32(t.total) && i < |all|
    ensures |t.entries| == |all| && (PackableEntry(t.entries[i]) <==> In32(all[i].kind))
  {
    hide GoodNames, Concat, AllFit32;
    assert Describes(t.entries[i], all[i]) && GoodEntry(t.entries[i]);
    FragmentAtOffset(t.entries, i);
  }
}
