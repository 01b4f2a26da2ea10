/** mkbootimg.py --vendor_boot as it runs. */
module MkVendorBoot {
  import opened Bytes
  import opened Paging
  import opened BootHeader
  import opened BootImage
  import opened MkBootImg
  import opened VendorTable
  import opened VendorBoot
  import opened VendorRepack

  class VendorRamdiskTableBuilder {
    var entries: seq<Entry>
    var ramdiskTotalSize: nat
    var ramdiskNames: set<bytes>

    ghost function State(): Table
      reads this
    {
      Table(entries, ramdiskTotalSize, ramdiskNames)
    }

    constructor ()
      ensures State() == EmptyTable()
    {
      entries, ramdiskTotalSize, ramdiskNames := [], 0, {};
    }

    /** add_entry: a refused entry changes nothing but, past the name checks, the set of names. */
    method AddEntry(data: bytes, kind: int, name: bytes, boardId: Option<seq<int>>) returns (s: Status)
      modifies this
      ensures s.Fine? <==> VendorTable.AddEntry(old(State()), data, kind, name, boardId).Ok?
      ensures s.Fine? ==> State() == VendorTable.AddEntry(old(State()), data, kind, name, boardId).value
      ensures s.Raised? ==> s.error == VendorTable.AddEntry(old(State()), data, kind, name, boardId).error
      ensures s.Raised? ==> entries == old(entries) && ramdiskTotalSize == old(ramdiskTotalSize)
    {
      hide Strip, Banned, AllFit32;
      var stripped := Strip(name);
      if stripped == Banned() { return Raised(ValueError); }
      if stripped in ramdiskNames { return Raised(ValueError); }
      ramdiskNames := ramdiskNames + {stripped};
      var board := boardId.Or(NoBoard());
      if !AllFit32(board) { return Raised(OverflowError); }
      if |board| != BOARD_ID_SIZE { return Raised(ValueError); }
      entries := entries + [Entry(data, ramdiskTotalSize, kind, name, board)];
      ramdiskTotalSize := ramdiskTotalSize + |data|;
      return Fine;
    }

    method WriteRamdisksPadded(out: OutFile, alignment: nat)
      requires alignment > 0
      modifies out
      ensures out.data == WritePadded(old(out.data), Some(Concat(entries)), alignment)
    {
      assert entries[..0] == [];
      for i := 0 to |entries|
        invariant out.data == old(out.data) + Concat(entries[..i])
      {
        assert entries[..i + 1][..i] == entries[..i];
        assert old(out.data) + Concat(entries[..i + 1]) == old(out.data) + Concat(entries[..i]) + entries[i].data;
        out.Write(entries[i].data);
      }
      assert entries[..|entries|] == entries;
      out.PadFile(alignment);
    }

    method WriteEntriesPadded(out: OutFile, alignment: nat) returns (s: Status)
      requires alignment > 0 && forall i :: 0 <= i < |entries| ==> GoodEntry(entries[i])
      modifies out
      ensures s.Fine? <==> AllPackable(entries)
      ensures s.Fine? ==> out.data == WritePadded(old(out.data), Some(TableBytes(entries)), alignment)
    {
      NoEntries(entries);
      hide EntryBytes, PackableEntry, GoodEntry, TableBytes, AllPackable;
      for i := 0 to |entries|
        invariant AllPackable(entries[..i])
        invariant out.data == old(out.data) + TableBytes(entries[..i])
      {
        NextEntry(old(out.data), entries, i);
        var status := WriteEntry(out, entries[i]);
        if status.Raised? { return status; }
      }
      assert entries[..|entries|] == entries;
      out.PadFile(alignment);
      return Fine;
    }
  }

  lemma NoEntries(entries: seq<Entry>)
    ensures AllPackable(entries[..0]) && TableBytes(entries[..0]) == []
  {
  }

  lemma NextEntry(data: bytes, entries: seq<Entry>, i: nat)
    requires i < |entries| && AllPackable(entries[..i])
    ensures AllPackable(entries[..i + 1]) <==> PackableEntry(entries[i])
    ensures AllPackable(entries) ==> PackableEntry(entries[i])
    ensures PackableEntry(entries[i]) ==>
              data + TableBytes(entries[..i + 1]) == data + TableBytes(entries[..i]) + EntryBytes(entries[i])
  {
    hide EntryBytes, PackableEntry;
    var next := entries[..i + 1];
    assert next[..i] == entries[..i] && next[i] == entries[i];
    assert forall j :: 0 <= j < i ==> next[j] == entries[..i][j];
  }

  /** One round of write_entries_padded. */
  method WriteEntry(out: OutFile, e: Entry) returns (s: Status)
    requires GoodEntry(e)
    modifies out
    ensures s.Fine? <==> PackableEntry(e)
    ensures s.Fine? ==> out.data == old(out.data) + EntryBytes(e)
  {
    hide U32, PackS, Words, AllFit32, Fits32;
    :- out.WriteI(|e.data|);
    :- out.WriteI(e.offset);
    :- out.WriteI(e.kind);
    out.Write(PackS(32, e.name));
    out.Write(Words(e.boardId));
    ghost var d := old(out.data);
    assert out.data == d + EntryBytes(e);
    return Fine;
  }

  /** parse_vendor_ramdisk_args: the vendor ramdisk, then one entry for every option group. */
  method ParseVendorRamdiskArgs(c: VendorCommand) returns (s: Status, builder: VendorRamdiskTableBuilder)
    requires PlainVendor(c)
    ensures fresh(builder)
    ensures s.Fine? <==> BuildTable(c).Ok?
    ensures s.Fine? ==> builder.State() == BuildTable(c).value
  {
    builder := new VendorRamdiskTableBuilder();
    hide AddEntry;
    if c.vendorRamdisk.Some? {
      s := builder.AddEntry(c.vendorRamdisk.value, VENDOR_RAMDISK_TYPE_PLATFORM, [], None);
      if s.Raised? { return; }
    }
    var argsList := c.fragments;
    while argsList != []
      invariant PlainNames(argsList)
      invariant FirstTable(c).Ok?
      invariant AddAll(builder.State(), argsList) == BuildTable(c)
      invariant fresh(builder)
      decreases |argsList|
    {
      var f := argsList[0];
      s := builder.AddEntry(f.data, f.kind, Asciiz(f.name), Some(f.boardId));
      if s.Raised? { return; }
      argsList := argsList[1..];
    }
    s := Fine;
  }

  /** The words in front of the command line. */
  method WriteBaseA(out: OutFile, f: VFields) returns (s: Status)
    requires 3 <= f.version <= 4 && IsPageSize(f.pageSize) && out.data == []
    modifies out
    ensures s.Fine? <==> PackableA(f)
    ensures s.Fine? ==> out.data == BaseA(f)
  {
    hide U32, VendorMagic;
    out.Write(VendorMagic());
    assert out.data == VendorMagic();
    out.Write(U32(f.version));
    out.Write(U32(f.pageSize));
    :- out.WriteI(f.kernelAddr);
    :- out.WriteI(f.ramdiskAddr);
    :- out.WriteI(f.ramdiskSize);
    return Fine;
  }

  /** write_vendor_boot_header */
  method WriteVendorBootHeader(out: OutFile, c: VendorCommand, t: Table) returns (s: Status)
    requires PlainVendor(c) && IsPageSize(c.pagesize) && 3 <= c.headerVersion <= 4 && out.data == []
    modifies out
    ensures s.Fine? <==> PackableV(VFieldsOf(c, t))
    ensures s.Fine? ==> out.data == Pad(RenderV(VFieldsOf(c, t)), c.pagesize)
  {
    hide U32, U64, PackS, Pad, Fits64, PackableA, BaseA, Size, Asciiz;
    :- WriteBaseA(out, VFieldsOf(c, t));
    out.Write(PackS(2048, Asciiz(c.vendorCmdline)));
    :- out.WriteI(c.base + c.tagsOffset);
    out.Write(PackS(16, Asciiz(c.board)));
    out.Write(U32(HeaderSize(c.headerVersion)));
    :- out.WriteI(Size(c.dtb));
    :- out.WriteQ(c.base + c.dtbOffset);
    assert out.data == BaseC(VFieldsOf(c, t));
    if c.headerVersion > 3 {
      :- out.WriteI(108 * |t.entries|);
      out.Write(U32(|t.entries|));
      out.Write(U32(108));
      :- out.WriteI(Size(c.bootconfig));
    }
    out.PadFile(c.pagesize);
    return Fine;
  }

  /** write_vendor_boot_data */
  method WriteVendorBootData(out: OutFile, c: VendorCommand, builder: VendorRamdiskTableBuilder) returns (s: Status)
    requires IsPageSize(c.pagesize) && 3 <= c.headerVersion <= 4
    requires forall i :: 0 <= i < |builder.entries| ==> GoodEntry(builder.entries[i])
    modifies out
    ensures s.Fine? <==> (c.headerVersion > 3 ==> AllPackable(builder.entries))
    ensures s.Fine? ==> out.data == WriteAll(old(out.data), VSections(c, builder.State()), c.pagesize)
  {
    hide WritePadded, Concat, TableBytes, AllPackable, WriteAll;
    if c.headerVersion > 3 {
      builder.WriteRamdisksPadded(out, c.pagesize);
      ghost var first := out.data;
      out.WritePaddedFile(c.dtb, c.pagesize);
      :- builder.WriteEntriesPadded(out, c.pagesize);
      out.WritePaddedFile(c.bootconfig, c.pagesize);
      WriteFour(old(out.data), VSections(c, builder.State()), c.pagesize);
    } else {
      out.WritePaddedFile(c.vendorRamdisk, c.pagesize);
      out.WritePaddedFile(c.dtb, c.pagesize);
      WriteTwo(old(out.data), VSections(c, builder.State()), c.pagesize);
    }
    return Fine;
  }

  lemma WriteTwo(data: bytes, s: seq<Option<bytes>>, p: nat)
    requires p > 0 && |s| >= 2
    ensures WriteAll(data, s, p) == WriteAll(WritePadded(WritePadded(data, s[0], p), s[1], p), s[2..], p)
    ensures |s| == 2 ==> WriteAll(data, s, p) == WritePadded(WritePadded(data, s[0], p), s[1], p)
  {
    hide WritePadded;
    assert s[0..] == s;
    WriteStep(data, s, 0, p);
    WriteStep(WritePadded(data, s[0], p), s, 1, p);
  }

  lemma WriteFour(data: bytes, s: seq<Option<bytes>>, p: nat)
    requires p > 0 && |s| == 4
    ensures WriteAll(data, s, p) ==
              WritePadded(WritePadded(WritePadded(WritePadded(data, s[0], p), s[1], p), s[2], p), s[3], p)
  {
    hide WritePadded, WriteAll;
    WriteTwo(data, s, p);
    WriteTwo(WritePadded(WritePadded(data, s[0], p), s[1], p), s[2..], p);
  }

  lemma TableIsGood(c: VendorCommand)
    requires PlainVendor(c) && BuildTable(c).Ok?
    ensures forall i :: 0 <= i < |BuildTable(c).value.entries| ==> GoodEntry(BuildTable(c).value.entries[i])
  {
    BuiltTable(c);
  }

  /** The whole tool, for a vendor boot image: the file is the packed image, or an exception is raised. */
  method MakeVendorBoot(c: VendorCommand) returns (s: Status, out: OutFile)
    requires PlainVendor(c)
    ensures fresh(out)
    ensures s.Fine? <==> PackVendor(c).Ok?
    ensures s.Fine? ==> out.data == PackVendor(c).value
  {
    out := new OutFile();
    hide ArgumentsFit, BuildTable, PackableV, RenderV, VFieldsOf, VSections, WriteAll, Pad, PlainVendor;
    if !ArgumentsFit(c) { return Raised(ArgumentTypeError), out; }
    var builder := new VendorRamdiskTableBuilder();
    if c.headerVersion > 3 {
      s, builder := ParseVendorRamdiskArgs(c);
      if s.Raised? { return; }
      TableIsGood(c);
    } else if c.fragments != [] {
      return Raised(ValueError), out;
    }
    if c.headerVersion != 3 && c.headerVersion != 4 { return Raised(ValueError), out; }
    if c.headerVersion == 3 && c.vendorRamdisk.None? { return Raised(ValueError), out; }
    AcceptedPage(c);
    s := WriteVendorBootHeader(out, c, Table(builder.entries, builder.ramdiskTotalSize, builder.ramdiskNames));
    if s.Raised? { return; }
    s := WriteVendorBootData(out, c, builder);
  }

  lemma AcceptedPage(c: VendorCommand)
    requires ArgumentsFit(c)
    ensures IsPageSize(c.pagesize)
  {
  }
}
