/** mkbootimg.py as it runs: files written step by step, and the table builder that is updated in place. */
module MkBootImg {
  import opened Bytes
  import opened Paging
  import opened BootHeader
  import opened BootImage

  /** How a statement ends: normally, or with an exception. */
  datatype Status = Fine | Raised(error: Error) {
    predicate IsFailure() { Raised? }
    function PropagateFailure(): Status requires Raised? { this }
  }

  /** An output file, with everything written so far. */
  class OutFile {
    var data: bytes

    constructor ()
      ensures data == []
    {
      data := [];
    }

    method Write(b: bytes)
      modifies this
      ensures data == old(data) + b
    {
      data := data + b;
    }

    /** write(pack('I', v)) */
    method WriteI(v: int) returns (s: Status)
      modifies this
      ensures s.Fine? <==> Fits32(v)
      ensures s.Fine? ==> data == old(data) + U32(v)
    {
      if !Fits32(v) { return Raised(StructError); }
      Write(U32(v));
      return Fine;
    }

    /** write(pack('Q', v)) */
    method WriteQ(v: int) returns (s: Status)
      modifies this
      ensures s.Fine? <==> Fits64(v)
      ensures s.Fine? ==> data == old(data) + U64(v)
    {
      if !Fits64(v) { return Raised(StructError); }
      Write(U64(v));
      return Fine;
    }

    /** pad_file: the file ends on a page boundary, with zeros after what was written. */
    method PadFile(padding: nat)
      requires padding > 0
      modifies this
      ensures data == Pad(old(data), padding)
    {
      Write(Zeros(PadLen(|data|, padding)));
    }

    method WritePaddedFile(file: Option<bytes>, padding: nat)
      requires padding > 0
      modifies this
      ensures data == WritePadded(old(data), file, padding)
    {
      if file.None? { return; }
      Write(file.value);
      PadFile(padding);
    }
  }

  // ----- write_header

  /** The hash object: the bytes it has been fed. */
  class Sha1 {
    var fed: bytes

    constructor ()
      ensures fed == []
    {
      fed := [];
    }

    /** update_sha: the file, then its size. */
    method Update(file: Option<bytes>, ghost before: seq<Option<bytes>>) returns (s: Status)
      requires SizesFit(before) && fed == ShaOf(before)
      modifies this
      ensures s.Fine? <==> SizesFit(before + [file])
      ensures s.Fine? ==> fed == ShaOf(before + [file])
    {
      SizesFitAppend(before, file);
      if !Fits32(Size(file)) { return Raised(StructError); }
      ShaOfAppend(before, file);
      fed := fed + Content(file) + U32(Size(file));
      return Fine;
    }
  }

  lemma SizesFitAppend(files: seq<Option<bytes>>, file: Option<bytes>)
    requires SizesFit(files)
    ensures SizesFit(files + [file]) <==> Fits32(Size(file))
  {
    assert (files + [file])[|files|] == file;
  }

  lemma {:induction false} ShaOfAppend(files: seq<Option<bytes>>, file: Option<bytes>)
    requires SizesFit(files) && Fits32(Size(file))
    ensures SizesFit(files + [file]) && ShaOf(files + [file]) == ShaOf(files) + Content(file) + U32(Size(file))
  {
    SizesFitAppend(files, file);
    var all := files + [file];
    if files == [] {
      assert all[1..] == [] && all[0] == file;
      assert ShaOf(all[1..]) == [];
    } else {
      assert all[1..] == files[1..] + [file];
      ShaOfAppend(files[1..], file);
    }
  }

  /** The files SHA-1 is fed, one by one. */
  method FeedSha(c: Command) returns (s: Status, fed: bytes)
    ensures s.Fine? <==> ShaInput(c).Some?
    ensures s.Fine? ==> fed == ShaInput(c).value
  {
    fed := [];
    var sha := new Sha1();
    EmptySha();
    hide ShaOf, SizesFit;
    ghost var files := [c.kernel];
    s := sha.Update(c.kernel, []);
    assert [] + [c.kernel] == files;
    if s.Raised? { ShaStops(c, files); return; }
    files := [c.kernel, c.ramdisk];
    assert [c.kernel] + [c.ramdisk] == files;
    s := sha.Update(c.ramdisk, [c.kernel]);
    if s.Raised? { ShaStops(c, files); return; }
    files := [c.kernel, c.ramdisk, c.second];
    assert [c.kernel, c.ramdisk] + [c.second] == files;
    s := sha.Update(c.second, [c.kernel, c.ramdisk]);
    if s.Raised? { ShaStops(c, files); return; }
    if c.headerVersion > 0 {
      files := [c.kernel, c.ramdisk, c.second, c.recoveryDtbo];
      assert [c.kernel, c.ramdisk, c.second] + [c.recoveryDtbo] == files;
      s := sha.Update(c.recoveryDtbo, [c.kernel, c.ramdisk, c.second]);
      if s.Raised? { ShaStops(c, files); return; }
    }
    if c.headerVersion > 1 {
      files := [c.kernel, c.ramdisk, c.second, c.recoveryDtbo, c.dtb];
      assert [c.kernel, c.ramdisk, c.second, c.recoveryDtbo] + [c.dtb] == files;
      s := sha.Update(c.dtb, [c.kernel, c.ramdisk, c.second, c.recoveryDtbo]);
      if s.Raised? { ShaStops(c, files); return; }
    }
    assert files == ShaFiles(c);
    fed := sha.fed;
  }

  lemma EmptySha()
    ensures SizesFit([]) && ShaOf([]) == []
  {
  }

  /** A file whose size does not pack stops it. */
  lemma ShaStops(c: Command, files: seq<Option<bytes>>)
    requires files <= ShaFiles(c) && !SizesFit(files)
    ensures ShaInput(c).None?
  {
    var i :| 0 <= i < |files| && !Fits32(Size(files[i]));
    assert ShaFiles(c)[i] == files[i];
  }

  /** The words in front of the name. */
  method WriteWords(out: OutFile, f: Fields) returns (s: Status)
    requires out.data == [] && f.version <= 2
    modifies out
    ensures s.Fine? <==> PackableWords(f)
    ensures s.Fine? ==> out.data == Base1(f)
  {
    assert Fits32(f.version) == (0 <= f.version);
    hide U32, Fits32, Magic;
    out.Write(Magic());
    :- out.WriteI(f.kernelSize);
    :- out.WriteI(f.kernelAddr);
    :- out.WriteI(f.ramdiskSize);
    :- out.WriteI(f.ramdiskAddr);
    :- out.WriteI(f.secondSize);
    :- out.WriteI(f.secondAddr);
    :- out.WriteI(f.tagsAddr);
    :- out.WriteI(f.pageSize);
    :- out.WriteI(f.version);
    :- out.WriteI(f.osWord);
    return Fine;
  }

  /** What versions 1 and 2 add behind the texts. */
  method WriteVersionFields(out: OutFile, c: Command, f: Fields) returns (s: Status)
    requires PlainCommand(c) && CheckArguments(c).Ok? && c.headerVersion <= 2
    requires f == FieldsWith(c, f.id) && PackableWords(f) && out.data == Base2(f)
    modifies out
    ensures s.Fine? <==> Packable(f) && (c.headerVersion == 2 ==> Size(c.dtb) > 0)
    ensures s.Fine? ==> out.data == Render(f)
  {
    assert Fits32(0) && Fits64(0);
    hide U32, U64, Fits32, Fits64, Base2, PackableWords, OsWord, FirstCmdline, ExtraCmdline, Asciiz, RecoveryDtboOffset;
    if c.headerVersion > 0 {
      if c.recoveryDtbo.Some? {
        :- out.WriteI(Size(c.recoveryDtbo));
        :- out.WriteQ(RecoveryDtboOffset(c));
      } else {
        out.Write(U32(0));
        out.Write(U64(0));
      }
    }
    if c.headerVersion == 1 {
      out.Write(U32(BOOT_IMAGE_HEADER_V1_SIZE));
    } else if c.headerVersion == 2 {
      out.Write(U32(BOOT_IMAGE_HEADER_V2_SIZE));
    }
    if c.headerVersion > 1 {
      if Size(c.dtb) == 0 { return Raised(ValueError); }
      :- out.WriteI(Size(c.dtb));
      :- out.WriteQ(c.base + c.dtbOffset);
    }
    return Fine;
  }

  /** write_header for versions 0 to 2. */
  method WriteHeader(out: OutFile, c: Command, sha: bytes -> bytes) returns (s: Status)
    requires PlainCommand(c) && CheckArguments(c).Ok? && c.headerVersion <= 2 && out.data == []
    modifies out
    ensures s.Fine? <==>
              ShaInput(c).Some? && Packable(FieldsOf(c, sha)) && (c.headerVersion == 2 ==> Size(c.dtb) > 0)
    ensures s.Fine? ==> out.data == Pad(Render(FieldsOf(c, sha)), c.pagesize)
  {
    hide ShaInput, Render, Pad, PackS, FieldsWith, Base1, PackableWords, Fits32, Fits64, PlainCommand;
    var words := FieldsWith(c, []);
    OnlyTheIdDiffers(c, if ShaInput(c).Some? then sha(ShaInput(c).value) else []);
    :- WriteWords(out, words);
    out.Write(PackS(16, words.name));
    out.Write(PackS(512, words.cmdline));
    var status, fed := FeedSha(c);
    if status.Raised? { return status; }
    var f := FieldsWith(c, sha(fed));
    out.Write(PackS(32, f.id));
    out.Write(PackS(1024, f.extraCmdline));
    :- WriteVersionFields(out, c, f);
    out.PadFile(c.pagesize);
    return Fine;
  }

  /** What is written besides the id does not depend on it. */
  lemma OnlyTheIdDiffers(c: Command, id: bytes)
    requires PlainCommand(c) && CheckArguments(c).Ok? && c.headerVersion <= 2
    ensures var f, g := FieldsWith(c, id), FieldsWith(c, []);
            && f.id == id && f == FieldsWith(c, f.id) && (PackableWords(f) <==> PackableWords(g))
            && (PackableWords(f) ==> Base1(f) == Base1(g))
            && f.name == g.name && f.cmdline == g.cmdline && f.version == g.version == c.headerVersion
  {
    hide OsWord, FirstCmdline, ExtraCmdline, Asciiz, RecoveryDtboOffset;
  }

  /** write_header_v3_and_above, without a signature. */
  method WriteHeaderV3(out: OutFile, c: Command) returns (s: Status)
    requires PlainCommand(c) && CheckArguments(c).Ok? && 3 <= c.headerVersion <= 4 && out.data == []
    modifies out
    ensures s.Fine? <==> Packable3(Fields3Of(c))
    ensures s.Fine? ==> out.data == Pad(Render3(Fields3Of(c)), 4096)
  {
    hide U32, Magic, PackS, Asciiz, OsWord, Pad, Zeros, Size;
    out.Write(Magic());
    assert out.data == Magic();
    :- out.WriteI(Size(c.kernel));
    :- out.WriteI(Size(c.ramdisk));
    :- out.WriteI(OsWord(c));
    out.Write(U32(if c.headerVersion > 3 then BOOT_IMAGE_HEADER_V4_SIZE else BOOT_IMAGE_HEADER_V3_SIZE));
    out.Write(Zeros(16));
    out.Write(U32(c.headerVersion));
    out.Write(PackS(1536, Asciiz(c.cmdline)));
    assert out.data == Magic() + U32(Size(c.kernel)) + U32(Size(c.ramdisk)) + U32(OsWord(c))
      + U32(if c.headerVersion > 3 then BOOT_IMAGE_HEADER_V4_SIZE else BOOT_IMAGE_HEADER_V3_SIZE)
      + Zeros(16) + U32(c.headerVersion) + PackS(1536, Asciiz(c.cmdline));
    if c.headerVersion >= 4 {
      out.Write(U32(0));
    }
    out.PadFile(4096);
    return Fine;
  }

  // ----- write_data

  lemma WriteStep(data: bytes, sections: seq<Option<bytes>>, i: nat, page: nat)
    requires page > 0 && i < |sections|
    ensures WriteAll(data, sections[i..], page)
            == WriteAll(WritePadded(data, sections[i], page), sections[i + 1..], page)
  {
    assert sections[i..][1..] == sections[i + 1..];
  }

  lemma WriteNone(data: bytes, sections: seq<Option<bytes>>, page: nat)
    requires page > 0 && sections == []
    ensures WriteAll(data, sections, page) == data
  {
  }

  method WriteData(out: OutFile, c: Command, page: nat)
    requires page > 0
    modifies out
    ensures out.data == WriteAll(old(out.data), Sections(c), page)
  {
    ghost var s := Sections(c);
    assert s[0..] == s && s[0] == c.kernel && s[1] == c.ramdisk && s[2] == c.second;
    hide WriteAll, WritePadded;
    WriteStep(out.data, s, 0, page);
    out.WritePaddedFile(c.kernel, page);
    WriteStep(out.data, s, 1, page);
    out.WritePaddedFile(c.ramdisk, page);
    WriteStep(out.data, s, 2, page);
    out.WritePaddedFile(c.second, page);
    if c.headerVersion > 0 && c.headerVersion < 3 {
      WriteStep(out.data, s, 3, page);
      out.WritePaddedFile(c.recoveryDtbo, page);
    }
    if c.headerVersion == 2 {
      WriteStep(out.data, s, 4, page);
      out.WritePaddedFile(c.dtb, page);
    }
    WriteNone(out.data, s[|s|..], page);
  }

  /** The whole tool, for a boot image: the file is the packed image, or an exception is raised. */
  method MakeBoot(c: Command, sha: bytes -> bytes) returns (s: Status, out: OutFile)
    requires PlainCommand(c)
    ensures fresh(out)
    ensures s.Fine? <==> Pack(c, sha).Ok?
    ensures s.Fine? ==> out.data == Pack(c, sha).value
  {
    out := new OutFile();
    hide Packable, Packable3, Render, Render3, FieldsOf, Fields3Of, WriteAll, Pad, ShaInput, Sections, PlainCommand;
    if CheckArguments(c).Err? { return Raised(CheckArguments(c).error), out; }
    if c.second.Some? && c.headerVersion > 2 { return Raised(ValueError), out; }
    if c.headerVersion > 4 { return Raised(ValueError), out; }
    if c.headerVersion >= 3 {
      s := WriteHeaderV3(out, c);
    } else {
      s := WriteHeader(out, c, sha);
    }
    if s.Raised? { return; }
    WriteData(out, c, if c.headerVersion > 2 then 4096 else c.pagesize);
  }
}
