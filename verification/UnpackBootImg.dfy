/** unpack_bootimg.py as it runs: a file cursor that is read and moved. */
module UnpackBootImg {
  import opened Bytes
  import opened Paging
  import opened BootHeader
  import opened BootImage
  import opened VendorTable
  import opened VendorBoot

  class InFile {
    const data: bytes
    var pos: nat

    constructor (data: bytes)
      ensures this.data == data && pos == 0
    {
      this.data := data;
      pos := 0;
    }

    method Seek(offset: nat)
      modifies this
      ensures pos == offset
    {
      pos := offset;
    }

    /** read(n), which may come back short. */
    method Read(n: nat) returns (b: bytes)
      modifies this
      ensures b == Slice(data, old(pos), n) && pos == old(pos) + |b|
    {
      b := Slice(data, pos, n);
      pos := pos + |b|;
    }

    /** unpack('I', read(4))[0] */
    method ReadI() returns (r: Result<nat>)
      modifies this
      ensures r.Ok? <==> old(pos) + 4 <= |data|
      ensures r.Ok? ==> r.value == Word(data, old(pos)) && pos == old(pos) + 4
    {
      var b := Read(4);
      if |b| != 4 { return Err(StructError); }
      return Ok(FromU32(b));
    }

    /** unpack('Q', read(8))[0] */
    method ReadQ() returns (r: Result<nat>)
      modifies this
      ensures r.Ok? <==> old(pos) + 8 <= |data|
      ensures r.Ok? ==> r.value == Long(data, old(pos)) && pos == old(pos) + 8
    {
      var b := Read(8);
      if |b| != 8 { return Err(StructError); }
      return Ok(FromU64(b));
    }

    /** unpack('<n>I', read(4 * n)) */
    method ReadWords(n: nat) returns (r: Result<seq<nat>>)
      requires n > 0
      modifies this
      ensures r.Ok? <==> old(pos) + 4 * n <= |data|
      ensures r.Ok? ==> |r.value| == n && pos == old(pos) + 4 * n
      ensures r.Ok? ==> forall i :: 0 <= i < n ==> r.value[i] == Word(data, old(pos) + 4 * i)
    {
      var words: seq<nat> := [];
      ghost var start := pos;
      for i := 0 to n
        invariant pos == start + 4 * i <= start + 4 * n && |words| == i && (i > 0 ==> pos <= |data|)
        invariant forall j :: 0 <= j < i ==> start + 4 * j + 4 <= |data| && words[j] == Word(data, start + 4 * j)
      {
        var w :- ReadI();
        words := words + [w];
      }
      return Ok(words);
    }

    /** cstr(unpack('<n>s', read(n))[0].decode()) */
    method ReadText(n: nat) returns (r: Result<string>)
      requires n > 0
      modifies this
      ensures r.Ok? <==> old(pos) + n <= |data| && Text(data[old(pos)..old(pos) + n]).Some?
      ensures r.Ok? ==> r.value == Text(data[old(pos)..old(pos) + n]).value && pos == old(pos) + n
    {
      hide Text;
      var b := Read(n);
      if |b| != n { return Err(StructError); }
      assert b == data[old(pos)..old(pos) + n];
      match Text(b)
      case None => return Err(UnicodeError);
      case Some(s) => return Ok(s);
    }

    /** extract_image */
    method ExtractImage(offset: nat, size: nat) returns (image: bytes)
      modifies this
      ensures image == Slice(data, offset, size)
    {
      Seek(offset);
      image := Read(size);
    }
  }

  // ----- unpack_boot_image

  /** The nine words behind the magic. */
  ghost predicate NineWords(data: bytes, words: seq<nat>) {
    |words| == 9 && |data| >= 44 && forall i :: 0 <= i < 9 ==> words[i] == Word(data, 8 + 4 * i)
  }

  lemma EachWord(d: bytes, words: seq<nat>)
    requires NineWords(d, words)
    ensures |words| == 9 && |d| >= 44
    ensures words[0] == Word(d, 8) && words[1] == Word(d, 12) && words[2] == Word(d, 16) && words[3] == Word(d, 20)
    ensures words[4] == Word(d, 24) && words[5] == Word(d, 28) && words[6] == Word(d, 32) && words[7] == Word(d, 36)
    ensures words[8] == Word(d, 40)
  {
  }

  method ExtractIf(f: InFile, offset: nat, size: nat) returns (image: Option<bytes>)
    modifies f
    ensures image == Extract(f.data, offset, size)
  {
    if size == 0 { return None; }
    var b := f.ExtractImage(offset, size);
    return Some(b);
  }

  /** The texts of versions 0 to 2; the SHA between them is skipped. */
  method ReadTexts(f: InFile) returns (r: Result<(string, string, string)>)
    requires f.pos == 48
    modifies f
    ensures var d := f.data;
            r.Ok? <==> |d| >= 1632 && Text(d[48..64]).Some? && Text(d[64..576]).Some? && Text(d[608..1632]).Some?
    ensures r.Ok? ==>
              var d := f.data;
              f.pos == 1632 && r.value == (Text(d[48..64]).value, Text(d[64..576]).value, Text(d[608..1632]).value)
  {
    hide Text;
    var name :- f.ReadText(16);
    var cmdline :- f.ReadText(512);
    var _ := f.Read(32);
    var extra :- f.ReadText(1024);
    return Ok((name, cmdline, extra));
  }

  /** The sizes and addresses versions 1 and 2 add. */
  method ReadVersionFields(f: InFile, version: nat) returns (r: Result<(nat, nat, nat, nat)>)
    requires version < 3 && f.pos == 1632 <= |f.data|
    modifies f
    ensures r.Ok? <==> |f.data| >= HeaderEnd(version)
    ensures r.Ok? ==>
              r.value == (if version > 0 then Word(f.data, 1632) else 0, if version > 0 then Long(f.data, 1636) else 0,
                          if version == 2 then Word(f.data, 1648) else 0,
                          if version == 2 then Long(f.data, 1652) else 0)
  {
    hide Word, Long;
    var dtboSize, dtboOffset, dtbSize, dtbAddr := 0, 0, 0, 0;
    if version in {1, 2} {
      dtboSize :- f.ReadI();
      dtboOffset :- f.ReadQ();
      var _ :- f.ReadI();
    }
    if version == 2 {
      dtbSize :- f.ReadI();
      dtbAddr :- f.ReadQ();
    }
    return Ok((dtboSize, dtboOffset, dtbSize, dtbAddr));
  }

  /** The files of versions 0 to 2, extracted in the order of the list. */
  method ExtractFiles(f: InFile, p: nat, kernelSize: nat, ramdiskSize: nat, secondSize: nat, dtboOffset: nat,
                      dtboSize: nat, dtbSize: nat)
    returns (kernel: bytes, ramdisk: bytes, second: Option<bytes>, dtbo: Option<bytes>, dtb: Option<bytes>)
    requires p > 0
    modifies f
    ensures var n1 := 1 + Pages(kernelSize, p);
            var n2 := n1 + Pages(ramdiskSize, p);
            var n3 := n2 + Pages(secondSize, p) + Pages(dtboSize, p);
            && kernel == Slice(f.data, p, kernelSize) && ramdisk == Slice(f.data, PageOffset(p, n1), ramdiskSize)
            && second == Extract(f.data, PageOffset(p, n2), secondSize) && dtbo == Extract(f.data, dtboOffset, dtboSize)
            && dtb == Extract(f.data, PageOffset(p, n3), dtbSize)
  {
    hide Pages, PageOffset, Slice, Extract;
    kernel := f.ExtractImage(p, kernelSize);
    var pages := 1 + Pages(kernelSize, p);
    ramdisk := f.ExtractImage(PageOffset(p, pages), ramdiskSize);
    pages := pages + Pages(ramdiskSize, p);
    second := ExtractIf(f, PageOffset(p, pages), secondSize);
    dtbo := ExtractIf(f, dtboOffset, dtboSize);
    dtb := ExtractIf(f, PageOffset(p, pages + Pages(secondSize, p) + Pages(dtboSize, p)), dtbSize);
  }

  /** What follows the nine words in versions 0 to 2. */
  method ReadOld(f: InFile, version: nat) returns (r: Result<(nat, (string, string, string), (nat, nat, nat, nat))>)
    requires f.pos == 44 <= |f.data| && version < 3
    modifies f
    ensures var d := f.data; r.Ok? <==> |d| >= HeaderEnd(version) && TextsDecode(d)
    ensures r.Ok? ==>
              var d := f.data;
              r.value == (Word(d, 44), (Text(d[48..64]).value, Text(d[64..576]).value, Text(d[608..1632]).value),
                          (if version > 0 then Word(d, 1632) else 0, if version > 0 then Long(d, 1636) else 0,
                           if version == 2 then Word(d, 1648) else 0, if version == 2 then Long(d, 1652) else 0))
  {
    hide Text, Word, Long;
    var osWord :- f.ReadI();
    var texts :- ReadTexts(f);
    var more :- ReadVersionFields(f, version);
    return Ok((osWord, texts, more));
  }

  method UnpackOld(f: InFile, words: seq<nat>) returns (r: Result<Info>)
    requires f.pos == 44 && NineWords(f.data, words) && words[8] < 3
    modifies f
    ensures r.Ok? <==> |f.data| >= HeaderEnd(words[8]) && Unpack012(f.data, words[8]).Ok?
    ensures r.Ok? ==> r == Unpack012(f.data, words[8])
  {
    hide OsVersion.FormatOsVersion, OsVersion.FormatPatchLevel, OsVersion.VersionOf, OsVersion.PatchOf, Pages,
      PageOffset, Slice, Text, Word, Long, Extract, TextsDecode, NineWords;
    EachWord(f.data, words);
    var version, p := words[8], words[7];
    var rest :- ReadOld(f, version);
    if p == 0 { return Err(ZeroDivisionError); }
    var (osWord, texts, more) := rest;
    var (dtboSize, dtboOffset, dtbSize, dtbAddr) := more;
    var kernel, ramdisk, second, dtbo, dtb :=
      ExtractFiles(f, p, words[0], words[2], words[4], dtboOffset, dtboSize, dtbSize);
    OsVersion.DecodedFits(osWord);
    return Ok(Info(version, words[1], words[3], words[5], words[6], p,
                   OsVersion.FormatOsVersion(OsVersion.VersionOf(osWord)),
                   OsVersion.FormatPatchLevel(OsVersion.PatchOf(osWord)),
                   texts.0, texts.1, texts.2, dtbAddr, 0, kernel, ramdisk, second, dtbo, dtb));
  }

  method UnpackNew(f: InFile, words: seq<nat>) returns (r: Result<Info>)
    requires f.pos == 44 && NineWords(f.data, words) && words[8] >= 3
    modifies f
    ensures r.Ok? <==> |f.data| >= HeaderEnd(words[8]) && Unpack34(f.data, words[8]).Ok?
    ensures r.Ok? ==> r == Unpack34(f.data, words[8])
  {
    hide OsVersion.FormatOsVersion, OsVersion.FormatPatchLevel, OsVersion.VersionOf, OsVersion.PatchOf, Pages, Slice,
      Text, Word, NineWords;
    EachWord(f.data, words);
    var cmdline :- f.ReadText(1536);
    var signatureSize := 0;
    if words[8] >= 4 {
      signatureSize :- f.ReadI();
    }
    var kernel := f.ExtractImage(4096, words[0]);
    var ramdisk := f.ExtractImage(4096 * (1 + Pages(words[0], 4096)), words[1]);
    if signatureSize > 0 {
      var _ := f.ExtractImage(4096 * (1 + Pages(words[0], 4096) + Pages(words[1], 4096)), signatureSize);
    }
    OsVersion.DecodedFits(words[2]);
    return Ok(Info(words[8], 0, 0, 0, 0, 4096, OsVersion.FormatOsVersion(OsVersion.VersionOf(words[2])),
                   OsVersion.FormatPatchLevel(OsVersion.PatchOf(words[2])), "", cmdline, "", 0, signatureSize,
                   kernel, ramdisk, None, None, None));
  }

  /** The magic, looked at first. */
  method ReadMagic(f: InFile, magic: bytes) returns (r: Result<()>)
    requires f.pos == 0 && |magic| == 8
    modifies f
    ensures r.Ok? <==> |f.data| >= 8 && f.data[..8] == magic
    ensures r.Ok? ==> f.pos == 8
  {
    var b := f.Read(8);
    if |b| != 8 { return Err(StructError); }
    assert b == f.data[..8];
    if b != magic { return Err(ValueError); }
    return Ok(());
  }

  /** Reading with the cursor gives what reading at fixed offsets gives. */
  method UnpackBootImage(f: InFile) returns (r: Result<Info>)
    requires f.pos == 0
    modifies f
    ensures r.Ok? <==> Unpack(f.data).Ok?
    ensures r.Ok? ==> r == Unpack(f.data)
  {
    hide Unpack012, Unpack34, HeaderEnd, Word, Magic;
    HeaderEndsLate();
    var _ :- ReadMagic(f, Magic());
    var words :- f.ReadWords(9);
    assert words[8] == Word(f.data, 40);
    if words[8] < 3 { r := UnpackOld(f, words); } else { r := UnpackNew(f, words); }
  }

  lemma HeaderEndsLate()
    ensures forall v: nat :: HeaderEnd(v) >= 44
  {
  }

  // ----- unpack_vendor_boot_image

  /** One round of the table loop. */
  method ReadTableEntry(f: InFile, offset: nat, base: nat) returns (r: Result<Fragment>)
    modifies f
    ensures r.Ok? <==> ReadEntry(f.data, offset, base).Ok?
    ensures r.Ok? ==> r == ReadEntry(f.data, offset, base)
  {
    hide Word, Text, Slice;
    f.Seek(offset);
    var size :- f.ReadI();
    var ramdiskOffset :- f.ReadI();
    var kind :- f.ReadI();
    var name :- f.ReadText(32);
    var boardId :- f.ReadWords(16);
    assert boardId == BoardAt(f.data, offset + 44);
    var image := f.ExtractImage(base + ramdiskOffset, size);
    return Ok(Fragment(image, kind, name, boardId));
  }

  /** The table loop; fragments are extracted as they are listed. */
  method ReadTable(f: InFile, table: nat, entrySize: nat, n: nat, base: nat) returns (r: Result<seq<Fragment>>)
    modifies f
    ensures r.Ok? <==> ReadEntries(f.data, table, entrySize, n, base).Ok?
    ensures r.Ok? ==> r == ReadEntries(f.data, table, entrySize, n, base)
  {
    hide ReadEntry, PageOffset;
    var fragments: seq<Fragment> := [];
    for idx := 0 to n
      invariant ReadEntries(f.data, table, entrySize, idx, base) == Ok(fragments)
    {
      var fragment := ReadTableEntry(f, table + PageOffset(entrySize, idx), base);
      if fragment.Err? {
        StaysRefused(f.data, table, entrySize, idx + 1, n, base);
        return Err(fragment.error);
      }
      fragments := fragments + [fragment.value];
    }
    return Ok(fragments);
  }

  lemma {:induction false} StaysRefused(file: bytes, table: nat, entrySize: nat, m: nat, n: nat, base: nat)
    requires m <= n && ReadEntries(file, table, entrySize, m, base).Err?
    ensures ReadEntries(file, table, entrySize, n, base).Err?
    decreases n
  {
    hide PageOffset, ReadEntry;
    if m < n {
      StaysRefused(file, table, entrySize, m, n - 1, base);
    }
  }

  /** The header fields of both versions, in the order of the header. */
  datatype VendorHeader = VendorHeader(
    version: nat, pageSize: nat, kernelAddr: nat, ramdiskAddr: nat, ramdiskSize: nat, cmdline: string, tagsAddr: nat,
    productName: string, headerSize: nat, dtbSize: nat, dtbAddr: nat)

  predicate VendorTextsDecode(file: bytes)
    requires |file| >= 2112
  {
    Text(file[28..2076]).Some? && Text(file[2080..2096]).Some?
  }

  method ReadVendorHeader(f: InFile) returns (r: Result<VendorHeader>)
    requires f.pos == 0
    modifies f
    ensures var d := f.data; r.Ok? <==> |d| >= 2112 && d[..8] == VendorMagic() && VendorTextsDecode(d)
    ensures r.Ok? ==>
              var d := f.data;
              && f.pos == 2112
              && r.value == VendorHeader(Word(d, 8), Word(d, 12), Word(d, 16), Word(d, 20), Word(d, 24),
                                         Text(d[28..2076]).value, Word(d, 2076), Text(d[2080..2096]).value,
                                         Word(d, 2096), Word(d, 2100), Long(d, 2104))
  {
    hide Word, Long, Text, VendorMagic;
    ghost var d := f.data;
    var _ :- ReadMagic(f, VendorMagic());
    var words :- f.ReadWords(5);
    assert words[0] == Word(d, 8) && words[1] == Word(d, 12) && words[2] == Word(d, 16) && words[3] == Word(d, 20)
      && words[4] == Word(d, 24);
    var cmdline :- f.ReadText(2048);
    var tagsAddr :- f.ReadI();
    var productName :- f.ReadText(16);
    var headerSize :- f.ReadI();
    var dtbSize :- f.ReadI();
    var dtbAddr :- f.ReadQ();
    return Ok(VendorHeader(words[0], words[1], words[2], words[3], words[4], cmdline, tagsAddr, productName, headerSize,
                           dtbSize, dtbAddr));
  }

  /** The header is read and the files are extracted. */
  method ExtractVendorBootImage(f: InFile) returns (r: Result<VendorInfo>)
    requires f.pos == 0
    modifies f
    ensures r.Ok? <==> ReadVendor(f.data).Ok?
    ensures r.Ok? ==> r == ReadVendor(f.data)
  {
    hide Word, Long, Text, Slice, VendorMagic, Pages, PageOffset, ReadEntries;
    ghost var d := f.data;
    var h :- ReadVendorHeader(f);
    var p := h.pageSize;
    if p == 0 { return Err(ZeroDivisionError); }
    var headerPages, ramdiskPages, dtbPages := Pages(h.headerSize, p), Pages(h.ramdiskSize, p), Pages(h.dtbSize, p);
    var fragments: seq<Fragment>, ramdisk: bytes, bootconfig: bytes := [], [], [];
    if h.version > 3 {
      var sizes :- f.ReadWords(4);
      assert sizes[0] == Word(d, 2112) && sizes[1] == Word(d, 2116) && sizes[2] == Word(d, 2120)
          && sizes[3] == Word(d, 2124);
      fragments :- ReadTable(f, PageOffset(p, headerPages + ramdiskPages + dtbPages), sizes[2], sizes[1],
                             PageOffset(p, headerPages));
      bootconfig := f.ExtractImage(PageOffset(p, headerPages + ramdiskPages + dtbPages + Pages(sizes[0], p)), sizes[3]);
    } else {
      ramdisk := f.ExtractImage(PageOffset(p, headerPages), h.ramdiskSize);
    }
    var dtb := ExtractIf(f, PageOffset(p, headerPages + ramdiskPages), h.dtbSize);
    return Ok(VendorInfo(h.version, p, h.kernelAddr, h.ramdiskAddr, h.cmdline, h.tagsAddr, h.productName, h.dtbAddr,
                         dtb, ramdisk, fragments, bootconfig));
  }

  /** The directory of the links by name; a link leads to the file of a number. */
  class LinkDir {
    var links: map<string, nat>

    /** os.symlink in a directory without subdirectories */
    method Symlink(src: nat, dst: string) returns (r: Result<()>)
      requires dst !in links
      modifies this
      ensures r == if '/' in dst then Err(OSError) else Ok(())
      ensures links == if '/' in dst then old(links) else old(links)[dst := src]
    {
      if '/' in dst { return Err(OSError); }
      links := links[dst := src];
      return Ok(());
    }

    /** os.remove */
    method Remove(dst: string)
      requires dst in links
      modifies this
      ensures links == old(links) - {dst}
    {
      links := links - {dst};
    }
  }

  /** An older link of the same name is replaced; the first name with a slash ends the loop. */
  method LinkByName(dir: LinkDir, fragments: seq<Fragment>) returns (r: Result<()>)
    modifies dir
    ensures r == if Linkable(fragments) then Ok(()) else Err(OSError)
    ensures r.Ok? ==> dir.links == old(dir.links) + Links(fragments, |fragments|)
  {
    hide Links;
    ghost var was := dir.links;
    NoLinks(was, fragments);
    for i := 0 to |fragments|
      invariant dir.links == was + Links(fragments, i)
      invariant forall j :: 0 <= j < i ==> '/' !in fragments[j].name
    {
      var dst := fragments[i].name;
      if dst in dir.links { dir.Remove(dst); }
      var done := dir.Symlink(i, dst);
      if done.Err? { return done; }
      NextLink(was, fragments, i, dir.links);
    }
    return Ok(());
  }

  lemma NoLinks(was: map<string, nat>, fragments: seq<Fragment>)
    ensures was == was + Links(fragments, 0)
  {
  }

  /** Removing an old link first makes no difference to the links. */
  lemma NextLink(was: map<string, nat>, fragments: seq<Fragment>, i: nat, links: map<string, nat>)
    requires i < |fragments|
    requires var dst := fragments[i].name; var before := was + Links(fragments, i);
             links == (if dst in before then before - {dst} else before)[dst := i]
    ensures links == was + Links(fragments, i + 1)
  {
  }

  method UnpackVendorBootImage(f: InFile, dir: LinkDir) returns (r: Result<VendorInfo>)
    requires f.pos == 0
    modifies f, dir
    ensures r.Ok? <==> UnpackVendor(f.data).Ok?
    ensures r.Ok? ==>
              r == UnpackVendor(f.data) && dir.links == old(dir.links) + Links(r.value.fragments, |r.value.fragments|)
  {
    hide ReadVendor;
    var info :- ExtractVendorBootImage(f);
    if info.headerVersion > 3 {
      var _ :- LinkByName(dir, info.fragments);
    } else {
      NothingToLink(f.data);
    }
    return Ok(info);
  }

  lemma NothingToLink(file: bytes)
    requires ReadVendor(file).Ok? && ReadVendor(file).value.headerVersion <= 3
    ensures ReadVendor(file).value.fragments == []
  {
    hide Text, Slice, Word, Long, Pages, PageOffset;
  }
}
