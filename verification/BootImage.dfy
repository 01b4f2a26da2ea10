/** Boot images, header versions 0 to 4: what mkbootimg writes, what unpack_bootimg reads back, and
    whether packing the unpacked image again gives the same bytes. */
module BootImage {
  import opened Bytes
  import opened Utf8
  import opened Paging
  import opened OsVersion
  import opened BootHeader
  import opened Argparse

  /** The exceptions either tool can raise. */
  datatype Error =
    ArgumentError | ArgumentTypeError | AssertionError | ValueError | OverflowError | StructError | UnicodeError
    | ZeroDivisionError | OSError
  datatype Result<+T> = Ok(value: T) | Err(error: Error) {
    predicate IsFailure() { Err? }
    function PropagateFailure<U>(): Result<U> requires Err? { Err(error) }
    function Extract(): T requires Ok? { value }
  }

  /** A mkbootimg command line.  Files stand for their contents, numbers for their values. */
  datatype Command = Command(
    headerVersion: int, kernel: Option<bytes>, ramdisk: Option<bytes>, second: Option<bytes>,
    recoveryDtbo: Option<bytes>, dtb: Option<bytes>, cmdline: string,
    base: int, kernelOffset: int, ramdiskOffset: int, secondOffset: int, dtbOffset: int, tagsOffset: int,
    osVersion: Option<string>, osPatchLevel: Option<string>, board: string, pagesize: int)

  /** Text a shell can pass. */
  predicate PlainCommand(c: Command) {
    Plain(c.cmdline) && Plain(c.board)
  }

  // ----- parse_cmdline

  predicate IsPageSize(p: int) { p == 2048 || p == 4096 || p == 8192 || p == 16384 }

  /** AsciizBytes */
  function Asciiz(s: string): (r: bytes)
    ensures |r| == |Encode(s)| + 1
  {
    Encode(s) + [0]
  }

  function Version(c: Command): Option<nat> {
    match c.osVersion case None => Some(0) case Some(s) => ParseOsVersion(s)
  }

  function Patch(c: Command): Option<nat> {
    match c.osPatchLevel case None => Some(0) case Some(s) => ParsePatchLevel(s)
  }

  function CmdlineSize(version: int): nat { if version < 3 then 1535 else 1536 }

  /** What argparse and the assertions of the parse functions let through. */
  function CheckArguments(c: Command): Result<()>
    requires PlainCommand(c)
  {
    if |Asciiz(c.cmdline)| > CmdlineSize(c.headerVersion) || |Asciiz(c.board)| > 16 || !IsPageSize(c.pagesize) then
      Err(ArgumentTypeError)
    else if Version(c).None? || Patch(c).None? then Err(AssertionError)
    else Ok(())
  }

  /** The split of the command line over the two fields of versions 0 to 2. */
  function FirstCmdline(b: bytes): bytes { (if |b| <= 511 then b else b[..511]) + [0] }
  function ExtraCmdline(b: bytes): bytes { if |b| <= 511 then [] else b[511..] }

  // ----- write_header and write_data

  function Size(file: Option<bytes>): nat { |Content(file)| }

  function OsWord(c: Command): nat
    requires Version(c).Some? && Patch(c).Some?
  {
    OsVersion.Word(Version(c).value, Patch(c).value)
  }

  /** The files SHA-1 covers, each followed by its size. */
  function ShaFiles(c: Command): seq<Option<bytes>> {
    [c.kernel, c.ramdisk, c.second]
    + (if c.headerVersion > 0 then [c.recoveryDtbo] else []) + (if c.headerVersion > 1 then [c.dtb] else [])
  }

  predicate SizesFit(files: seq<Option<bytes>>) {
    forall i :: 0 <= i < |files| ==> Fits32(Size(files[i]))
  }

  /** What SHA-1 is computed over. */
  function ShaInput(c: Command): Option<bytes> {
    if SizesFit(ShaFiles(c)) then Some(ShaOf(ShaFiles(c))) else None
  }

  function ShaOf(files: seq<Option<bytes>>): bytes
    requires SizesFit(files)
  {
    if files == [] then [] else Content(files[0]) + U32(Size(files[0])) + ShaOf(files[1..])
  }

  /** Where a page starts. */
  function PageOffset(page: nat, number: nat): nat { page * number }

  /** get_recovery_dtbo_offset */
  function RecoveryDtboOffset(c: Command): nat
    requires c.pagesize > 0
  {
    var p: nat := c.pagesize;
    PageOffset(p, 1 + Pages(Size(c.kernel), p) + Pages(Size(c.ramdisk), p) + Pages(Size(c.second), p))
  }

  /** The header fields, with the id still open. */
  function FieldsWith(c: Command, id: bytes): Fields
    requires PlainCommand(c) && CheckArguments(c).Ok?
  {
    Fields(c.headerVersion,
           Size(c.kernel), c.base + c.kernelOffset,
           Size(c.ramdisk), if Size(c.ramdisk) > 0 then c.base + c.ramdiskOffset else 0,
           Size(c.second), if Size(c.second) > 0 then c.base + c.secondOffset else 0,
           c.base + c.tagsOffset, c.pagesize, OsWord(c),
           Asciiz(c.board), FirstCmdline(Asciiz(c.cmdline)), id, ExtraCmdline(Asciiz(c.cmdline)),
           if c.headerVersion > 0 then Size(c.recoveryDtbo) else 0,
           if c.headerVersion > 0 && c.recoveryDtbo.Some? then RecoveryDtboOffset(c) else 0,
           if c.headerVersion > 1 then Size(c.dtb) else 0,
           if c.headerVersion > 1 then c.base + c.dtbOffset else 0)
  }

  function FieldsOf(c: Command, sha: bytes -> bytes): Fields
    requires PlainCommand(c) && CheckArguments(c).Ok? && ShaInput(c).Some?
  {
    FieldsWith(c, sha(ShaInput(c).value))
  }

  function Fields3Of(c: Command): Fields3
    requires PlainCommand(c) && CheckArguments(c).Ok?
  {
    Fields3(c.headerVersion, Size(c.kernel), Size(c.ramdisk), OsWord(c), Asciiz(c.cmdline))
  }

  /** The files write_data appends, in order. */
  function Sections(c: Command): (r: seq<Option<bytes>>)
    ensures |r| >= 3
  {
    [c.kernel, c.ramdisk, c.second]
    + (if 0 < c.headerVersion < 3 then [c.recoveryDtbo] else [])
    + (if c.headerVersion == 2 then [c.dtb] else [])
  }

  /** The image mkbootimg writes, with SHA-1 as a parameter, or the exception it raises. */
  function Pack(c: Command, sha: bytes -> bytes): Result<bytes>
    requires PlainCommand(c)
  {
    if CheckArguments(c).Err? then Err(CheckArguments(c).error)
    else if c.second.Some? && c.headerVersion > 2 then Err(ValueError)
    else if c.headerVersion > 4 then Err(ValueError)
    else if c.headerVersion >= 3 then
      if !Packable3(Fields3Of(c)) then Err(StructError)
      else Ok(WriteAll(Pad(Render3(Fields3Of(c)), 4096), Sections(c), 4096))
    else if c.headerVersion == 2 && Size(c.dtb) == 0 then Err(ValueError)
    else if ShaInput(c).None? || !Packable(FieldsOf(c, sha)) then Err(StructError)
    else Ok(WriteAll(Pad(Render(FieldsOf(c, sha)), c.pagesize), Sections(c), c.pagesize))
  }

  // ----- unpack_boot_image

  /** The fields of the info object that the arguments are formatted from, with the extracted files. */
  datatype Info = Info(
    headerVersion: nat, kernelAddr: nat, ramdiskAddr: nat, secondAddr: nat, tagsAddr: nat, pageSize: nat,
    osVersion: Option<string>, osPatchLevel: Option<string>, productName: string,
    cmdline: string, extraCmdline: string, dtbAddr: nat, signatureSize: nat,
    kernel: bytes, ramdisk: bytes, second: Option<bytes>, recoveryDtbo: Option<bytes>, dtb: Option<bytes>)

  /** A section is extracted when its size is not zero. */
  function Extract(file: bytes, offset: nat, size: nat): Option<bytes> {
    if size > 0 then Some(Slice(file, offset, size)) else None
  }

  function HeaderEnd(version: nat): nat {
    if version == 0 then 1632 else if version == 1 then 1648 else if version == 2 then 1660
    else if version == 3 then 1580 else 1584
  }

  function Text(b: bytes): Option<string> {
    match Decode(b) case None => None case Some(s) => Some(CStr(s))
  }

  function Unpack(file: bytes): Result<Info> {
    if |file| < 44 then Err(StructError)
    else if file[..8] != Magic() then Err(ValueError)
    else
      var version := BootHeader.Word(file, 40);
      if |file| < HeaderEnd(version) then Err(StructError)
      else if version < 3 then Unpack012(file, version) else Unpack34(file, version)
  }

  /** The three text fields decode. */
  predicate TextsDecode(file: bytes)
    requires |file| >= 1632
  {
    Text(file[48..64]).Some? && Text(file[64..576]).Some? && Text(file[608..1632]).Some?
  }

  function Unpack012(file: bytes, version: nat): Result<Info>
    requires version < 3 && |file| >= HeaderEnd(version)
  {
    if !TextsDecode(file) then Err(UnicodeError)
    else if BootHeader.Word(file, 36) == 0 then Err(ZeroDivisionError)
    else Ok(Info012(file, version))
  }

  function Info012(file: bytes, version: nat): Info
    requires version < 3 && |file| >= HeaderEnd(version) && TextsDecode(file) && BootHeader.Word(file, 36) > 0
  {
    hide FormatOsVersion, FormatPatchLevel, VersionOf, PatchOf, Pages, PageOffset, Slice, Text, BootHeader.Word, Long;
    var word := BootHeader.Word(file, 44);
    var p := BootHeader.Word(file, 36);
    var kernelSize, ramdiskSize := BootHeader.Word(file, 8), BootHeader.Word(file, 16);
    var secondSize := BootHeader.Word(file, 24);
    var dtboSize := if version > 0 then BootHeader.Word(file, 1632) else 0;
    var dtbSize := if version == 2 then BootHeader.Word(file, 1648) else 0;
    var n1 := 1 + Pages(kernelSize, p);
    var n2 := n1 + Pages(ramdiskSize, p);
    var n3 := n2 + Pages(secondSize, p) + Pages(dtboSize, p);
    DecodedFits(word);
    Info(version, BootHeader.Word(file, 12), BootHeader.Word(file, 20), BootHeader.Word(file, 28),
         BootHeader.Word(file, 32), p,
         FormatOsVersion(VersionOf(word)), FormatPatchLevel(PatchOf(word)),
         Text(file[48..64]).value, Text(file[64..576]).value, Text(file[608..1632]).value,
         if version == 2 then Long(file, 1652) else 0, 0,
         Slice(file, p, kernelSize), Slice(file, PageOffset(p, n1), ramdiskSize),
         Extract(file, PageOffset(p, n2), secondSize),
         Extract(file, if version > 0 then Long(file, 1636) else 0, dtboSize),
         Extract(file, PageOffset(p, n3), dtbSize))
  }

  function Unpack34(file: bytes, version: nat): Result<Info>
    requires version >= 3 && |file| >= HeaderEnd(version)
  {
    var word := BootHeader.Word(file, 16);
    var cmdline := Text(file[44..1580]);
    if cmdline.None? then Err(UnicodeError)
    else
      var kernelSize, ramdiskSize := BootHeader.Word(file, 8), BootHeader.Word(file, 12);
      DecodedFits(word);
      Ok(Info(version, 0, 0, 0, 0, 4096, FormatOsVersion(VersionOf(word)), FormatPatchLevel(PatchOf(word)),
              "", cmdline.value, "", 0, if version >= 4 then BootHeader.Word(file, 1580) else 0,
              Slice(file, 4096, kernelSize), Slice(file, 4096 * (1 + Pages(kernelSize, 4096)), ramdiskSize),
              None, None, None))
  }

  // ----- format_mkbootimg_argument

  /** The command line the info object formats to; what it leaves out takes the default of mkbootimg. */
  function Format(i: Info): Command {
    if i.headerVersion <= 2 then
      Command(i.headerVersion, Some(i.kernel), Some(i.ramdisk), i.second, i.recoveryDtbo, i.dtb,
              i.cmdline + i.extraCmdline, 0, i.kernelAddr, i.ramdiskAddr, i.secondAddr,
              if i.headerVersion == 2 then i.dtbAddr else 0x01f00000, i.tagsAddr,
              i.osVersion, i.osPatchLevel, i.productName, i.pageSize)
    else
      Command(i.headerVersion, Some(i.kernel), Some(i.ramdisk), None, None, None, i.cmdline,
              0x10000000, 0x00008000, 0x01000000, 0x00f00000, 0x01f00000, 0x00000100,
              i.osVersion, i.osPatchLevel, "", 2048)
  }

  /** Packing with the formatted arguments: argparse has to take both texts as values first. */
  function PackFormatted(i: Info, sha: bytes -> bytes): Result<bytes>
    requires PlainCommand(Format(i))
  {
    if !IsValue(MAIN, Format(i).cmdline) || !IsValue(MAIN, Format(i).board) then Err(ArgumentError)
    else Pack(Format(i), sha)
  }
}
