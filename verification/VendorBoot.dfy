/** Vendor boot images, header versions 3 and 4: the writer, the reader and the formatter. */
module VendorBoot {
  import opened Bytes
  import opened Utf8
  import opened Paging
  import opened BootHeader
  import opened BootImage
  import opened Argparse
  import opened VendorTable

  const VENDOR_BOOT_IMAGE_HEADER_V3_SIZE: nat := 2112
  const VENDOR_BOOT_IMAGE_HEADER_V4_SIZE: nat := 2128

  /** A mkbootimg command line with --vendor_boot.  Files stand for their contents. */
  datatype VendorCommand = VendorCommand(
    headerVersion: int, pagesize: int, base: int, kernelOffset: int, ramdiskOffset: int, tagsOffset: int,
    dtbOffset: int, vendorCmdline: string, board: string, dtb: Option<bytes>, vendorRamdisk: Option<bytes>,
    bootconfig: Option<bytes>,
    fragments: seq<Fragment>)

  predicate PlainVendor(c: VendorCommand) {
    Plain(c.vendorCmdline) && Plain(c.board) && PlainNames(c.fragments)
  }

  predicate ShortNames(fragments: seq<Fragment>) {
    forall i :: 0 <= i < |fragments| ==> |Asciiz(fragments[i].name)| <= VENDOR_RAMDISK_NAME_SIZE
  }

  // ----- parse_cmdline and parse_vendor_ramdisk_args

  predicate ArgumentsFit(c: VendorCommand) {
    |Asciiz(c.vendorCmdline)| <= 2048 && |Asciiz(c.board)| <= 16 && IsPageSize(c.pagesize) && ShortNames(c.fragments)
  }

  /** --vendor_ramdisk becomes the first entry, of type platform and without a name. */
  function FirstTable(c: VendorCommand): Result<Table> {
    if c.vendorRamdisk.None? then Ok(EmptyTable())
    else AddEntry(EmptyTable(), c.vendorRamdisk.value, VENDOR_RAMDISK_TYPE_PLATFORM, [], None)
  }

  function BuildTable(c: VendorCommand): Result<Table>
    requires PlainVendor(c)
  {
    var first := FirstTable(c);
    if first.Err? then first else AddAll(first.value, c.fragments)
  }

  // ----- write_vendor_boot_header and write_vendor_boot_data

  datatype VFields = VFields(version: int, pageSize: int, kernelAddr: int, ramdiskAddr: int, ramdiskSize: int,
                             cmdline: bytes, tagsAddr: int, name: bytes, dtbSize: int, dtbAddr: int,
                             entries: int, bootconfigSize: int)

  predicate PackableA(f: VFields) {
    3 <= f.version <= 4 && Fits32(f.pageSize) && Fits32(f.kernelAddr) && Fits32(f.ramdiskAddr) && Fits32(f.ramdiskSize)
  }

  predicate PackableC(f: VFields) {
    PackableA(f) && Fits32(f.tagsAddr) && Fits32(f.dtbSize) && Fits64(f.dtbAddr)
  }

  predicate PackableV(f: VFields) {
    PackableC(f) && (f.version > 3 ==> f.entries >= 0 && Fits32(108 * f.entries) && Fits32(f.bootconfigSize))
  }

  /** b'VNDRBOOT' */
  function VendorMagic(): (r: bytes)
    ensures |r| == 8
  {
    [0x56, 0x4E, 0x44, 0x52, 0x42, 0x4F, 0x4F, 0x54]
  }

  function HeaderSize(version: int): nat {
    if version > 3 then VENDOR_BOOT_IMAGE_HEADER_V4_SIZE else VENDOR_BOOT_IMAGE_HEADER_V3_SIZE
  }

  function BaseA(f: VFields): (r: bytes)
    requires PackableA(f)
    ensures |r| == 28
  {
    VendorMagic() + U32(f.version) + U32(f.pageSize) + U32(f.kernelAddr) + U32(f.ramdiskAddr) + U32(f.ramdiskSize)
  }

  function BaseB(f: VFields): (r: bytes)
    requires PackableC(f)
    ensures |r| == 2096
  {
    BaseA(f) + PackS(2048, f.cmdline) + U32(f.tagsAddr) + PackS(16, f.name)
  }

  function BaseC(f: VFields): (r: bytes)
    requires PackableC(f)
    ensures |r| == 2112
  {
    BaseB(f) + U32(HeaderSize(f.version)) + U32(f.dtbSize) + U64(f.dtbAddr)
  }

  function RenderV(f: VFields): (r: bytes)
    requires PackableV(f)
    ensures |r| == HeaderSize(f.version)
  {
    if f.version > 3 then BaseC(f) + U32(108 * f.entries) + U32(f.entries) + U32(108) + U32(f.bootconfigSize)
    else BaseC(f)
  }

  function VFieldsOf(c: VendorCommand, t: Table): VFields
    requires PlainVendor(c)
  {
    VFields(c.headerVersion, c.pagesize, c.base + c.kernelOffset, c.base + c.ramdiskOffset,
            if c.headerVersion > 3 then t.total else Size(c.vendorRamdisk),
            Asciiz(c.vendorCmdline), c.base + c.tagsOffset, Asciiz(c.board), Size(c.dtb), c.base + c.dtbOffset,
            |t.entries|, if c.headerVersion > 3 then Size(c.bootconfig) else 0)
  }

  function VSections(c: VendorCommand, t: Table): seq<Option<bytes>>
    requires c.headerVersion > 3 ==> AllPackable(t.entries)
  {
    if c.headerVersion > 3 then [Some(Concat(t.entries)), c.dtb, Some(TableBytes(t.entries)), c.bootconfig]
    else [c.vendorRamdisk, c.dtb]
  }

  /** What is written once the arguments are accepted. */
  function WriteVendor(c: VendorCommand, t: Table): Result<bytes>
    requires PlainVendor(c) && IsPageSize(c.pagesize)
  {
    if !PackableV(VFieldsOf(c, t)) || (c.headerVersion > 3 && !AllPackable(t.entries)) then Err(StructError)
    else Ok(WriteAll(Pad(RenderV(VFieldsOf(c, t)), c.pagesize), VSections(c, t), c.pagesize))
  }

  /** The vendor boot image mkbootimg writes, or the exception it raises. */
  function PackVendor(c: VendorCommand): Result<bytes>
    requires PlainVendor(c)
  {
    if !ArgumentsFit(c) then Err(ArgumentTypeError)
    else if c.headerVersion <= 3 then
      if c.fragments != [] || c.headerVersion < 3 || c.vendorRamdisk.None? then Err(ValueError)
      else WriteVendor(c, EmptyTable())
    else
      var t := BuildTable(c);
      if t.Err? then Err(t.error)
      else if c.headerVersion > 4 then Err(ValueError)
      else WriteVendor(c, t.value)
  }

  // ----- unpack_vendor_boot_image

  datatype VendorInfo = VendorInfo(
    headerVersion: nat, pageSize: nat, kernelAddr: nat, ramdiskAddr: nat, cmdline: string, tagsAddr: nat,
    productName: string, dtbAddr: nat, dtb: Option<bytes>,
    vendorRamdisk: bytes, fragments: seq<Fragment>, bootconfig: bytes)

  /** Everything up to the extraction of the files. */
  function ReadVendor(file: bytes): Result<VendorInfo> {
    if |file| < 2112 then Err(StructError)
    else if file[..8] != VendorMagic() then Err(ValueError)
    else if Text(file[28..2076]).None? || Text(file[2080..2096]).None? then Err(UnicodeError)
    else if Word(file, 12) == 0 then Err(ZeroDivisionError)
    else if Word(file, 8) > 3 then UnpackV4(file)
    else
      var p := Word(file, 12);
      var h, r := Pages(Word(file, 2096), p), Pages(Word(file, 24), p);
      Ok(InfoWith(file, Extract(file, PageOffset(p, h + r), Word(file, 2100)),
                  Slice(file, PageOffset(p, h), Word(file, 24)), [], []))
  }

  /** The fields both versions show. */
  function InfoWith(file: bytes, dtb: Option<bytes>, ramdisk: bytes, fragments: seq<Fragment>,
                    bootconfig: bytes): VendorInfo
    requires |file| >= 2112 && Text(file[28..2076]).Some? && Text(file[2080..2096]).Some?
  {
    VendorInfo(Word(file, 8), Word(file, 12), Word(file, 16), Word(file, 20), Text(file[28..2076]).value,
               Word(file, 2076), Text(file[2080..2096]).value, Long(file, 2104), dtb, ramdisk, fragments, bootconfig)
  }

  function UnpackV4(file: bytes): Result<VendorInfo>
    requires |file| >= 2112 && Text(file[28..2076]).Some? && Text(file[2080..2096]).Some? && Word(file, 12) > 0
  {
    if |file| < 2128 then Err(StructError)
    else
      var p := Word(file, 12);
      var h, r := Pages(Word(file, 2096), p), Pages(Word(file, 24), p);
      var d, t := Pages(Word(file, 2100), p), Pages(Word(file, 2112), p);
      match ReadEntries(file, PageOffset(p, h + r + d), Word(file, 2120), Word(file, 2116), PageOffset(p, h))
      case Err(e) => Err(e)
      case Ok(fragments) =>
        Ok(InfoWith(file, Extract(file, PageOffset(p, h + r), Word(file, 2100)), [], fragments,
                    Slice(file, PageOffset(p, h + r + d + t), Word(file, 2124))))
  }

  /** A name with a slash asks for a link in a directory that does not exist. */
  predicate Linkable(fragments: seq<Fragment>) {
    forall i :: 0 <= i < |fragments| ==> '/' !in fragments[i].name
  }

  /** The links by name of the first n fragments, each to the number of its file. */
  function Links(fragments: seq<Fragment>, n: nat): map<string, nat>
    requires n <= |fragments|
  {
    if n == 0 then map[] else Links(fragments, n - 1)[fragments[n - 1].name := n - 1]
  }

  /** The extracted files are linked by name last; version 3 has no fragments to link. */
  function UnpackVendor(file: bytes): Result<VendorInfo> {
    var r := ReadVendor(file);
    if r.Ok? && !Linkable(r.value.fragments) then Err(OSError) else r
  }

  // ----- format_mkbootimg_argument

  /** The command line the info object formats to. */
  function FormatVendor(i: VendorInfo): VendorCommand {
    VendorCommand(i.headerVersion, i.pageSize, 0, i.kernelAddr, i.ramdiskAddr, i.tagsAddr, i.dtbAddr,
                  i.cmdline, i.productName, i.dtb,
                  if i.headerVersion > 3 then None else Some(i.vendorRamdisk),
                  if i.headerVersion > 3 then Some(i.bootconfig) else None,
                  if i.headerVersion > 3 then i.fragments else [])
  }

  predicate NamesAreValues(fragments: seq<Fragment>) {
    forall i :: 0 <= i < |fragments| ==> IsName(fragments[i].name)
  }

  /** The texts that are formatted can be passed as values. */
  predicate VendorTextsAreValues(c: VendorCommand) {
    IsValue(MAIN, c.vendorCmdline) && IsValue(MAIN, c.board) && NamesAreValues(c.fragments)
  }

  /** Packing with the formatted arguments: argparse has to take all texts as values first. */
  function PackFormattedVendor(i: VendorInfo): Result<bytes>
    requires PlainVendor(FormatVendor(i))
  {
    if !VendorTextsAreValues(FormatVendor(i)) then Err(ArgumentError) else PackVendor(FormatVendor(i))
  }
}
