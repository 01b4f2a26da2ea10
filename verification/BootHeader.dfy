/** The boot image headers of mkbootimg.py as byte strings, and the fields read back from fixed offsets. */
module BootHeader {
  import opened Bytes

  const BOOT_IMAGE_HEADER_V1_SIZE: nat := 1648
  const BOOT_IMAGE_HEADER_V2_SIZE: nat := 1660
  const BOOT_IMAGE_HEADER_V3_SIZE: nat := 1580
  const BOOT_IMAGE_HEADER_V4_SIZE: nat := 1584

  /** b'ANDROID!' */
  function Magic(): (r: bytes)
    ensures |r| == 8
  {
    [0x41, 0x4E, 0x44, 0x52, 0x4F, 0x49, 0x44, 0x21]
  }

  predicate Fits32(v: int) { 0 <= v < TWO32 }
  predicate Fits64(v: int) { 0 <= v < TWO64 }

  /** read(4) at a fixed offset, unpacked; a short read is an error. */
  function Word(file: bytes, off: nat): (v: nat)
    requires off + 4 <= |file|
    ensures v < TWO32
  {
    FromU32(file[off..off + 4])
  }

  function Long(file: bytes, off: nat): nat
    requires off + 8 <= |file|
  {
    FromU64(file[off..off + 8])
  }

  lemma WordAt(file: bytes, off: nat, v: nat)
    requires v < TWO32 && At(file, off, U32(v))
    ensures Word(file, off) == v
  {
    U32RoundTrip(v);
  }

  lemma LongAt(file: bytes, off: nat, v: nat)
    requires v < TWO64 && At(file, off, U64(v))
    ensures Long(file, off) == v
  {
    U64RoundTrip(v);
  }

  // ----- versions 0, 1 and 2

  datatype Fields = Fields(version: int, kernelSize: int, kernelAddr: int, ramdiskSize: int, ramdiskAddr: int,
                           secondSize: int, secondAddr: int, tagsAddr: int, pageSize: int, osWord: int,
                           name: bytes, cmdline: bytes, id: bytes, extraCmdline: bytes,
                           dtboSize: int, dtboOffset: int, dtbSize: int, dtbAddr: int)

  /** Every pack('I') and pack('Q') accepts its value. */
  predicate PackableWords(f: Fields) {
    && 0 <= f.version <= 2
    && Fits32(f.kernelSize) && Fits32(f.kernelAddr) && Fits32(f.ramdiskSize) && Fits32(f.ramdiskAddr)
    && Fits32(f.secondSize) && Fits32(f.secondAddr) && Fits32(f.tagsAddr) && Fits32(f.pageSize) && Fits32(f.osWord)
  }

  predicate Packable(f: Fields) {
    && PackableWords(f)
    && (f.version > 0 ==> Fits32(f.dtboSize) && Fits64(f.dtboOffset))
    && (f.version > 1 ==> Fits32(f.dtbSize) && Fits64(f.dtbAddr))
  }

  function Base1(f: Fields): (r: bytes)
    requires PackableWords(f)
    ensures |r| == 48
  {
    Magic() + U32(f.kernelSize) + U32(f.kernelAddr) + U32(f.ramdiskSize) + U32(f.ramdiskAddr)
    + U32(f.secondSize) + U32(f.secondAddr) + U32(f.tagsAddr) + U32(f.pageSize) + U32(f.version) + U32(f.osWord)
  }

  function Base2(f: Fields): (r: bytes)
    requires PackableWords(f)
    ensures |r| == 1632
  {
    Base1(f) + PackS(16, f.name) + PackS(512, f.cmdline) + PackS(32, f.id) + PackS(1024, f.extraCmdline)
  }

  function Render(f: Fields): (r: bytes)
    requires Packable(f)
    ensures 1632 <= |r| <= 1660
  {
    if f.version == 0 then Base2(f)
    else if f.version == 1 then
      Base2(f) + U32(f.dtboSize) + U64(f.dtboOffset) + U32(BOOT_IMAGE_HEADER_V1_SIZE)
    else
      Base2(f) + U32(f.dtboSize) + U64(f.dtboOffset) + U32(BOOT_IMAGE_HEADER_V2_SIZE)
      + U32(f.dtbSize) + U64(f.dtbAddr)
  }

  lemma ReadBase1(f: Fields, file: bytes)
    requires PackableWords(f) && Base1(f) <= file
    ensures |file| >= 48 && At(file, 0, Magic())
    ensures Word(file, 8) == f.kernelSize && Word(file, 12) == f.kernelAddr
    ensures Word(file, 16) == f.ramdiskSize && Word(file, 20) == f.ramdiskAddr
    ensures Word(file, 24) == f.secondSize && Word(file, 28) == f.secondAddr
    ensures Word(file, 32) == f.tagsAddr && Word(file, 36) == f.pageSize
    ensures Word(file, 40) == f.version && Word(file, 44) == f.osWord
  {
    hide U32, FromU32, Word, At, Magic;
    var d0 := Magic();
    var d1 := d0 + U32(f.kernelSize);
    var d2 := d1 + U32(f.kernelAddr);
    var d3 := d2 + U32(f.ramdiskSize);
    var d4 := d3 + U32(f.ramdiskAddr);
    var d5 := d4 + U32(f.secondSize);
    var d6 := d5 + U32(f.secondAddr);
    var d7 := d6 + U32(f.tagsAddr);
    var d8 := d7 + U32(f.pageSize);
    var d9 := d8 + U32(f.version);
    LastWord(d9, f.osWord, file);
    LastWord(d8, f.version, file);
    LastWord(d7, f.pageSize, file);
    LastWord(d6, f.tagsAddr, file);
    LastWord(d5, f.secondAddr, file);
    LastWord(d4, f.secondSize, file);
    LastWord(d3, f.ramdiskAddr, file);
    LastWord(d2, f.ramdiskSize, file);
    LastWord(d1, f.kernelAddr, file);
    LastWord(d0, f.kernelSize, file);
    LastChunk([], d0, file);
  }

  lemma LastWord(before: bytes, v: nat, file: bytes)
    requires v < TWO32 && before + U32(v) <= file
    ensures before <= file && |before| + 4 <= |file| && Word(file, |before|) == v
  {
    LastChunk(before, U32(v), file);
    WordAt(file, |before|, v);
  }

  lemma LastLong(before: bytes, v: nat, file: bytes)
    requires v < TWO64 && before + U64(v) <= file
    ensures before <= file && |before| + 8 <= |file| && Long(file, |before|) == v
  {
    LastChunk(before, U64(v), file);
    LongAt(file, |before|, v);
  }

  lemma ReadBase2(f: Fields, file: bytes)
    requires PackableWords(f) && Base2(f) <= file
    ensures |file| >= 1632 && Base1(f) <= file
    ensures file[48..64] == PackS(16, f.name) && file[64..576] == PackS(512, f.cmdline)
    ensures file[576..608] == PackS(32, f.id) && file[608..1632] == PackS(1024, f.extraCmdline)
  {
    hide Base1, PackS;
    var d1 := Base1(f) + PackS(16, f.name);
    var d2 := d1 + PackS(512, f.cmdline);
    var d3 := d2 + PackS(32, f.id);
    LastChunk(d3, PackS(1024, f.extraCmdline), file);
    LastChunk(d2, PackS(32, f.id), file);
    LastChunk(d1, PackS(512, f.cmdline), file);
    LastChunk(Base1(f), PackS(16, f.name), file);
  }

  lemma ReadRendered(f: Fields, file: bytes)
    requires Packable(f) && Render(f) <= file
    ensures Base2(f) <= file
    ensures f.version >= 1 ==> |file| >= 1648 && Word(file, 1632) == f.dtboSize && Long(file, 1636) == f.dtboOffset
    ensures f.version >= 1 ==> Word(file, 1644) == if f.version == 1 then 1648 else 1660
    ensures f.version == 2 ==> |file| >= 1660 && Word(file, 1648) == f.dtbSize && Long(file, 1652) == f.dtbAddr
  {
    hide Base2, U32, U64, Word, Long;
    if f.version >= 1 {
      var d1 := Base2(f) + U32(f.dtboSize);
      var d2 := d1 + U64(f.dtboOffset);
      if f.version == 1 {
        LastWord(d2, BOOT_IMAGE_HEADER_V1_SIZE, file);
      } else {
        var d3 := d2 + U32(BOOT_IMAGE_HEADER_V2_SIZE);
        var d4 := d3 + U32(f.dtbSize);
        LastLong(d4, f.dtbAddr, file);
        LastWord(d3, f.dtbSize, file);
        LastWord(d2, BOOT_IMAGE_HEADER_V2_SIZE, file);
      }
      LastLong(d1, f.dtboOffset, file);
      LastWord(Base2(f), f.dtboSize, file);
    }
  }

  // ----- versions 3 and 4

  datatype Fields3 = Fields3(version: int, kernelSize: int, ramdiskSize: int, osWord: int, cmdline: bytes)

  predicate Packable3(f: Fields3) {
    3 <= f.version <= 4 && Fits32(f.kernelSize) && Fits32(f.ramdiskSize) && Fits32(f.osWord)
  }

  /** The signature size of an unsigned version 4 image is 0. */
  function Render3(f: Fields3): (r: bytes)
    requires Packable3(f)
    ensures |r| == if f.version == 3 then 1580 else 1584
  {
    var common := Magic() + U32(f.kernelSize) + U32(f.ramdiskSize) + U32(f.osWord)
      + U32(if f.version > 3 then BOOT_IMAGE_HEADER_V4_SIZE else BOOT_IMAGE_HEADER_V3_SIZE)
      + Zeros(16) + U32(f.version) + PackS(1536, f.cmdline);
    if f.version >= 4 then common + U32(0) else common
  }

  lemma ReadRendered3(f: Fields3, file: bytes)
    requires Packable3(f) && Render3(f) <= file
    ensures |file| >= 1580 && At(file, 0, Magic())
    ensures Word(file, 8) == f.kernelSize && Word(file, 12) == f.ramdiskSize && Word(file, 16) == f.osWord
    ensures Word(file, 40) == f.version && file[44..1580] == PackS(1536, f.cmdline)
    ensures Word(file, 20) == (if f.version == 3 then 1580 else 1584) && file[24..40] == Zeros(16)
    ensures f.version == 4 ==> |file| >= 1584 && Word(file, 1580) == 0
  {
    hide U32, FromU32, Word, At, Magic, PackS;
    var d0 := Magic();
    var d1 := d0 + U32(f.kernelSize);
    var d2 := d1 + U32(f.ramdiskSize);
    var d3 := d2 + U32(f.osWord);
    var size := if f.version > 3 then BOOT_IMAGE_HEADER_V4_SIZE else BOOT_IMAGE_HEADER_V3_SIZE;
    var d4 := d3 + U32(size);
    var d5 := d4 + Zeros(16);
    var d6 := d5 + U32(f.version);
    var d7 := d6 + PackS(1536, f.cmdline);
    if f.version == 4 { LastWord(d7, 0, file); }
    ChunkIs(d6, PackS(1536, f.cmdline), file);
    LastWord(d5, f.version, file);
    ChunkIs(d4, Zeros(16), file);
    LastWord(d3, size, file);
    LastWord(d2, f.osWord, file);
    LastWord(d1, f.ramdiskSize, file);
    LastWord(d0, f.kernelSize, file);
    LastChunk([], d0, file);
  }

  lemma ChunkIs(before: bytes, chunk: bytes, file: bytes)
    requires before + chunk <= file
    ensures before <= file && |before| + |chunk| <= |file| && file[|before|..|before| + |chunk|] == chunk
  {
    LastChunk(before, chunk, file);
  }
}
