/** The card-specific data as mmc_decode_and_save_csd decodes it (mmc_sdhci.c), and what the standards say. */
module Csd {
  import opened Bits
  import opened BitFields

  datatype Csd = Csd(
    structure: nat, specVers: nat, cardCmdClass: nat, writeBlkLen: nat, readBlkLen: nat, r2wFactor: nat,
    sectorSize: nat, cSizeMult: nat, cSize: nat, nsacClkCycle: nat, taacNs: nat, tranSpeed: nat,
    eraseGrpSize: nat, eraseGrpMult: nat, wpGrpSize: nat, wpGrpEnable: nat, permWp: nat, tempWp: nat,
    eraseBlkLen: nat, readBlkMisalign: nat, writeBlkMisalign: nat, readBlkPartial: nat, writeBlkPartial: nat)

  // ----- times and rates

  /** Ten times the mantissas of SD cards: 1.0, 1.2, .., 8.0; code 0 is reserved. */
  function Mantissa(code: nat): (x: nat)
    ensures x <= 80
  {
    if code < 16 then [0, 10, 12, 13, 15, 20, 25, 30, 35, 40, 45, 50, 55, 60, 70, 80][code] else 0
  }

  /** The mantissas of transfer rates of eMMC devices, which are those of the driver's table. */
  function EmmcMantissa(code: nat): (x: nat)
    ensures x <= 80
  {
    if code == 6 then 26 else if code == 11 then 52 else Mantissa(code)
  }

  function Power10(n: nat): (p: nat)
    ensures p > 0
  {
    if n == 0 then 1 else 10 * Power10(n - 1)
  }

  /** A tenth of the units 100 kbit/s to 100 Mbit/s; the other codes are reserved. */
  function RateUnit(code: nat): nat { if code < 4 then 10 * Power10(code) else 0 }

  function Product(x: nat, y: nat): (z: nat)
    ensures z == x * y
    ensures z == 0 <==> x == 0 || y == 0
  {
    Nonnegative(x, y);
    x * y
  }

  lemma Nonnegative(x: nat, y: nat)
    ensures x * y >= 0 && (x * y == 0 <==> x == 0 || y == 0)
  {
    MulMono(x, 0, y);
    if x > 0 && y > 0 { MulMono(x, 1, y); }
  }

  /** The access time in tenths of a nanosecond. */
  function AccessTime(v: nat): nat {
    hide BitsOf;
    Product(Mantissa(BitsOf(v, 115, 4)), Power10(BitsOf(v, 112, 3)))
  }

  /** The transfer rate in kbit/s: section 5.3.2 of the SD Physical Layer Specification, and section 7.3 of
      JESD84-B51. */
  function SdRate(v: nat): nat {
    hide BitsOf;
    Product(Mantissa(BitsOf(v, 99, 4)), RateUnit(BitsOf(v, 96, 3)))
  }

  function EmmcRate(v: nat): nat {
    hide BitsOf;
    Product(EmmcMantissa(BitsOf(v, 99, 4)), RateUnit(BitsOf(v, 96, 3)))
  }

  // ----- the registers

  /** A block length of an SD card has to be 512, 1024 or 2048 bytes. */
  function SdBlockLength(code: nat): nat { if 8 < code < 12 then Pow2(code) else 512 }

  /** Section 7.3 of JESD84-B51; `other` stands for the fields the register does not have. */
  function EmmcCsd(v: nat, other: Csd): Csd {
    other.(structure := BitsOf(v, 126, 2), specVers := BitsOf(v, 122, 4), taacNs := AccessTime(v) / 10,
           nsacClkCycle := BitsOf(v, 104, 8) * 100, tranSpeed := EmmcRate(v), cardCmdClass := BitsOf(v, 84, 12),
           readBlkLen := Pow2(BitsOf(v, 80, 4)), readBlkPartial := BitsOf(v, 79, 1),
           writeBlkMisalign := BitsOf(v, 78, 1), readBlkMisalign := BitsOf(v, 77, 1), cSize := BitsOf(v, 62, 12),
           cSizeMult := BitsOf(v, 47, 3), eraseGrpSize := BitsOf(v, 42, 5), eraseGrpMult := BitsOf(v, 37, 5),
           wpGrpSize := BitsOf(v, 32, 5), wpGrpEnable := BitsOf(v, 31, 1), r2wFactor := BitsOf(v, 26, 3),
           writeBlkLen := Pow2(BitsOf(v, 22, 4)), writeBlkPartial := BitsOf(v, 21, 1),
           permWp := BitsOf(v, 13, 1), tempWp := BitsOf(v, 12, 1))
  }

  /** Section 5.3.2 of the SD Physical Layer Specification, version 1.0 of the register. */
  function SdCsd1(v: nat, other: Csd): Csd {
    other.(structure := BitsOf(v, 126, 2), taacNs := AccessTime(v) / 10, nsacClkCycle := BitsOf(v, 104, 8) * 100,
           tranSpeed := SdRate(v), cardCmdClass := BitsOf(v, 84, 12), readBlkLen := SdBlockLength(BitsOf(v, 80, 4)),
           readBlkPartial := BitsOf(v, 79, 1), writeBlkMisalign := BitsOf(v, 78, 1),
           readBlkMisalign := BitsOf(v, 77, 1),
           cSize := BitsOf(v, 62, 12), cSizeMult := BitsOf(v, 47, 3), eraseBlkLen := BitsOf(v, 46, 1),
           sectorSize := BitsOf(v, 39, 7) + 1, wpGrpSize := BitsOf(v, 32, 7), wpGrpEnable := BitsOf(v, 31, 1),
           r2wFactor := BitsOf(v, 26, 3), writeBlkLen := SdBlockLength(BitsOf(v, 22, 4)),
           writeBlkPartial := BitsOf(v, 21, 1), permWp := BitsOf(v, 13, 1), tempWp := BitsOf(v, 12, 1))
  }

  /** Section 5.3.3, version 2.0: most fields have fixed values. */
  function SdCsd2(v: nat, other: Csd): Csd {
    other.(structure := BitsOf(v, 126, 2), taacNs := AccessTime(v) / 10, nsacClkCycle := BitsOf(v, 104, 8) * 100,
           tranSpeed := SdRate(v), cardCmdClass := BitsOf(v, 84, 12), readBlkLen := 512, readBlkPartial := 0,
           writeBlkMisalign := 0, readBlkMisalign := 0, cSize := BitsOf(v, 48, 22), cSizeMult := 0, eraseBlkLen := 1,
           wpGrpSize := 0, wpGrpEnable := 0, r2wFactor := 2, writeBlkLen := 512, writeBlkPartial := 0,
           permWp := BitsOf(v, 13, 1), tempWp := BitsOf(v, 12, 1))
  }

  /** What the standards say of the fields the card has. */
  function StandardCsd(v: nat, sd: bool, other: Csd): Csd {
    if !sd then EmmcCsd(v, other) else if BitsOf(v, 126, 2) == 1 then SdCsd2(v, other) else SdCsd1(v, other)
  }

  /** What the code makes of the register; `was` is what the structure held, as it is not initialised. */
  function CsdOf(v: nat, sd: bool, was: Csd): Csd {
    StandardCsd(v, sd, was).(tranSpeed := if sd then EmmcRate(v) else 0)
  }

  /** Every field is decoded as the standards say but the transfer rate: that of an eMMC device is dropped, and
      that of an SD card is looked up in the eMMC table, which differs at the codes of 2.5 and 5.0. */
  lemma CsdIsRightIff(v: nat, sd: bool, was: Csd)
    ensures CsdOf(v, sd, was).(tranSpeed := 0) == StandardCsd(v, sd, was).(tranSpeed := 0)
    ensures CsdOf(v, sd, was) == StandardCsd(v, sd, was) <==>
              if sd then BitsOf(v, 96, 3) >= 4 || BitsOf(v, 99, 4) !in {6, 11}
              else BitsOf(v, 96, 3) >= 4 || BitsOf(v, 99, 4) == 0
  {
    hide BitsOf, Pow2, AccessTime, SdBlockLength;
    var code, unit := BitsOf(v, 99, 4), RateUnit(BitsOf(v, 96, 3));
    FourBits(v);
    MantissaIsZero(code);
    assert unit == 0 <==> BitsOf(v, 96, 3) >= 4;
    if unit > 0 && code in {6, 11} { MulMono(unit, Mantissa(code) + 1, EmmcMantissa(code)); }
  }

  lemma FourBits(v: nat)
    ensures BitsOf(v, 99, 4) < 16 && BitsOf(v, 115, 4) < 16
  {
    NibbleBound(v, 99);
    NibbleBound(v, 115);
  }

  lemma MantissaIsZero(code: nat)
    requires code < 16
    ensures Mantissa(code) == 0 <==> code == 0
    ensures EmmcMantissa(code) == 0 <==> code == 0
  {
  }

  /** A default-speed SD card, whose register has 0x32 for 25 Mbit/s, is decoded as one of 26 Mbit/s. */
  lemma DefaultSpeedIsWrong(v: nat, was: Csd)
    requires BitsOf(v, 96, 3) == 2 && BitsOf(v, 99, 4) == 6
    ensures StandardCsd(v, true, was).tranSpeed == 25_000 && CsdOf(v, true, was).tranSpeed == 26_000
  {
    hide BitsOf, Pow2;
    assert Power10(2) == 100;
  }

  /** The access time in nanoseconds is exact unless the unit is one nanosecond and the mantissa has a
      fraction. */
  lemma AccessTimeIsExactIff(v: nat, sd: bool, was: Csd)
    ensures 10 * CsdOf(v, sd, was).taacNs == AccessTime(v)
            <==> BitsOf(v, 112, 3) > 0 || Mantissa(BitsOf(v, 115, 4)) % 10 == 0
  {
    hide BitsOf, Pow2, Mantissa;
    var x, n := Mantissa(BitsOf(v, 115, 4)), BitsOf(v, 112, 3);
    if n > 0 {
      assert x * Power10(n) == 10 * (x * Power10(n - 1));
    }
  }

  // ----- the code

  /** The fields mmc_decode_and_save_csd sets, in a structure that is not initialised. */
  method DecodeCsd(rawCsd: seq<word>, sd: bool, was: Csd) returns (csd: Csd)
    requires |rawCsd| == 4
    ensures csd == CsdOf(Value(rawCsd), sd, was)
  {
    hide UnpackBits, BitsOf, Value, Pow2, AccessTime, EmmcRate, SdRate, SdBlockLength;
    ghost var v := Value(rawCsd);
    csd := was.(structure := Field(rawCsd, 126, 2), cardCmdClass := Field(rawCsd, 84, 12),
                nsacClkCycle := Field(rawCsd, 104, 8) * 100, permWp := Field(rawCsd, 13, 1),
                tempWp := Field(rawCsd, 12, 1));
    var taac := TaacNs(rawCsd);
    csd := csd.(taacNs := taac);
    if sd {
      var tranSpeed := TranSpeed(rawCsd);
      csd := csd.(tranSpeed := tranSpeed);
      if csd.structure == 1 {
        csd := csd.(writeBlkLen := 512, readBlkLen := 512, r2wFactor := 2, cSizeMult := 0,
                    cSize := Field(rawCsd, 48, 22), eraseBlkLen := 1, readBlkMisalign := 0, writeBlkMisalign := 0,
                    readBlkPartial := 0, writeBlkPartial := 0, wpGrpSize := 0, wpGrpEnable := 0);
      } else {
        csd := csd.(writeBlkLen := SdBlockLength(Field(rawCsd, 22, 4)),
                    readBlkLen := SdBlockLength(Field(rawCsd, 80, 4)),
                    r2wFactor := Field(rawCsd, 26, 3), sectorSize := Field(rawCsd, 39, 7) + 1,
                    eraseBlkLen := Field(rawCsd, 46, 1), readBlkMisalign := Field(rawCsd, 77, 1),
                    writeBlkMisalign := Field(rawCsd, 78, 1), readBlkPartial := Field(rawCsd, 79, 1),
                    writeBlkPartial := Field(rawCsd, 21, 1), cSizeMult := Field(rawCsd, 47, 3),
                    cSize := Field(rawCsd, 62, 12), wpGrpSize := Field(rawCsd, 32, 7),
                    wpGrpEnable := Field(rawCsd, 31, 1));
      }
    } else {
      csd := csd.(specVers := Field(rawCsd, 122, 4), writeBlkLen := Pow2(Field(rawCsd, 22, 4)),
                  readBlkLen := Pow2(Field(rawCsd, 80, 4)), r2wFactor := Field(rawCsd, 26, 3),
                  cSizeMult := Field(rawCsd, 47, 3), cSize := Field(rawCsd, 62, 12),
                  readBlkMisalign := Field(rawCsd, 77, 1), writeBlkMisalign := Field(rawCsd, 78, 1),
                  readBlkPartial := Field(rawCsd, 79, 1), writeBlkPartial := Field(rawCsd, 21, 1), tranSpeed := 0,
                  eraseGrpSize := Field(rawCsd, 42, 5), eraseGrpMult := Field(rawCsd, 37, 5),
                  wpGrpSize := Field(rawCsd, 32, 5), wpGrpEnable := Field(rawCsd, 31, 1));
    }
  }

  /** UNPACK_BITS on the register. */
  function Field(rawCsd: seq<word>, start: nat, len: nat): (x: nat)
    requires |rawCsd| == 4 && 0 < len <= 32 && start + len <= 128
    ensures x == BitsOf(Value(rawCsd), start, len)
  {
    UnpackIsArithmetic(rawCsd, start, len);
    UnpackBits(rawCsd, start, len)
  }

  /** The two tables of access times. */
  method TaacNs(rawCsd: seq<word>) returns (ns: nat)
    requires |rawCsd| == 4
    ensures ns == AccessTime(Value(rawCsd)) / 10
  {
    hide UnpackBits, BitsOf, Value;
    var taacUnit := [1, 10, 100, 1_000, 10_000, 100_000, 1_000_000, 10_000_000];
    var taacValue := [0, 10, 12, 13, 15, 20, 25, 30, 35, 40, 45, 50, 55, 60, 70, 80];
    var unit, value := Field(rawCsd, 112, 3), Field(rawCsd, 115, 4);
    CodesInTables(Value(rawCsd));
    PowersOf10();
    assert taacUnit[unit] == Power10(unit) && taacValue[value] == Mantissa(value);
    ns := taacValue[value] * taacUnit[unit] / 10;
  }

  /** The two tables of transfer rates. */
  method TranSpeed(rawCsd: seq<word>) returns (kbps: nat)
    requires |rawCsd| == 4
    ensures kbps == EmmcRate(Value(rawCsd))
  {
    hide UnpackBits, BitsOf, Value;
    var xferRateUnit := [100, 1_000, 10_000, 100_000, 0, 0, 0, 0];
    var xferRateValue := [0, 10, 12, 13, 15, 20, 26, 30, 35, 40, 45, 52, 55, 60, 70, 80];
    var unit, value := Field(rawCsd, 96, 3), Field(rawCsd, 99, 4);
    CodesInTables(Value(rawCsd));
    PowersOf10();
    assert xferRateUnit[unit] == 10 * RateUnit(unit) && xferRateValue[value] == EmmcMantissa(value);
    TenTimes(xferRateValue[value], RateUnit(unit));
    kbps := xferRateValue[value] * xferRateUnit[unit] / 10;
  }

  lemma TenTimes(x: nat, y: nat)
    ensures x * (10 * y) / 10 == x * y
  {
    assert x * (10 * y) == 10 * (x * y);
    ModUnique(x * (10 * y), 10, x * y, 0);
  }

  lemma CodesInTables(v: nat)
    ensures BitsOf(v, 96, 3) < 8 && BitsOf(v, 112, 3) < 8 && BitsOf(v, 99, 4) < 16 && BitsOf(v, 115, 4) < 16
  {
    FourBits(v);
    ThreeBits(v, 96);
    ThreeBits(v, 112);
  }

  lemma ThreeBits(v: nat, start: nat)
    ensures BitsOf(v, start, 3) < 8
  {
    assert Pow2(3) == 8;
  }

  lemma PowersOf10()
    ensures Power10(0) == 1 && Power10(1) == 10 && Power10(2) == 100 && Power10(3) == 1_000 && Power10(4) == 10_000
    ensures Power10(5) == 100_000 && Power10(6) == 1_000_000 && Power10(7) == 10_000_000
  {
    assert Power10(3) == 1_000;
    assert Power10(5) == 100_000;
  }

  // ----- the capacity

  /** The sector count of the extended CSD as the code shifts it together: a byte is promoted to a signed
      int, so a set top bit of the last byte extends into the upper 32 bits. */
  function SecCount(b: seq<nat>): nat
    requires |b| == 4 && forall i :: 0 <= i < 4 ==> b[i] < 256
  {
    var low := b[0] + 0x100 * b[1] + 0x1_0000 * b[2] + 0x100_0000 * b[3];
    if b[3] < 128 then low else low + 0xFFFF_FFFF_0000_0000
  }

  /** The sector count is the little-endian number exactly below 2^31 sectors. */
  lemma SecCountIsExactIff(b: seq<nat>)
    requires |b| == 4 && forall i :: 0 <= i < 4 ==> b[i] < 256
    ensures SecCount(b) == b[0] + 0x100 * b[1] + 0x1_0000 * b[2] + 0x100_0000 * b[3]
       <==> b[0] + 0x100 * b[1] + 0x1_0000 * b[2] + 0x100_0000 * b[3] < 0x8000_0000
  {
  }

  /** Blocks of the read block length: (C_SIZE + 1) * 2 ^ (C_SIZE_MULT + 2). */
  function Blocks(v: nat): nat {
    hide BitsOf, Pow2;
    Product(BitsOf(v, 62, 12) + 1, Pow2(BitsOf(v, 47, 3) + 2))
  }

  /** The capacity in bytes, in 64-bit arithmetic, for the four kinds of card. */
  function CapacityOf(v: nat, sd: bool, secCount: seq<nat>): nat
    requires |secCount| == 4 && forall i :: 0 <= i < 4 ==> secCount[i] < 256
  {
    hide BitsOf, Pow2;
    if sd && BitsOf(v, 126, 2) == 1 then (1 + BitsOf(v, 48, 22)) * 512 * 1024
    else if sd then Product(Blocks(v), SdBlockLength(BitsOf(v, 80, 4)))
    else if BitsOf(v, 62, 12) != 0xFFF then Product(Blocks(v), Pow2(BitsOf(v, 80, 4)))
    else SecCount(secCount) * 512 % 0x1_0000_0000_0000_0000
  }

  /** Of an eMMC device above 2 GB the capacity is the sector count times 512 exactly below 2^31 sectors. */
  lemma LargeCapacityIsRightIff(v: nat, secCount: seq<nat>)
    requires |secCount| == 4 && forall i :: 0 <= i < 4 ==> secCount[i] < 256
    requires BitsOf(v, 62, 12) == 0xFFF
    ensures var n := secCount[0] + 0x100 * secCount[1] + 0x1_0000 * secCount[2] + 0x100_0000 * secCount[3];
            CapacityOf(v, false, secCount) == 512 * n <==> n < 0x8000_0000
  {
    hide BitsOf, Pow2;
  }

  method Capacity(csd: Csd, sd: bool, secCount: seq<nat>, ghost v: nat, ghost was: Csd) returns (capacity: nat)
    requires csd == CsdOf(v, sd, was) && |secCount| == 4 && forall i :: 0 <= i < 4 ==> secCount[i] < 256
    ensures capacity == CapacityOf(v, sd, secCount)
  {
    hide BitsOf, Pow2, SecCount, AccessTime, EmmcRate, SdRate, SdBlockLength;
    if sd && csd.structure == 1 {
      capacity := (1 + csd.cSize) * 512 * 1024;
    } else if sd || csd.cSize != 0xFFF {
      var blocks := Product(csd.cSize + 1, Pow2(csd.cSizeMult + 2));
      capacity := Product(blocks, csd.readBlkLen);
    } else {
      capacity := SecCount(secCount) * 512 % 0x1_0000_0000_0000_0000;
    }
  }

  // ----- the write-protect group size

  /** The size of a write-protect group, in 32-bit arithmetic; `size` and `mult` are what the erase group
      fields of the structure held before: an SD card never sets them. */
  function GroupSize(v: nat, sd: bool, hcUnit: bool, hcSize: nat, size: nat, mult: nat): int {
    hide BitsOf, Pow2;
    if !sd && hcUnit then 1024 * hcSize
    else if !sd then (BitsOf(v, 32, 5) + 1) * (BitsOf(v, 42, 5) + 1) * (BitsOf(v, 37, 5) + 1)
    else
      var group := if BitsOf(v, 126, 2) == 1 then 0 else BitsOf(v, 32, 7);
      (group + 1) * (size + 1) * (mult + 1) % 0x1_0000_0000
  }

  method WpGroupSize(csd: Csd, sd: bool, hcUnit: bool, hcSize: nat, ghost v: nat, ghost was: Csd)
      returns (groupSize: int)
    requires csd == CsdOf(v, sd, was) && hcSize < 256
    ensures groupSize == GroupSize(v, sd, hcUnit, hcSize, was.eraseGrpSize, was.eraseGrpMult)
  {
    hide BitsOf, Pow2, AccessTime, EmmcRate, SdRate, SdBlockLength;
    if !sd && hcUnit {
      groupSize := 512 * 1024 * hcSize / 512;
    } else {
      groupSize := (csd.wpGrpSize + 1) * (csd.eraseGrpSize + 1) * (csd.eraseGrpMult + 1) % 0x1_0000_0000;
      if !sd { SmallProduct(v, csd.wpGrpSize, csd.eraseGrpSize, csd.eraseGrpMult); }
    }
  }

  lemma SmallProduct(v: nat, a: nat, b: nat, c: nat)
    requires a == BitsOf(v, 32, 5) && b == BitsOf(v, 42, 5) && c == BitsOf(v, 37, 5)
    ensures 0 < (a + 1) * (b + 1) * (c + 1) < 0x1_0000_0000
  {
    hide BitsOf, Pow2;
    FieldBound(v, 32, 5);
    FieldBound(v, 42, 5);
    FieldBound(v, 37, 5);
    BoundProduct(a + 1, b + 1, c + 1);
  }

  lemma FieldBound(v: nat, start: nat, len: nat)
    ensures BitsOf(v, start, len) < Pow2(len) && Pow2(5) == 32 && Pow2(7) == 128
  {
  }

  lemma BoundProduct(a: nat, b: nat, c: nat)
    requires 0 < a <= 32 && 0 < b <= 32 && 0 < c <= 32
    ensures 0 < a * b * c <= 32 * 32 * 32
  {
    MulMono(a, b, 32);
    MulMono(a, 1, b);
    MulMono(a * b, c, 32);
    MulMono(a * b, 1, c);
  }

  /** Of an eMMC device the group size is a property of the card, and zero exactly for a high-capacity
      unit of zero; of an SD card it always depends on what the structure held before. */
  lemma GroupSizeIsTheCards(v: nat, hcUnit: bool, hcSize: nat, size: nat, mult: nat)
    ensures GroupSize(v, false, hcUnit, hcSize, size, mult) == GroupSize(v, false, hcUnit, hcSize, 0, 0)
    ensures GroupSize(v, false, hcUnit, hcSize, size, mult) == 0 <==> hcUnit && hcSize == 0
    ensures GroupSize(v, true, hcUnit, hcSize, 1, 0) != GroupSize(v, true, hcUnit, hcSize, 0, 0)
  {
    hide BitsOf, Pow2;
    SmallProduct(v, BitsOf(v, 32, 5), BitsOf(v, 42, 5), BitsOf(v, 37, 5));
    FieldBound(v, 32, 7);
  }

  /** mmc_decode_and_save_csd */
  method DecodeAndSaveCsd(rawCsd: seq<word>, sd: bool, secCount: seq<nat>, hcUnit: bool, hcSize: nat, was: Csd)
    returns (csd: Csd, capacity: nat, groupSize: int)
    requires |rawCsd| == 4 && |secCount| == 4 && (forall i :: 0 <= i < 4 ==> secCount[i] < 256) && hcSize < 256
    ensures csd == CsdOf(Value(rawCsd), sd, was)
    ensures capacity == CapacityOf(Value(rawCsd), sd, secCount)
    ensures groupSize == GroupSize(Value(rawCsd), sd, hcUnit, hcSize, was.eraseGrpSize, was.eraseGrpMult)
  {
    hide BitsOf, Value, CapacityOf, CsdOf, GroupSize;
    csd := DecodeCsd(rawCsd, sd, was);
    capacity := Capacity(csd, sd, secCount, Value(rawCsd), was);
    groupSize := WpGroupSize(csd, sd, hcUnit, hcSize, Value(rawCsd), was);
  }
}
