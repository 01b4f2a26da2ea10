/** Multi-word registers: the shift of 136-bit responses (sdhci.c), the bit fields cut out of them and the
    byte-swapped SD status (mmc_sdhci.c, mmc_sdhci.h). */
module BitFields {
  import opened Bits

  type word = x: int | 0 <= x < 0x1_0000_0000

  /** The number an array of words stands for, word 0 lowest. */
  function Value(a: seq<word>): nat {
    if a == [] then 0 else a[0] + Pow2(32) * Value(a[1..])
  }

  /** Bits start .. start + len of a number. */
  function BitsOf(v: nat, start: nat, len: nat): nat {
    QuotientNonneg(v, Pow2(start));
    v / Pow2(start) % Pow2(len)
  }

  lemma Pow2Of32()
    ensures Pow2(32) == 0x1_0000_0000 && Pow2(24) == 0x100_0000 && Pow2(8) == 256 && Pow2(16) == 65536
  {
    assert Pow2(8) == 256;
    Pow2Add(8, 8);
    Pow2Add(8, 16);
    Pow2Add(16, 16);
  }

  // ----- UNPACK_BITS

  function Mask(len: nat): nat { if len < 32 then Pow2(len) - 1 else 0xFFFF_FFFF }

  /** UNPACK_BITS with 32-bit words: shifts drop what leaves the word. */
  function UnpackBits(a: seq<word>, start: nat, len: nat): nat
    requires 0 < len <= 32 && start + len <= 32 * |a|
  {
    var indx: nat, offset: nat := start / 32, start % 32;
    var indx2: nat := (start + len - 1) / 32;
    var unpck := Shr(a[indx], offset);
    var joined := if indx2 > indx then Or(unpck, Shl(a[indx2], 32 - offset) % 0x1_0000_0000) else unpck;
    And(joined, Mask(len))
  }

  lemma MaskIsRemainder(x: nat, len: nat)
    requires 0 < len <= 32
    ensures And(x, Mask(len)) == x % Pow2(len)
  {
    AndMask(x, len);
    if len == 32 { Pow2Of32(); }
  }

  /** Adding a multiple does not change the remainder. */
  lemma AddMultiple(x: nat, m: nat, k: nat)
    requires m > 0
    ensures (x + m * k) % m == x % m
  {
    var q, r := x / m, x % m;
    assert x == m * q + r;
    assert m * (q + k) == m * q + m * k;
    ModUnique(x + m * k, m, q + k, r);
  }

  /** Dropping whole words is division. */
  lemma {:induction false} DropWords(a: seq<word>, i: nat)
    requires i <= |a|
    ensures Value(a) / Pow2(32 * i) == Value(a[i..])
  {
    hide Pow2, Value;
    if i == 0 {
      assert a[0..] == a;
      Pow2OfZero();
    } else {
      DropWords(a[1..], i - 1);
      assert a[1..][i - 1..] == a[i..];
      FirstWord(a);
      Pow2Add(32, 32 * (i - 1));
      DivDiv(Value(a), Pow2(32), Pow2(32 * (i - 1)));
    }
  }

  lemma FirstWord(a: seq<word>)
    requires a != []
    ensures Value(a) / Pow2(32) == Value(a[1..]) && Value(a) % Pow2(32) == a[0]
  {
    Pow2Of32();
    ModUnique(Value(a), Pow2(32), Value(a[1..]), a[0]);
  }

  lemma ShiftArith(x: nat, rest: nat, p: nat, q: nat)
    requires p > 0 && q > 0 && x < p * q
    ensures (x + p * q * rest) / q == x / q + p * rest && 0 <= x / q < p
  {
    var h, l := x / q, x % q;
    assert x == q * h + l;
    QuotientNonneg(x, q);
    if h >= p { MulMono(q, p, h); }
    Regroup(p, q, rest);
    assert q * (h + p * rest) == q * h + q * (p * rest);
    ModUnique(x + p * q * rest, q, h + p * rest, l);
  }

  lemma Regroup(p: int, q: int, r: int)
    ensures p * q * r == q * (p * r) && p * q * r == p * (q * r)
  {
  }

  /** Shifting the number right by less than a word. */
  lemma ShiftInside(a: seq<word>, offset: nat)
    requires a != [] && offset < 32
    ensures Value(a) / Pow2(offset) == a[0] / Pow2(offset) + Pow2(32 - offset) * Value(a[1..])
    ensures 0 <= a[0] / Pow2(offset) < Pow2(32 - offset)
  {
    hide Pow2;
    Pow2Add(32 - offset, offset);
    Pow2Of32();
    ShiftArith(a[0], Value(a[1..]), Pow2(32 - offset), Pow2(offset));
  }

  /** A field within one word. */
  lemma FieldInWord(h: nat, rest: nat, offset: nat, len: nat)
    requires offset + len <= 32
    ensures (h + Pow2(32 - offset) * rest) % Pow2(len) == h % Pow2(len)
  {
    hide Pow2;
    var k := Pow2(32 - offset - len);
    Pow2Add(len, 32 - offset - len);
    Regroup(Pow2(len), k, rest);
    AddMultiple(h, Pow2(len), k * rest);
  }

  lemma ShiftedRemainder(w: nat, p: nat, q: nat)
    requires p > 0 && q > 0
    ensures p * q > 0 && w * p % (p * q) == p * (w % q)
  {
    QuotientNonneg(w, q);
    var d, r := w / q, w % q;
    assert w == q * d + r;
    Regroup(p, q, d);
    assert w * p == p * (q * d) + p * r;
    MulMono(p, r + 1, q);
    assert p * (r + 1) == p * r + p;
    ModUnique(w * p, p * q, d, p * r);
  }

  /** What of the second word survives the 32-bit shift. */
  lemma SecondWord(w: word, offset: nat)
    requires 0 < offset < 32
    ensures Shl(w, 32 - offset) % 0x1_0000_0000 == Pow2(32 - offset) * (w % Pow2(offset))
  {
    hide Pow2;
    Pow2Add(32 - offset, offset);
    Pow2Of32();
    ShiftedRemainder(w, Pow2(32 - offset), Pow2(offset));
  }

  /** Adding the whole second word instead of its low part adds a multiple of p q. */
  lemma WholeWord(w: nat, rest: nat, p: nat, q: nat) returns (s: nat)
    requires p > 0 && q > 0
    ensures p * (w + p * q * rest) == p * (w % q) + p * q * s
  {
    QuotientNonneg(w, q);
    var d, r := w / q, w % q;
    assert w == q * d + r;
    s := d + p * rest;
    Regroup(p, q, p * rest);
    Regroup(p, q, rest);
    Regroup(p, q, d);
    var k := p * rest;
    assert p * (w + q * k) == p * (q * d) + p * r + p * (q * k);
    assert p * q * s == p * q * d + p * q * k;
  }

  /** A field across two words. */
  lemma FieldAcross(h: nat, w: word, rest: nat, offset: nat, len: nat)
    requires 0 < offset < 32 && len <= 32 && h < Pow2(32 - offset)
    ensures Or(h, Shl(w, 32 - offset) % 0x1_0000_0000) % Pow2(len)
         == (h + Pow2(32 - offset) * (w + Pow2(32) * rest)) % Pow2(len)
  {
    hide Pow2, Shl, Or;
    var p, q := Pow2(32 - offset), Pow2(offset);
    Pow2Add(32 - offset, offset);
    SecondWord(w, offset);
    OrDisjoint(h, w % q, 32 - offset);
    Pow2Add(len, 32 - len);
    AcrossArith(h, w, rest, p, q, Pow2(len), Pow2(32 - len), Pow2(32));
  }

  lemma AcrossArith(h: nat, w: nat, rest: nat, p: nat, q: nat, m: nat, k: nat, n: nat)
    requires p > 0 && q > 0 && m > 0 && n == p * q && n == m * k
    ensures (h + p * (w % q)) % m == (h + p * (w + n * rest)) % m
  {
    var s := WholeWord(w, rest, p, q);
    Regroup(m, k, s);
    AddMultiple(h + p * (w % q), m, k * s);
  }

  /** UNPACK_BITS is integer arithmetic, for every field that lies in the array. */
  lemma UnpackIsArithmetic(a: seq<word>, start: nat, len: nat)
    requires 0 < len <= 32 && start + len <= 32 * |a|
    ensures UnpackBits(a, start, len) == BitsOf(Value(a), start, len)
  {
    hide Value, Pow2, Shr, Shl, Or, And, Mask;
    var indx: nat, offset: nat := start / 32, start % 32;
    FromStart(a, start, indx, offset);
    var h: nat := a[indx] / Pow2(offset);
    ShrIsDivision(a[indx], offset);
    if (start + len - 1) / 32 > indx {
      MaskIsRemainder(Or(h, Shl(a[indx + 1], 32 - offset) % 0x1_0000_0000), len);
      TailOfTwo(a, indx);
      FieldAcross(h, a[indx + 1], Value(a[indx + 2..]), offset, len);
    } else {
      MaskIsRemainder(h, len);
      FieldInWord(h, Value(a[indx + 1..]), offset, len);
    }
  }

  lemma ShrIsDivision(x: nat, n: nat)
    ensures Shr(x, n) == x / Pow2(n)
  {
  }

  /** The number from a bit on: the rest of a word, and the words above it. */
  lemma FromStart(a: seq<word>, start: nat, indx: nat, offset: nat)
    requires start == 32 * indx + offset && offset < 32 && indx < |a|
    ensures Value(a) / Pow2(start) == a[indx] / Pow2(offset) + Pow2(32 - offset) * Value(a[indx + 1..])
    ensures 0 <= a[indx] / Pow2(offset) < Pow2(32 - offset)
  {
    hide Value, Pow2;
    var tail := a[indx..];
    DropWords(a, indx);
    Pow2Add(32 * indx, offset);
    DivDiv(Value(a), Pow2(32 * indx), Pow2(offset));
    ShiftInside(tail, offset);
    assert tail[1..] == a[indx + 1..];
  }

  lemma TailOfTwo(a: seq<word>, i: nat)
    requires i + 1 < |a|
    ensures Value(a[i + 1..]) == a[i + 1] + Pow2(32) * Value(a[i + 2..])
  {
    assert a[i + 1..][1..] == a[i + 2..];
  }

  // ----- 136-bit responses

  lemma {:induction false} ValueAppend(a: seq<word>, x: word)
    ensures Value(a + [x]) == Value(a) + Pow2(32 * |a|) * x
  {
    hide Pow2, Value;
    Pow2OfZero();
    ValueOfEmpty();
    FirstOf(a + [x]);
    if a == [] {
      assert a + [x] == [x] && [x][1..] == [];
    } else {
      FirstOf(a);
      ValueAppend(a[1..], x);
      assert (a + [x])[1..] == a[1..] + [x];
      Pow2Add(32, 32 * |a[1..]|);
      AddScaled(Pow2(32), Value(a[1..]), Pow2(32 * |a[1..]|), x);
    }
  }

  lemma ValueOfEmpty()
    ensures Value([]) == 0
  {
  }

  lemma FirstOf(a: seq<word>)
    requires a != []
    ensures Value(a) == a[0] + Pow2(32) * Value(a[1..])
  {
  }

  lemma AddScaled(p: int, v: int, q: int, x: int)
    ensures p * (v + q * x) == p * v + p * q * x
  {
    Regroup(p, q, x);
  }

  /** One register moved up by eight bits, with what falls out of the one below. */
  lemma ShiftedWord(reg: word, carry: nat)
    requires carry < 256
    ensures Shl(reg, 8) % 0x1_0000_0000 == 256 * (reg % 0x100_0000)
    ensures Or(Shl(reg, 8) % 0x1_0000_0000, carry) == 256 * (reg % 0x100_0000) + carry
    ensures 256 * (reg % 0x100_0000) + carry + 0x1_0000_0000 * (reg / 0x100_0000) == 256 * reg + carry
  {
    hide Or;
    Pow2Of32();
    OrDisjoint(carry, reg % 0x100_0000, 8);
    OrCommutes(carry, (reg % 0x100_0000) * 256);
    assert reg * 256 == 0x1_0000_0000 * (reg / 0x100_0000) + 256 * (reg % 0x100_0000);
  }

  /** The top byte of the register below. */
  function Carry(regs: seq<word>, i: nat): (c: nat)
    requires i <= |regs|
    ensures c < 256
  {
    if i == 0 then 0 else regs[i - 1] / 0x100_0000
  }

  /** The loop that reads an R2 response: the number, shifted left by eight bits. */
  method ReadR2(regs: seq<word>) returns (resp: seq<word>)
    ensures |resp| == |regs| && Value(resp) == 256 * Value(regs) % Pow2(32 * |regs|)
  {
    hide Value, Pow2, Shl, Or;
    resp := [];
    NothingShifted(regs);
    for i := 0 to |regs|
      invariant |resp| == i
      invariant 256 * Value(regs[..i]) == Value(resp) + Pow2(32 * i) * Carry(regs, i)
      invariant Value(resp) < Pow2(32 * i)
    {
      var r := Shl(regs[i], 8) % 0x1_0000_0000;
      ShiftedWord(regs[i], Carry(regs, i));
      if i != 0 {
        r := Or(r, regs[i - 1] / 0x100_0000);
      }
      NextShifted(regs, i, resp, r);
      resp := resp + [r];
    }
    assert regs[..|regs|] == regs;
    ModUnique(256 * Value(regs), Pow2(32 * |regs|), Carry(regs, |regs|), Value(resp));
  }

  lemma NothingShifted(regs: seq<word>)
    ensures Value([]) == 0 && Value(regs[..0]) == 0 && Pow2(0) == 1
  {
  }

  lemma NextShifted(regs: seq<word>, i: nat, resp: seq<word>, r: word)
    requires i < |regs| && |resp| == i && Value(resp) < Pow2(32 * i)
    requires 256 * Value(regs[..i]) == Value(resp) + Pow2(32 * i) * Carry(regs, i)
    requires r + 0x1_0000_0000 * Carry(regs, i + 1) == 256 * regs[i] + Carry(regs, i)
    ensures 256 * Value(regs[..i + 1]) == Value(resp + [r]) + Pow2(32 * (i + 1)) * Carry(regs, i + 1)
    ensures Value(resp + [r]) < Pow2(32 * (i + 1))
  {
    hide Value, Pow2, Carry;
    var p, c, d := Pow2(32 * i), Carry(regs, i), Carry(regs, i + 1);
    assert regs[..i + 1] == regs[..i] + [regs[i]];
    ValueAppend(regs[..i], regs[i]);
    ValueAppend(resp, r);
    Pow2Add(32 * i, 32);
    Pow2Of32();
    AppendArith(p, regs[i], c, d, r);
    MulMono(p, r + 1, 0x1_0000_0000);
    assert p * (r + 1) == p * r + p;
  }

  lemma AppendArith(p: nat, reg: nat, c: nat, d: nat, r: nat)
    requires r + 0x1_0000_0000 * d == 256 * reg + c
    ensures p * c + 256 * (p * reg) == p * r + p * 0x1_0000_0000 * d
  {
    assert p * (r + 0x1_0000_0000 * d) == p * r + p * 0x1_0000_0000 * d;
    assert p * (256 * reg + c) == 256 * (p * reg) + p * c;
  }

  /** A field of the shifted response is the field eight bits lower in the registers. */
  lemma ShiftedField(v: nat, n: nat, start: nat, len: nat)
    requires 8 <= start && start + len <= n
    ensures BitsOf(256 * v % Pow2(n), start, len) == BitsOf(v, start - 8, len)
  {
    hide Pow2;
    Pow2Of32();
    Pow2Add(8, start - 8);
    DivDiv(256 * v, 256, Pow2(start - 8));
    ModUnique(256 * v, 256, v, 0);
    assert BitsOf(256 * v, start, len) == BitsOf(v, start - 8, len);
    LowBits(256 * v, n, start, len);
  }

  /** Cutting off bits above a field does not change it. */
  lemma LowBits(x: nat, n: nat, start: nat, len: nat)
    requires start + len <= n
    ensures BitsOf(x % Pow2(n), start, len) == BitsOf(x, start, len)
  {
    hide Pow2;
    Pow2Add(start, len);
    Pow2Add(start + len, n - start - len);
    LowBitsArith(x, Pow2(start), Pow2(len), Pow2(n - start - len), Pow2(n));
  }

  lemma LowBitsArith(x: nat, q: nat, m: nat, k: nat, n: nat)
    requires q > 0 && m > 0 && k > 0 && n > 0 && n == q * m * k
    ensures x % n / q % m == x / q % m
  {
    QuotientNonneg(x, n);
    var d, r := x / n, x % n;
    assert x == n * d + r;
    Regroup4(q, m, k, d);
    DropMultiple(m * (k * d), r, q);
    QuotientNonneg(r, q);
    KeepMultiple(r / q, m, k, d);
  }

  lemma KeepMultiple(x: nat, m: nat, k: nat, d: nat)
    requires m > 0
    ensures (m * (k * d) + x) % m == x % m
  {
    AddMultiple(x, m, k * d);
  }

  lemma DropMultiple(e: int, r: nat, q: nat)
    requires q > 0
    ensures (q * e + r) / q == e + r / q
  {
    assert r == q * (r / q) + r % q;
    assert q * (e + r / q) == q * e + q * (r / q);
    ModUnique(q * e + r, q, e + r / q, r % q);
  }

  lemma Regroup4(q: int, m: int, k: int, d: int)
    ensures q * m * k * d == q * (m * (k * d))
  {
    assert q * m * k == q * (m * k);
    assert q * (m * k) * d == q * (m * k * d);
    assert m * k * d == m * (k * d);
  }

  // ----- the card identification

  datatype Cid = Cid(mid: nat, oid: nat, pnm: seq<nat>, prv: nat, psn: nat, month: nat, year: nat)

  /** A name of n bytes, the first one at bit 96, followed by zeros. */
  function Name(v: nat, n: nat): seq<nat> {
    seq(7, i requires 0 <= i < 7 => if i < n then BitsOf(v, 96 - 8 * i, 8) else 0)
  }

  /** The year code of an eMMC device: devices with an extended CSD revision above 4 count it from 2013,
      except for the codes 13 to 15. */
  function EmmcYear(code: nat, rev: nat): nat {
    if rev > 4 && code < 13 then 2013 + code else 1997 + code
  }

  /** The register of an eMMC device of an extended CSD revision, section 7.2 of JESD84-B51: the OEM
      identifier is eight bits wide, and of the manufacturing date the month is the upper and the year
      the lower nibble. */
  function EmmcCid(v: nat, rev: nat): Cid {
    Cid(BitsOf(v, 120, 8), BitsOf(v, 104, 8), Name(v, 6), BitsOf(v, 48, 8), BitsOf(v, 16, 32),
        BitsOf(v, 12, 4), EmmcYear(BitsOf(v, 8, 4), rev))
  }

  /** The register of an SD card, section 5.2 of the SD Physical Layer Specification. */
  function SdCid(v: nat): Cid {
    Cid(BitsOf(v, 120, 8), BitsOf(v, 104, 16), Name(v, 5), BitsOf(v, 56, 8), BitsOf(v, 24, 32),
        BitsOf(v, 8, 4), BitsOf(v, 12, 8) + 2000)
  }

  /** What the code makes of the register; it does not look at the revision. */
  function CidOf(v: nat, sd: bool): Cid {
    if sd then SdCid(v)
    else EmmcCid(v, 0).(oid := BitsOf(v, 104, 16), month := BitsOf(v, 8, 4), year := BitsOf(v, 12, 4) + 1997)
  }

  /** The month and year nibbles agree, and the year counts from 1997. */
  predicate DateSurvives(v: nat, rev: nat) {
    BitsOf(v, 8, 4) == BitsOf(v, 12, 4) && (rev <= 4 || BitsOf(v, 8, 4) >= 13)
  }

  /** An SD card is always decoded as its specification says.  Of an eMMC device the month is right exactly
      when the two nibbles of the date are equal, the year when they are equal and of the old base, and
      the OEM identifier when the byte above it is zero. */
  lemma CidIsRightIff(v: nat, rev: nat)
    ensures CidOf(v, true) == SdCid(v)
    ensures CidOf(v, false).oid == EmmcCid(v, rev).oid <==> BitsOf(v, 112, 8) == 0
    ensures CidOf(v, false).month == EmmcCid(v, rev).month <==> BitsOf(v, 8, 4) == BitsOf(v, 12, 4)
    ensures CidOf(v, false).year == EmmcCid(v, rev).year <==> DateSurvives(v, rev)
    ensures CidOf(v, false) == EmmcCid(v, rev) <==> BitsOf(v, 112, 8) == 0 && DateSurvives(v, rev)
  {
    hide BitsOf, Name;
    SplitBits(v, 104, 8, 8);
    Pow2Of32();
    NibbleBound(v, 12);
  }

  lemma NibbleBound(v: nat, start: nat)
    ensures BitsOf(v, start, 4) < 16
  {
    assert Pow2(4) == 16;
  }

  /** With a month of the calendar and a revision above 4 the year is never right. */
  lemma LaterYearsAreWrong(v: nat, rev: nat)
    requires rev > 4 && 1 <= EmmcCid(v, rev).month <= 12
    ensures CidOf(v, false).year != EmmcCid(v, rev).year
  {
    hide BitsOf, Name;
    CidIsRightIff(v, rev);
  }

  /** A field is its upper part above its lower part. */
  lemma SplitBits(v: nat, start: nat, lo: nat, hi: nat)
    ensures BitsOf(v, start, lo + hi) == BitsOf(v, start, lo) + Pow2(lo) * BitsOf(v, start + lo, hi)
  {
    hide Pow2;
    Pow2Add(start, lo);
    Pow2Add(lo, hi);
    QuotientNonneg(v, Pow2(start));
    DivDiv(v, Pow2(start), Pow2(lo));
    SplitRemainder(v / Pow2(start), Pow2(lo), Pow2(hi));
  }

  lemma SplitRemainder(x: nat, p: nat, q: nat)
    requires p > 0 && q > 0
    ensures p * q > 0 && x % (p * q) == x % p + p * (x / p % q)
  {
    QuotientNonneg(x, p);
    var h, l := x / p, x % p;
    QuotientNonneg(h, q);
    var hh, hl := h / q, h % q;
    assert x == p * h + l && h == q * hh + hl;
    Regroup(p, q, hh);
    assert p * (q * hh + hl) == p * (q * hh) + p * hl;
    MulMono(p, hl + 1, q);
    assert p * (hl + 1) == p * hl + p;
    ModUnique(x, p * q, hh, p * hl + l);
  }

  /** A device made in March 1998 is decoded as made in January 2000. */
  lemma MarchIsDecodedAsJanuary(rev: nat)
    requires rev <= 4
    ensures EmmcCid(0x3100, rev).month == 3 && EmmcCid(0x3100, rev).year == 1998
    ensures CidOf(0x3100, false).month == 1 && CidOf(0x3100, false).year == 2000
  {
    hide BitsOf, Name;
    DateNibbles(3, 1);
  }

  /** A device of revision 8 made in June 2019 is decoded as made in June 2003, although its nibbles agree
      and the byte above the OEM identifier is zero. */
  lemma YearsAreDecodedTooEarly()
    ensures BitsOf(0x6600, 112, 8) == 0
    ensures EmmcCid(0x6600, 8).month == 6 && EmmcCid(0x6600, 8).year == 2019
    ensures CidOf(0x6600, false).month == 6 && CidOf(0x6600, false).year == 2003
  {
    hide BitsOf, Name;
    DateNibbles(6, 6);
    NothingAbove(0x6600, 112, 8);
  }

  lemma DateNibbles(month: nat, year: nat)
    requires month < 16 && year < 16
    ensures BitsOf(0x1000 * month + 0x100 * year, 12, 4) == month
    ensures BitsOf(0x1000 * month + 0x100 * year, 8, 4) == year
  {
    Pow2Of32();
    assert Pow2(4) == 16;
    Pow2Add(8, 4);
  }

  lemma NothingAbove(v: nat, start: nat, len: nat)
    requires v < 0x1_0000_0000 && start >= 32
    ensures BitsOf(v, start, len) == 0
  {
    hide Pow2;
    Pow2Of32();
    Pow2Add(32, start - 32);
    MulMono(Pow2(32), 1, Pow2(start - 32));
    ModUnique(v, Pow2(start), 0, v);
    ModUnique(0, Pow2(len), 0, 0);
  }

  /** mmc_decode_and_save_cid */
  method DecodeCid(rawCid: seq<word>, sd: bool) returns (cid: Cid)
    requires |rawCid| == 4
    ensures cid == CidOf(Value(rawCid), sd)
  {
    hide UnpackBits, BitsOf, Value;
    var v := rawCid;
    UnpackIsArithmetic(v, 120, 8);
    UnpackIsArithmetic(v, 104, 16);
    UnpackIsArithmetic(v, 8, 4);
    var mid, oid, month := UnpackBits(v, 120, 8), UnpackBits(v, 104, 16), UnpackBits(v, 8, 4);
    var pnm, prv, psn, year;
    if sd {
      pnm := DecodeName(v, 5);
      UnpackIsArithmetic(v, 56, 8);
      UnpackIsArithmetic(v, 24, 32);
      UnpackIsArithmetic(v, 12, 8);
      prv, psn, year := UnpackBits(v, 56, 8), UnpackBits(v, 24, 32), UnpackBits(v, 12, 8) + 2000;
    } else {
      pnm := DecodeName(v, 6);
      UnpackIsArithmetic(v, 48, 8);
      UnpackIsArithmetic(v, 16, 32);
      UnpackIsArithmetic(v, 12, 4);
      prv, psn, year := UnpackBits(v, 48, 8), UnpackBits(v, 16, 32), UnpackBits(v, 12, 4) + 1997;
    }
    cid := Cid(mid, oid, pnm, prv, psn, month, year);
    assert cid.pnm == Name(Value(v), if sd then 5 else 6);
  }

  /** The product name, most significant byte first, padded with zeros. */
  method DecodeName(v: seq<word>, n: nat) returns (pnm: seq<nat>)
    requires |v| == 4 && n <= 6
    ensures |pnm| == 7
    ensures forall i :: 0 <= i < 7 ==> pnm[i] == if i < n then BitsOf(Value(v), 96 - 8 * i, 8) else 0
  {
    hide UnpackBits, BitsOf, Value;
    pnm := [];
    for i := 0 to n
      invariant |pnm| == i
      invariant forall j :: 0 <= j < i ==> pnm[j] == BitsOf(Value(v), 96 - 8 * j, 8)
    {
      UnpackIsArithmetic(v, 104 - 8 * (i + 1), 8);
      pnm := pnm + [UnpackBits(v, 104 - 8 * (i + 1), 8)];
    }
    for i := n to 7
      invariant |pnm| == i
      invariant forall j :: 0 <= j < i ==> pnm[j] == if j < n then BitsOf(Value(v), 96 - 8 * j, 8) else 0
    {
      pnm := pnm + [0];
    }
  }

  /** From the response registers to the card's fields: bit b of the register is bit b - 8 of the response. */
  method ReadCid(regs: seq<word>, sd: bool) returns (cid: Cid)
    requires |regs| == 4
    ensures cid == CidOf(256 * Value(regs), sd)
  {
    hide BitsOf, Value;
    var raw := ReadR2(regs);
    cid := DecodeCid(raw, sd);
    LowCid(256 * Value(regs), sd);
  }

  lemma LowCid(x: nat, sd: bool)
    ensures CidOf(x % Pow2(32 * 4), sd) == CidOf(x, sd)
  {
    hide BitsOf, Pow2;
    var v := x % Pow2(128);
    LowBits(x, 128, 120, 8);
    LowBits(x, 128, 104, 8);
    LowBits(x, 128, 104, 16);
    LowBits(x, 128, 8, 4);
    forall i | 0 <= i < 7 ensures BitsOf(v, 96 - 8 * i, 8) == BitsOf(x, 96 - 8 * i, 8) {
      LowBits(x, 128, 96 - 8 * i, 8);
    }
    LowBits(x, 128, 56, 8);
    LowBits(x, 128, 48, 8);
    LowBits(x, 128, 24, 32);
    LowBits(x, 128, 16, 32);
    LowBits(x, 128, 12, 8);
    LowBits(x, 128, 12, 4);
    assert Name(v, if sd then 5 else 6) == Name(x, if sd then 5 else 6);
  }

  // ----- the SD status

  /** swap_endian32 */
  function Swap(x: bv32): bv32 {
    ((x & 0x0000_00FF) << 24) | ((x & 0x0000_FF00) << 8) | ((x & 0x00FF_0000) >> 8) | ((x & 0xFF00_0000) >> 24)
  }

  lemma SwapTwice(x: bv32)
    ensures Swap(Swap(x)) == x
  {
  }

  /** The in-place loop of mmc_sd_get_card_ssr: it meets its own results half way, so the upper half ends
      up reversed and the lower half as it was. */
  method ReverseStatus(s: array<bv32>)
    requires s.Length % 2 == 0
    modifies s
    ensures forall i :: s.Length / 2 <= i < s.Length ==> s[i] == Swap(old(s[s.Length - 1 - i]))
    ensures forall i :: 0 <= i < s.Length / 2 ==> s[i] == old(s[i])
  {
    hide Swap;
    var n := s.Length;
    var i, j := n - 1, 0;
    while i >= 0
      invariant -1 <= i < n && j == n - 1 - i
      invariant forall k :: i < k < n ==> s[k] == if k >= n / 2 then Swap(old(s[n - 1 - k])) else old(s[k])
      invariant forall k :: 0 <= k <= i ==> s[k] == old(s[k])
    {
      if i < n / 2 { SwapTwice(old(s[i])); }
      s[i] := Swap(s[j]);
      i, j := i - 1, j + 1;
    }
  }

  /** What the loop leaves of a status. */
  function HalfReversed(w: seq<bv32>): (r: seq<bv32>)
    requires |w| % 2 == 0
    ensures |r| == |w|
  {
    seq(|w|, i requires 0 <= i < |w| => if i >= |w| / 2 then Swap(w[|w| - 1 - i]) else w[i])
  }

  function Reversed(w: seq<bv32>): (r: seq<bv32>)
    ensures |r| == |w|
  {
    seq(|w|, i requires 0 <= i < |w| => Swap(w[|w| - 1 - i]))
  }

  function Words(w: seq<bv32>): (r: seq<word>)
    ensures |r| == |w|
  {
    seq(|w|, i requires 0 <= i < |w| => w[i] as int)
  }

  /** Word i is right exactly in the upper half, or where the status happens to mirror itself. */
  lemma ReversedWhere(w: seq<bv32>, i: nat)
    requires |w| % 2 == 0 && i < |w|
    ensures HalfReversed(w)[i] == Reversed(w)[i] <==> i >= |w| / 2 || w[i] == Swap(w[|w| - 1 - i])
  {
  }

  /** Every field of the upper half is read as from the fully reversed status, among them the two that are
      used: the AU size at bit 428 and the erase size at bit 408 of a 512-bit status. */
  lemma UpperFieldsAreRight(w: seq<bv32>, start: nat, len: nat)
    requires |w| % 2 == 0 && 0 < len <= 32 && 16 * |w| <= start && start + len <= 32 * |w|
    ensures UnpackBits(Words(HalfReversed(w)), start, len) == BitsOf(Value(Words(Reversed(w))), start, len)
  {
    UnpackIsArithmetic(Words(Reversed(w)), start, len);
    hide Value, BitsOf, Shl, Shr, Or, And, Swap;
    var a, b := Words(HalfReversed(w)), Words(Reversed(w));
    assert start / 32 >= |w| / 2 && (start + len - 1) / 32 >= |w| / 2;
    assert a[start / 32] == b[start / 32];
    assert a[(start + len - 1) / 32] == b[(start + len - 1) / 32];
  }

}
