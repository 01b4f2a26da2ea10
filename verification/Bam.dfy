/** The descriptor FIFO of a BAM pipe (bam.c): descriptors written into a ring, and the event register
    that tells the hardware how far it may read. */
module Bam {
  import opened Bits

  const BAM_MAX_DESC_DATA_LEN: nat := 0xFFFF

  datatype Desc = Desc(addr: nat, size: nat, reserved: nat, flags: bv8)

  /** Not both LOCK and UNLOCK, not both EOT and CMD. */
  predicate ValidFlags(flags: bv8) {
    !(flags & 4 != 0 && flags & 2 != 0) && !(flags & 0x40 != 0 && flags & 8 != 0)
  }

  // ----- the descriptors of a buffer

  /** The buffer cut into descriptors; the flags go on the last. */
  function Cut(addr: nat, len: nat, flags: bv8): (r: seq<Desc>)
    ensures len > 0 ==> r != []
    decreases len
  {
    if len == 0 then []
    else if len > BAM_MAX_DESC_DATA_LEN then
      [Desc(addr, BAM_MAX_DESC_DATA_LEN, 0, 0)] + Cut(addr + BAM_MAX_DESC_DATA_LEN, len - BAM_MAX_DESC_DATA_LEN, flags)
    else [Desc(addr, len, 0, flags)]
  }

  function TotalSize(ds: seq<Desc>): nat {
    if ds == [] then 0 else ds[0].size + TotalSize(ds[1..])
  }

  /** How many descriptors a length takes. */
  function Needed(len: nat): nat { (len + 0xFFFE) / 0xFFFF }

  /** The descriptors tile the buffer: sizes in range, each begins where the last ended, flags only at the end. */
  ghost predicate Tiles(ds: seq<Desc>, addr: nat, len: nat, flags: bv8) {
    && ds != [] && TotalSize(ds) == len && ds[0].addr == addr
    && ds[|ds| - 1].addr + ds[|ds| - 1].size == addr + len && ds[|ds| - 1].flags == flags
    && (forall i :: 0 <= i < |ds| ==> GoodSize(ds[i])) && (forall i :: 0 < i < |ds| ==> Follows(ds[i - 1], ds[i]))
  }

  predicate GoodSize(d: Desc) { 1 <= d.size <= BAM_MAX_DESC_DATA_LEN && d.reserved == 0 }

  predicate Follows(a: Desc, b: Desc) { b.addr == a.addr + a.size && a.flags == 0 }

  lemma {:induction false} CutTiles(addr: nat, len: nat, flags: bv8)
    requires len > 0
    ensures |Cut(addr, len, flags)| == Needed(len) && Tiles(Cut(addr, len, flags), addr, len, flags)
    decreases len
  {
    hide Needed, Tiles, TotalSize;
    NeededBounds(len, 1);
    if len > BAM_MAX_DESC_DATA_LEN {
      CutTiles(addr + BAM_MAX_DESC_DATA_LEN, len - BAM_MAX_DESC_DATA_LEN, flags);
      NeededStep(len);
      TilesStep(addr, Cut(addr + BAM_MAX_DESC_DATA_LEN, len - BAM_MAX_DESC_DATA_LEN, flags),
                len - BAM_MAX_DESC_DATA_LEN, flags);
    } else {
      TilesOne(addr, len, flags);
    }
  }

  lemma NeededStep(len: nat)
    requires len > 0xFFFF
    ensures Needed(len) == Needed(len - 0xFFFF) + 1
  {
  }

  lemma TilesOne(addr: nat, len: nat, flags: bv8)
    requires 0 < len <= BAM_MAX_DESC_DATA_LEN
    ensures Tiles([Desc(addr, len, 0, flags)], addr, len, flags)
  {
    TotalOfFirst([Desc(addr, len, 0, flags)]);
  }

  lemma TilesStep(addr: nat, rest: seq<Desc>, len: nat, flags: bv8)
    requires Tiles(rest, addr + BAM_MAX_DESC_DATA_LEN, len, flags)
    ensures Tiles([Desc(addr, BAM_MAX_DESC_DATA_LEN, 0, 0)] + rest, addr, BAM_MAX_DESC_DATA_LEN + len, flags)
  {
    hide TotalSize;
    var ds := [Desc(addr, BAM_MAX_DESC_DATA_LEN, 0, 0)] + rest;
    TotalOfFirst(ds);
    assert ds[1..] == rest;
    assert forall i :: 0 < i < |ds| ==> ds[i] == rest[i - 1];
    forall i | 0 < i < |ds| ensures Follows(ds[i - 1], ds[i]) {
      if i > 1 { assert Follows(rest[i - 2], rest[i - 1]); }
    }
  }

  lemma TotalOfFirst(ds: seq<Desc>)
    requires ds != []
    ensures TotalSize(ds) == ds[0].size + TotalSize(ds[1..])
  {
  }

  /** What bam_add_one_desc lets into the ring: a last descriptor with bad flags is dropped without notice. */
  function Written(addr: nat, len: nat, flags: bv8, initialized: bool): seq<Desc>
    requires len > 0
  {
    var ds := Cut(addr, len, flags);
    if !initialized then [] else if ValidFlags(flags) then ds else ds[..|ds| - 1]
  }

  // ----- the ring

  datatype Fifo = Fifo(ring: seq<Desc>, current: nat, offset: nat, event: nat, events: nat)

  predicate InRing(f: Fifo) { f.current < |f.ring| }

  /** fifo_getnext */
  function Next(size: nat, slot: nat): nat { if slot + 1 == size then 0 else slot + 1 }

  function Put(f: Fifo, d: Desc): (r: Fifo)
    requires InRing(f)
    ensures InRing(r) && |r.ring| == |f.ring|
  {
    f.(ring := f.ring[f.current := d], current := Next(|f.ring|, f.current))
  }

  function PutAll(f: Fifo, ds: seq<Desc>): (r: Fifo)
    requires InRing(f)
    ensures InRing(r) && |r.ring| == |f.ring|
    decreases |ds|
  {
    if ds == [] then f else PutAll(Put(f, ds[0]), ds[1..])
  }

  /** The slot i places on. */
  function Slot(size: nat, current: nat, i: nat): nat { if current + i < size then current + i else current + i - size }

  /** Up to a full round goes into consecutive slots; nothing else changes. */
  lemma {:induction false} PutAllFillsSlots(f: Fifo, ds: seq<Desc>)
    requires InRing(f) && |ds| <= |f.ring|
    ensures var r, n := PutAll(f, ds), |f.ring|;
            && r.current == Slot(n, f.current, |ds|) && r.offset == f.offset && r.event == f.event
            && r.events == f.events
            && (forall i :: 0 <= i < |ds| ==> r.ring[Slot(n, f.current, i)] == ds[i])
            && (forall i :: |ds| <= i < n ==> r.ring[Slot(n, f.current, i)] == f.ring[Slot(n, f.current, i)])
    decreases |ds|
  {
    if ds != [] {
      var n, g := |f.ring|, Put(f, ds[0]);
      PutAllFillsSlots(g, ds[1..]);
      var r := PutAll(f, ds);
      forall i | 0 <= i < |ds| ensures r.ring[Slot(n, f.current, i)] == ds[i] {
        if i == 0 {
          assert Slot(n, g.current, n - 1) == f.current;
        } else {
          assert Slot(n, f.current, i) == Slot(n, g.current, i - 1);
          assert ds[i] == ds[1..][i - 1];
        }
      }
      forall i | |ds| <= i < n ensures r.ring[Slot(n, f.current, i)] == f.ring[Slot(n, f.current, i)] {
        assert Slot(n, f.current, i) == Slot(n, g.current, i - 1);
      }
    }
  }

  // ----- the event

  /** bam_sys_gen_event's value: the peer offset after num descriptors. */
  function EventValue(f: Fifo, num: nat): nat
    requires num > 0 && |f.ring| > 0
  {
    var v := (num - 1) * 8 + f.offset;
    And(v, |f.ring| * 8 - 1)
  }

  function Notify(f: Fifo, num: nat): Fifo
    requires num > 0 && |f.ring| > 0
  {
    if num >= |f.ring| then f else f.(event := EventValue(f, num), events := f.events + 1)
  }

  /** What bam_pipe_fifo_init and bam_read_offset_update establish: the 16-bit offset lies one descriptor
      behind the current slot. */
  predicate Synced(f: Fifo) {
    f.offset == (8 * f.current + 8) % 0x1_0000
  }

  /** The byte offset of a slot, as the hardware counts. */
  function ByteOffset(slot: nat): nat { 8 * slot }

  lemma EventIsRemainder(f: Fifo, num: nat, k: nat)
    requires num > 0 && |f.ring| == Pow2(k)
    ensures EventValue(f, num) == ((num - 1) * 8 + f.offset) % (8 * |f.ring|)
  {
    Pow2Add(k, 3);
    assert Pow2(3) == 8;
    AndMask((num - 1) * 8 + f.offset, k + 3);
  }

  /** The event is the byte offset of the slot after the last descriptor exactly when the offset and the
      current slot agree, modulo the ring. */
  lemma EventIsRightIff(f: Fifo, num: nat, k: nat)
    requires InRing(f) && 0 < num < |f.ring| && |f.ring| == Pow2(k)
    ensures EventValue(f, num) == ByteOffset(Slot(|f.ring|, f.current, num))
       <==> f.offset % (8 * |f.ring|) == (8 * f.current + 8) % (8 * |f.ring|)
  {
    EventIsRemainder(f, num, k);
    var m, x, y := 8 * |f.ring|, f.offset, 8 * f.current + 8;
    ShiftModulo(x, y, (num - 1) * 8, m);
    var s := Slot(|f.ring|, f.current, num);
    ModUnique(y + (num - 1) * 8, m, if f.current + num < |f.ring| then 0 else 1, 8 * s);
  }

  lemma ShiftModulo(x: nat, y: nat, c: nat, m: nat)
    requires m > 0
    ensures (c + x) % m == (c + y) % m <==> x % m == y % m
  {
    if x % m == y % m {
      var d := Difference(x, y, m);
      SameRemainder(c + x, c + y, m, d);
    }
    if (c + x) % m == (c + y) % m {
      var d := Difference(c + x, c + y, m);
      SameRemainder(x, y, m, d);
    }
  }

  lemma Difference(x: nat, y: nat, m: nat) returns (d: int)
    requires m > 0 && x % m == y % m
    ensures x == y + m * d
  {
    d := x / m - y / m;
    assert x == m * (x / m) + x % m && y == m * (y / m) + y % m;
    assert m * d == m * (x / m) - m * (y / m);
  }

  lemma SameRemainder(x: nat, y: nat, m: nat, d: int)
    requires m > 0 && x == y + m * d
    ensures x % m == y % m
  {
    var q, r := y / m, y % m;
    assert y == m * q + r;
    assert m * (q + d) == m * q + m * d;
    ModUnique(x, m, q + d, r);
  }

  lemma ModOfMod(x: nat, m: nat, q: nat)
    requires m > 0 && q > 0
    ensures m * q > 0 && x % (m * q) % m == x % m
  {
    MulMono(m, 1, q);
    var n := m * q;
    var a, r := x / n, x % n;
    var b, t := r / m, r % m;
    assert x == n * a + r && r == m * b + t;
    assert n * a == m * (q * a);
    assert m * (q * a + b) == m * (q * a) + m * b;
    ModUnique(x, m, q * a + b, t);
  }

  /** Powers of two that pass the size check. */
  lemma {:induction false} RingSizes(k: nat)
    requires Pow2(k) <= 0x7FFF
    ensures k <= 14 && (k == 14 <==> Pow2(k) > 8192) && (k == 14 ==> Pow2(k) == 16384)
    ensures k <= 13 ==> Pow2(k) * Pow2(13 - k) == 8192
  {
    Pow2Add(7, 7);
    assert Pow2(7) == 128;
    if k >= 15 {
      Pow2Add(15, k - 15);
      MulMono(Pow2(15), 1, Pow2(k - 15));
    } else if k <= 13 {
      Pow2Add(k, 13 - k);
      MulMono(Pow2(k), 1, Pow2(13 - k));
    }
  }

  lemma SmallRing(y: nat, size: nat, k: nat)
    requires size == Pow2(k) && k <= 13
    ensures y % 0x1_0000 % (8 * size) == y % (8 * size)
  {
    hide Pow2;
    RingSizesSmall(k);
    EightTimes(size, Pow2(13 - k));
    ModOfMod(y, 8 * size, Pow2(13 - k));
  }

  lemma EightTimes(a: nat, b: nat)
    ensures (8 * a) * b == 8 * (a * b)
  {
  }

  lemma RingSizesSmall(k: nat)
    requires k <= 13
    ensures Pow2(k) * Pow2(13 - k) == 8192
  {
    Pow2Add(7, 6);
    assert Pow2(7) == 128 && Pow2(6) == 64;
    Pow2Add(k, 13 - k);
  }

  /** A ring of 16384 loses the top bit of the 16-bit offset. */
  lemma LargeRing(y: nat)
    requires 8 <= y <= 0x2_0000
    ensures y % 0x1_0000 % 0x2_0000 == y % 0x2_0000 <==> y < 0x1_0000 || y == 0x2_0000
  {
  }

  /** On a synchronised pipe the event is right for rings of up to 8192 descriptors.  The size check also
      lets a ring of 16384 through, and there half the slots get a wrong event. */
  lemma SyncedEventIsRightIff(f: Fifo, num: nat, k: nat)
    requires InRing(f) && 0 < num < |f.ring| && |f.ring| == Pow2(k) && |f.ring| <= 0x7FFF && Synced(f)
    ensures EventValue(f, num) == ByteOffset(Slot(|f.ring|, f.current, num))
       <==> |f.ring| <= 8192 || f.current < 8191 || f.current == 16383
  {
    hide Pow2, EventValue, Slot;
    EventIsRightIff(f, num, k);
    RingSizes(k);
    if k <= 13 {
      SmallRing(8 * f.current + 8, |f.ring|, k);
    } else {
      LargeRing(8 * f.current + 8);
    }
  }

  // ----- bam_add_desc as a whole

  /** The arguments bam_add_desc accepts. */
  predicate Accepted(f: Fifo, addr: nat, len: nat) {
    addr != 0 && 0 < len <= |f.ring| * 0xFFFF
  }

  /** What bam_add_desc makes of the FIFO. */
  function Request(f: Fifo, initialized: bool, addr: nat, len: nat, flags: bv8): Fifo
    requires InRing(f)
  {
    if !Accepted(f, addr, len) then f
    else Notify(PutAll(f, Written(addr, len, flags, initialized)), Needed(len))
  }

  /** bam_read_offset_update: current slot and offset from the low 16 bits of any register value. */
  function ReadOffset(f: Fifo, r: nat): Fifo {
    f.(current := r % 0x1_0000 / 8, offset := (r % 0x1_0000 + 8) % 0x1_0000)
  }

  predicate PointsIntoRing(f: Fifo, r: nat) { r % 0x1_0000 % 8 == 0 && r % 0x1_0000 / 8 < |f.ring| }

  lemma ReadOffsetSyncs(f: Fifo, r: nat)
    requires PointsIntoRing(f, r)
    ensures InRing(ReadOffset(f, r)) && Synced(ReadOffset(f, r)) && |ReadOffset(f, r).ring| == |f.ring|
  {
  }

  lemma NeededBounds(len: nat, size: nat)
    requires len > 0
    ensures Needed(len) > 0 && (Needed(len) <= size <==> len <= size * 0xFFFF)
  {
  }

  /** A valid request on a synchronised pipe: every descriptor in its slot, and the hardware is told to read
      up to the new current slot, unless the request takes the whole ring. */
  lemma RequestDelivers(f: Fifo, k: nat, addr: nat, len: nat, flags: bv8)
    requires InRing(f) && |f.ring| == Pow2(k) && |f.ring| <= 8192 && Synced(f)
    requires Accepted(f, addr, len) && ValidFlags(flags)
    ensures var r, ds, n := Request(f, true, addr, len, flags), Cut(addr, len, flags), |f.ring|;
            && |ds| == Needed(len) <= n
            && (forall i :: 0 <= i < |ds| ==> r.ring[Slot(n, f.current, i)] == ds[i])
            && (forall i :: |ds| <= i < n ==> r.ring[Slot(n, f.current, i)] == f.ring[Slot(n, f.current, i)])
            && r.current == Slot(n, f.current, |ds|)
            && (if |ds| < n then r.event == ByteOffset(r.current) && r.events == f.events + 1
                else r.event == f.event && r.events == f.events)
  {
    hide Cut, PutAll, EventValue, Pow2, Slot;
    CutTiles(addr, len, flags);
    NeededBounds(len, |f.ring|);
    var ds := Cut(addr, len, flags);
    PutAllFillsSlots(f, ds);
    if |ds| < |f.ring| {
      SyncedEventIsRightIff(f, |ds|, k);
      SameEvent(f, PutAll(f, ds), |ds|);
    }
  }

  lemma SameEvent(f: Fifo, g: Fifo, num: nat)
    requires num > 0 && |f.ring| > 0 && |g.ring| == |f.ring| && g.offset == f.offset
    ensures EventValue(g, num) == EventValue(f, num)
  {
  }

  /** A second request without an offset update in between gets a wrong event: the one the hardware would
      have needed for the first descriptors only. */
  lemma StaleEvent(f: Fifo, k: nat, first: nat, second: nat)
    requires InRing(f) && |f.ring| == Pow2(k) && |f.ring| <= 8192 && Synced(f)
    requires 0 < first < |f.ring| && 0 < second < |f.ring|
    ensures var g := f.(current := Slot(|f.ring|, f.current, first));
            EventValue(g, second) != ByteOffset(Slot(|f.ring|, g.current, second))
  {
    hide EventValue, Pow2;
    var n := |f.ring|;
    var g := f.(current := Slot(n, f.current, first));
    SyncedEventIsRightIff(f, second, k);
    SameEvent(f, g, second);
    assert Slot(n, g.current, second) != Slot(n, f.current, second);
  }

  /** Every descriptor of an accepted request reaches the ring exactly on an initialised pipe with valid flags. */
  lemma AllWrittenIff(addr: nat, len: nat, flags: bv8, initialized: bool)
    requires len > 0
    ensures Written(addr, len, flags, initialized) == Cut(addr, len, flags) <==> initialized && ValidFlags(flags)
  {
    hide Cut, ValidFlags;
    var ds := Cut(addr, len, flags);
    assert |ds[..|ds| - 1]| == |ds| - 1;
  }

  /** What is missing otherwise: an invalid flag combination costs the last descriptor, an uninitialised pipe
      all of them.  Either is reported as success, and the event counts every descriptor. */
  lemma MissingDescriptorsAreCounted(f: Fifo, initialized: bool, addr: nat, len: nat, flags: bv8)
    requires InRing(f) && Accepted(f, addr, len) && Needed(len) < |f.ring|
    ensures var r := Request(f, initialized, addr, len, flags);
            && r.event == EventValue(f, Needed(len)) && r.events == f.events + 1
            && (!initialized ==> r.ring == f.ring && r.current == f.current)
            && (initialized && !ValidFlags(flags) ==>
                  && r.current == Slot(|f.ring|, f.current, Needed(len) - 1)
                  && forall i :: Needed(len) - 1 <= i < |f.ring| ==>
                       r.ring[Slot(|f.ring|, f.current, i)] == f.ring[Slot(|f.ring|, f.current, i)])
  {
    hide Cut, PutAll, EventValue, Slot, ValidFlags;
    CutTiles(addr, len, flags);
    NeededBounds(len, |f.ring|);
    var written := Written(addr, len, flags, initialized);
    PutAllFillsSlots(f, written);
    PutNothing(f);
    SameEvent(f, PutAll(f, written), Needed(len));
  }

  lemma PutNothing(f: Fifo)
    requires InRing(f)
    ensures PutAll(f, []) == f
  {
  }

  /** A request is taken when it has an address and its descriptors fit into the ring at once; any other one changes
      nothing.  On an initialised pipe two pairs of flags exclude each other: LOCK (bit 2) and UNLOCK (bit 1), EOT
      (bit 6) and CMD (bit 3). */
  lemma WhatIsTaken(f: Fifo, addr: nat, len: nat, flags: bv8)
    requires InRing(f)
    ensures var ds := Cut(addr, len, flags);
            if addr != 0 && 1 <= |ds| <= |f.ring| then
              Accepted(f, addr, len)
              && (|f.ring| > 1 ==>
                    (Request(f, true, addr, len, flags).current == Slot(|f.ring|, f.current, |ds|)
                     <==> !(BitSet(flags, 2) && BitSet(flags, 1)) && !(BitSet(flags, 6) && BitSet(flags, 3))))
            else !Accepted(f, addr, len) && Request(f, true, addr, len, flags) == f
  {
    hide Cut, PutAll, Slot, ValidFlags, BitSet;
    FlagBits(flags);
    if len > 0 {
      CutTiles(addr, len, flags);
      NeededBounds(len, |f.ring|);
      if Accepted(f, addr, len) {
        PutAllFillsSlots(f, Written(addr, len, flags, true));
        if |f.ring| > 1 { NextSlotDiffers(|f.ring|, f.current, Needed(len)); }
      }
    } else {
      NothingToCut(addr, flags);
    }
  }

  predicate BitSet(flags: bv8, i: nat)
    requires i < 8
  {
    (flags >> i) & 1 == 1
  }

  lemma FlagBits(flags: bv8)
    ensures ValidFlags(flags) <==>
              !(BitSet(flags, 2) && BitSet(flags, 1)) && !(BitSet(flags, 6) && BitSet(flags, 3))
  {
  }

  lemma NothingToCut(addr: nat, flags: bv8)
    ensures Cut(addr, 0, flags) == []
  {
  }

  lemma NextSlotDiffers(size: nat, slot: nat, n: nat)
    requires slot < size && 0 < n <= size && size > 1
    ensures Slot(size, slot, n - 1) != Slot(size, slot, n)
  {
  }

  // ----- runs

  /** One cycle: a request, then an offset update with what the hardware reports. */
  datatype Cycle = Cycle(addr: nat, len: nat, flags: bv8, reported: nat)

  function RunCycle(f: Fifo, c: Cycle): Fifo
    requires InRing(f)
  {
    ReadOffset(Request(f, true, c.addr, c.len, c.flags), c.reported)
  }

  predicate GoodCycle(size: nat, c: Cycle) {
    && c.addr != 0 && 0 < c.len && Needed(c.len) < size && ValidFlags(c.flags)
    && c.reported % 0x1_0000 % 8 == 0 && c.reported % 0x1_0000 / 8 < size
  }

  predicate GoodCycles(size: nat, cycles: seq<Cycle>) {
    forall i :: 0 <= i < |cycles| ==> GoodCycle(size, cycles[i])
  }

  /** The FIFO after some cycles. */
  function After(f: Fifo, cycles: seq<Cycle>): (r: Fifo)
    requires InRing(f) && GoodCycles(|f.ring|, cycles)
    ensures InRing(r) && |r.ring| == |f.ring|
    decreases |cycles|
  {
    if cycles == [] then f
    else
      var before, c := After(f, cycles[..|cycles| - 1]), cycles[|cycles| - 1];
      assert GoodCycle(|f.ring|, c);
      SizeKept(before, c);
      ReadOffsetSyncs(Request(before, true, c.addr, c.len, c.flags), c.reported);
      RunCycle(before, c)
  }

  /** Over any run of request and update, the pipe stays synchronised, and every request is announced with
      the byte offset of the slot behind its last descriptor. */
  lemma {:induction false} EveryRequestIsAnnounced(f: Fifo, k: nat, cycles: seq<Cycle>)
    requires InRing(f) && |f.ring| == Pow2(k) && |f.ring| <= 8192 && Synced(f)
    requires GoodCycles(|f.ring|, cycles)
    ensures Synced(After(f, cycles)) && After(f, cycles).events == f.events + |cycles|
    ensures forall c | GoodCycle(|f.ring|, c) ::
              var r := Request(After(f, cycles), true, c.addr, c.len, c.flags);
              r.event == ByteOffset(r.current) && r.events == f.events + |cycles| + 1
    decreases |cycles|
  {
    hide Request, Pow2;
    if cycles != [] {
      var n := |cycles| - 1;
      EveryRequestIsAnnounced(f, k, cycles[..n]);
      var before, c := After(f, cycles[..n]), cycles[n];
      assert GoodCycle(|f.ring|, c);
      SizeKept(before, c);
      ReadOffsetSyncs(Request(before, true, c.addr, c.len, c.flags), c.reported);
    }
    var now := After(f, cycles);
    forall c | GoodCycle(|f.ring|, c)
      ensures var r := Request(now, true, c.addr, c.len, c.flags);
              r.event == ByteOffset(r.current) && r.events == f.events + |cycles| + 1
    {
      GoodIsAccepted(now, c);
      RequestDelivers(now, k, c.addr, c.len, c.flags);
    }
  }

  lemma SizeKept(f: Fifo, c: Cycle)
    requires InRing(f)
    ensures |Request(f, true, c.addr, c.len, c.flags).ring| == |f.ring|
  {
  }

  lemma GoodIsAccepted(f: Fifo, c: Cycle)
    requires GoodCycle(|f.ring|, c)
    ensures Accepted(f, c.addr, c.len)
  {
    NeededBounds(c.len, |f.ring|);
  }

  // ----- the pipe itself

  /** One round of the loop of bam_add_desc: what is written now, and what is left. */
  lemma WrittenStep(addr: nat, len: nat, flags: bv8, initialized: bool)
    requires len > 0
    ensures len > BAM_MAX_DESC_DATA_LEN ==>
              Written(addr, len, flags, initialized) ==
              (if initialized then [Desc(addr, BAM_MAX_DESC_DATA_LEN, 0, 0)] else [])
              + Written(addr + BAM_MAX_DESC_DATA_LEN, len - BAM_MAX_DESC_DATA_LEN, flags, initialized)
    ensures len <= BAM_MAX_DESC_DATA_LEN ==>
              Written(addr, len, flags, initialized) ==
              if initialized && ValidFlags(flags) then [Desc(addr, len, 0, flags)] else []
  {
    if len > BAM_MAX_DESC_DATA_LEN {
      var ds, rest := Cut(addr, len, flags), Cut(addr + BAM_MAX_DESC_DATA_LEN, len - BAM_MAX_DESC_DATA_LEN, flags);
      assert ds == [ds[0]] + rest && ds[..|ds| - 1] == [ds[0]] + rest[..|rest| - 1];
    }
  }

  lemma PutFirst(f: Fifo, d: Desc, rest: seq<Desc>)
    requires InRing(f)
    ensures PutAll(f, [d] + rest) == PutAll(Put(f, d), rest)
    ensures PutAll(f, [d]) == Put(f, d) && PutAll(f, []) == f && [] + rest == rest
  {
    assert ([d] + rest)[1..] == rest;
  }

  class BamPipe {
    const ring: array<Desc>
    /** The current descriptor, in bytes from the head, as bam_read_offset_update sets it. */
    var current: nat
    var offset: nat
    var initialized: bool
    var eventRegister: nat
    ghost var events: nat

    constructor (ring: array<Desc>)
      ensures this.ring == ring && !initialized && events == 0
    {
      this.ring := ring;
      current, offset, eventRegister, events := 0, 0, 0, 0;
      initialized := false;
    }

    ghost predicate Valid()
      reads this
    {
      0 < ring.Length <= 0xFFFF && current % 8 == 0 && current / 8 < ring.Length && offset < 0x1_0000
    }

    ghost function State(): (f: Fifo)
      requires Valid()
      reads this, ring
      ensures InRing(f)
    {
      Fifo(ring[..], current / 8, offset, eventRegister, events)
    }

    /** bam_pipe_fifo_init; the two assertions in it are the caller's duty. */
    method FifoInit(ghost k: nat) returns (ret: int)
      requires ring.Length == Pow2(k) && ring.Length <= 0xFFFF
      modifies this
      ensures ret == 0 <==> ring.Length <= 0x7FFF
      ensures ret == 0 ==> Valid() && initialized && Synced(State()) && current == 0 && State().ring == ring[..]
      ensures ret != 0 ==> unchanged(this)
      ensures events == old(events)
    {
      if ring.Length > 0x7FFF { return 1; }
      current := 0;
      offset := 8;
      initialized := true;
      return 0;
    }

    /** fifo_getnext */
    method GetNext(desc: nat) returns (next: nat)
      requires desc < ring.Length <= 0xFFFF
      ensures next == Next(ring.Length, desc)
    {
      if desc == ring.Length - 1 { return 0; } else { return desc + 1; }
    }

    /** bam_add_one_desc */
    method AddOneDesc(addr: nat, len: nat, flags: bv8) returns (ret: int)
      requires Valid()
      modifies this`current, ring
      ensures Valid()
      ensures ret == 0 <==> addr != 0 && 0 < len <= 0xFFFF && initialized && ValidFlags(flags)
      ensures State() == if ret == 0 then Put(old(State()), Desc(addr, len, 0, flags)) else old(State())
    {
      if addr == 0 || len == 0 { return 1; }
      if !initialized { return 1; }
      if flags & 4 != 0 && flags & 2 != 0 { return 1; }
      if flags & 0x40 != 0 && flags & 8 != 0 { return 1; }
      if len > BAM_MAX_DESC_DATA_LEN { return 1; }
      var desc := current / 8;
      ring[desc] := Desc(addr, len, 0, flags);
      var next := GetNext(desc);
      current := 8 * next;
      return 0;
    }

    /** bam_sys_gen_event */
    method GenEvent(num: nat)
      requires Valid() && num > 0
      modifies this`eventRegister, this`events
      ensures Valid() && State() == Notify(old(State()), num)
    {
      if num >= ring.Length { return; }
      eventRegister := And((num - 1) * 8 + offset, ring.Length * 8 - 1);
      events := events + 1;
    }

    /** bam_read_offset_update takes the register as it is.  A value that points into the ring leaves a
        synchronised pipe; with any other one the next descriptor would be written elsewhere. */
    method ReadOffsetUpdate(r: nat)
      requires Valid()
      modifies this`current, this`offset
      ensures current == r % 0x1_0000 && offset == (r % 0x1_0000 + 8) % 0x1_0000
      ensures Valid() <==> PointsIntoRing(old(State()), r)
      ensures Valid() ==> State() == ReadOffset(old(State()), r) && Synced(State())
    {
      var o := r % 0x1_0000;
      current := o;
      offset := (o + 8) % 0x1_0000;
    }

    /** bam_add_desc, for a buffer inside the 32-bit address space */
    method AddDesc(dataPtr: nat, dataLen: nat, flags: bv32) returns (ret: int)
      requires Valid() && dataPtr + dataLen <= 0x1_0000_0000
      modifies this`current, this`eventRegister, this`events, ring
      ensures Valid()
      ensures ret == 0 <==> Accepted(old(State()), dataPtr, dataLen)
      ensures State() == Request(old(State()), initialized, dataPtr, dataLen, (flags & 0xFF) as bv8)
    {
      hide Written, PutAll, Put, Cut;
      if dataPtr == 0 || dataLen == 0 { return 1; }
      if dataLen > ring.Length * BAM_MAX_DESC_DATA_LEN { return 1; }
      var len: nat, ptr: nat, n: nat := dataLen, dataPtr, 0;
      ghost var byteFlags := (flags & 0xFF) as bv8;
      ghost var all := Written(dataPtr, dataLen, byteFlags, initialized);
      while len > 0
        invariant Valid() && offset == old(offset) && initialized == old(initialized)
        invariant eventRegister == old(eventRegister) && events == old(events)
        invariant len > 0 ==> PutAll(State(), Written(ptr, len, byteFlags, initialized)) == PutAll(old(State()), all)
        invariant len == 0 ==> State() == PutAll(old(State()), all)
        invariant n + Needed(len) == Needed(dataLen) && ptr > 0
        decreases len
      {
        var descLen: nat, descFlags: bv32;
        WrittenStep(ptr, len, byteFlags, initialized);
        NeededBounds(len, 1);
        if len > BAM_MAX_DESC_DATA_LEN {
          NeededStep(len);
          PutFirst(State(), Desc(ptr, 0xFFFF, 0, 0), Written(ptr + 0xFFFF, len - 0xFFFF, byteFlags, initialized));
        } else {
          PutFirst(State(), Desc(ptr, len, 0, byteFlags), []);
        }
        if len > BAM_MAX_DESC_DATA_LEN {
          descLen := BAM_MAX_DESC_DATA_LEN;
          len := len - BAM_MAX_DESC_DATA_LEN;
          descFlags := 0;
        } else {
          descLen := len;
          len := 0;
          descFlags := flags;
        }
        var _ := AddOneDesc(ptr, descLen, (descFlags & 0xFF) as bv8);
        ptr := ptr + BAM_MAX_DESC_DATA_LEN;
        n := n + 1;
      }
      GenEvent(n);
      return 0;
    }
  }
}
