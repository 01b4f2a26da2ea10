/** The two-bank frequency switch of clock-local.c: while one bank drives the clock, the other one is
    programmed, and only then selected. */
module BankSwitch {

  /** A 32-bit register value. */
  datatype Word = Word(bits: bv32)

  const ZERO := Word(0)

  /** The fields of one bank: two in the NS register, two in the control register. */
  datatype Bank = Bank(nsMask: Word, rstMask: Word, mndEnMask: Word, modeMask: Word)

  datatype Banks = Banks(bank0: Bank, bank1: Bank, selMask: Word) {
    function At(one: bool): Bank { if one then bank1 else bank0 }
  }

  datatype Freq = Freq(nsVal: Word, mdVal: Word, ctlVal: Word)

  /** The registers of the clock. */
  datatype Regs = Regs(ctl: Word, ns: Word, md0: Word, md1: Word) {
    function Md(one: bool): Word { if one then md1 else md0 }
  }

  function SetMd(r: Regs, one: bool, v: Word): Regs {
    if one then r.(md1 := v) else r.(md0 := v)
  }

  // Named, so that proofs can leave the bits aside.
  function Field(x: Word, m: Word): Word { Word(x.bits & m.bits) }
  function Set(x: Word, m: Word): Word { Word(x.bits | m.bits) }
  function Clear(x: Word, m: Word): Word { Word(x.bits & !m.bits) }
  function Flip(x: Word, m: Word): Word { Word(x.bits ^ m.bits) }
  function Merge(x: Word, mask: Word, v: Word): Word { Set(Clear(x, mask), Field(v, mask)) }
  predicate Apart(m: Word, f: Word) { m.bits & f.bits == 0 }

  predicate OneBit(m: Word) { m.bits != 0 && m.bits & (m.bits - 1) == 0 }

  predicate Separate(a: Word, b: Word) { Apart(a, b) && Apart(b, a) }

  /** Masks in one register do not overlap, and one bit selects. */
  predicate Disjoint(k: Banks) {
    var a, b := k.bank0, k.bank1;
    && OneBit(k.selMask)
    && Separate(k.selMask, a.mndEnMask) && Separate(k.selMask, a.modeMask)
    && Separate(k.selMask, b.mndEnMask) && Separate(k.selMask, b.modeMask)
    && Separate(a.mndEnMask, a.modeMask) && Separate(a.mndEnMask, b.mndEnMask) && Separate(a.mndEnMask, b.modeMask)
    && Separate(a.modeMask, b.mndEnMask) && Separate(a.modeMask, b.modeMask) && Separate(b.mndEnMask, b.modeMask)
    && Separate(a.nsMask, a.rstMask) && Separate(a.nsMask, b.nsMask) && Separate(a.nsMask, b.rstMask)
    && Separate(a.rstMask, b.nsMask) && Separate(a.rstMask, b.rstMask) && Separate(b.nsMask, b.rstMask)
  }

  predicate Selected(k: Banks, r: Regs) { Field(r.ctl, k.selMask) != ZERO }

  /** Every field of one bank reads the same. */
  predicate SameBank(k: Banks, one: bool, r: Regs, t: Regs) {
    var b := k.At(one);
    && Field(r.ctl, b.mndEnMask) == Field(t.ctl, b.mndEnMask) && Field(r.ctl, b.modeMask) == Field(t.ctl, b.modeMask)
    && Field(r.ns, b.nsMask) == Field(t.ns, b.nsMask) && Field(r.ns, b.rstMask) == Field(t.ns, b.rstMask)
    && r.Md(one) == t.Md(one)
  }

  /** The bank is out of reset, counts, and carries the frequency. */
  predicate Ready(k: Banks, one: bool, r: Regs, nf: Freq) {
    var b := k.At(one);
    && r.Md(one) == nf.mdVal && Field(r.ctl, b.modeMask) == Field(nf.ctlVal, b.modeMask)
    && Field(r.ns, b.nsMask) == Field(nf.nsVal, b.nsMask) && Field(r.ns, b.rstMask) == ZERO
    && Field(r.ctl, b.mndEnMask) == b.mndEnMask
  }

  /** One register write while the clock runs: the bank it runs from keeps all its fields, and the clock is
      switched only to a bank that is ready. */
  predicate Glitchless(k: Banks, r: Regs, t: Regs, nf: Freq) {
    && SameBank(k, Selected(k, r), r, t)
    && (Selected(k, t) != Selected(k, r) ==> Ready(k, Selected(k, t), t, nf))
  }

  // ----- the writes, one function each

  function AssertReset(k: Banks, n: bool, r: Regs): Regs { r.(ns := Set(r.ns, k.At(n).rstMask)) }

  function ProgramNs(k: Banks, n: bool, r: Regs, nf: Freq): Regs { r.(ns := Merge(r.ns, k.At(n).nsMask, nf.nsVal)) }

  function ProgramMd(n: bool, r: Regs, nf: Freq): Regs { SetMd(r, n, nf.mdVal) }

  function ProgramCtl(k: Banks, n: bool, r: Regs, nf: Freq, enabled: bool): Regs {
    var en := k.At(n).mndEnMask;
    r.(ctl := Merge(if enabled then Set(r.ctl, en) else Clear(r.ctl, en), k.At(n).modeMask, nf.ctlVal))
  }

  function DeassertReset(k: Banks, n: bool, r: Regs): Regs { r.(ns := Clear(r.ns, k.At(n).rstMask)) }

  function Switch(k: Banks, r: Regs): Regs { r.(ctl := Flip(r.ctl, k.selMask)) }

  function StopOld(k: Banks, o: bool, r: Regs): Regs { r.(ctl := Clear(r.ctl, k.At(o).mndEnMask)) }

  function ParkOld(k: Banks, o: bool, r: Regs, low: Word): Regs { r.(ns := Merge(r.ns, k.At(o).nsMask, low)) }

  // ----- bit facts

  lemma SetLeaves(x: Word, m: Word, f: Word)
    requires Apart(m, f)
    ensures Field(Set(x, m), f) == Field(x, f)
  {
  }

  lemma ClearLeaves(x: Word, m: Word, f: Word)
    requires Apart(m, f)
    ensures Field(Clear(x, m), f) == Field(x, f)
  {
  }

  lemma SetKeeps(x: Word, m: Word, f: Word)
    requires Apart(m, f)
    ensures Field(Set(x, m), f) == Field(x, f) && Field(Clear(x, m), f) == Field(x, f)
  {
    hide Field, Set, Clear, Apart;
    SetLeaves(x, m, f);
    ClearLeaves(x, m, f);
  }

  lemma MergeKeeps(x: Word, m: Word, v: Word, f: Word)
    requires Apart(m, f)
    ensures Field(Merge(x, m, v), f) == Field(x, f)
  {
  }

  lemma MergedField(x: Word, m: Word, v: Word)
    ensures Field(Merge(x, m, v), m) == Field(v, m)
  {
  }

  lemma SetField(x: Word, m: Word)
    ensures Field(Set(x, m), m) == m
  {
  }

  lemma ClearedField(x: Word, m: Word)
    ensures Field(Clear(x, m), m) == ZERO
  {
  }

  lemma MergeSets(x: Word, m: Word, v: Word)
    ensures Field(Merge(x, m, v), m) == Field(v, m)
    ensures Field(Set(x, m), m) == m && Field(Clear(x, m), m) == ZERO
  {
    hide Field, Set, Clear, Merge;
    MergedField(x, m, v);
    SetField(x, m);
    ClearedField(x, m);
  }

  lemma FlipSelects(x: Word, m: Word)
    requires OneBit(m)
    ensures Field(Flip(x, m), m) != ZERO <==> Field(x, m) == ZERO
  {
  }

  lemma FlipKeeps(x: Word, m: Word, f: Word)
    requires Apart(m, f)
    ensures Field(Flip(x, m), f) == Field(x, f)
  {
  }

  // ----- one write at a time

  /** Writes to the fields of bank n leave the other bank and the select bit alone. */
  ghost predicate LeavesOther(k: Banks, n: bool, r: Regs, t: Regs) {
    SameBank(k, !n, r, t) && Selected(k, t) == Selected(k, r)
  }

  lemma AssertResetIsLocal(k: Banks, n: bool, r: Regs)
    requires Disjoint(k)
    ensures LeavesOther(k, n, r, AssertReset(k, n, r)) && LeavesOther(k, n, r, DeassertReset(k, n, r))
  {
    hide Field, Set, Clear, Flip, Merge, Apart, OneBit;
    var m, o := k.At(n).rstMask, k.At(!n);
    SetKeeps(r.ns, m, o.nsMask);
    SetKeeps(r.ns, m, o.rstMask);
  }

  lemma ProgramNsIsLocal(k: Banks, n: bool, r: Regs, nf: Freq)
    requires Disjoint(k)
    ensures LeavesOther(k, n, r, ProgramNs(k, n, r, nf))
  {
    hide Field, Set, Clear, Flip, Merge, Apart, OneBit;
    var m, o := k.At(n).nsMask, k.At(!n);
    MergeKeeps(r.ns, m, nf.nsVal, o.nsMask);
    MergeKeeps(r.ns, m, nf.nsVal, o.rstMask);
  }

  lemma ProgramCtlIsLocal(k: Banks, n: bool, r: Regs, nf: Freq, enabled: bool)
    requires Disjoint(k)
    ensures LeavesOther(k, n, r, ProgramCtl(k, n, r, nf, enabled))
  {
    hide Field, Set, Clear, Flip, Merge, Apart, OneBit;
    var b, o := k.At(n), k.At(!n);
    var x := if enabled then Set(r.ctl, b.mndEnMask) else Clear(r.ctl, b.mndEnMask);
    SetKeeps(r.ctl, b.mndEnMask, o.mndEnMask);
    SetKeeps(r.ctl, b.mndEnMask, o.modeMask);
    SetKeeps(r.ctl, b.mndEnMask, k.selMask);
    MergeKeeps(x, b.modeMask, nf.ctlVal, o.mndEnMask);
    MergeKeeps(x, b.modeMask, nf.ctlVal, o.modeMask);
    MergeKeeps(x, b.modeMask, nf.ctlVal, k.selMask);
  }

  lemma SwitchIsClean(k: Banks, n: bool, r: Regs)
    requires Disjoint(k)
    ensures SameBank(k, n, r, Switch(k, r)) && SameBank(k, !n, r, Switch(k, r))
    ensures Selected(k, Switch(k, r)) != Selected(k, r)
  {
    hide Field, Set, Clear, Flip, Merge, Apart, OneBit;
    FlipSelects(r.ctl, k.selMask);
    FlipKeeps(r.ctl, k.selMask, k.bank0.mndEnMask);
    FlipKeeps(r.ctl, k.selMask, k.bank0.modeMask);
    FlipKeeps(r.ctl, k.selMask, k.bank1.mndEnMask);
    FlipKeeps(r.ctl, k.selMask, k.bank1.modeMask);
  }

  lemma StopOldIsLocal(k: Banks, o: bool, r: Regs, low: Word)
    requires Disjoint(k)
    ensures LeavesOther(k, o, r, StopOld(k, o, r)) && Field(StopOld(k, o, r).ctl, k.At(o).mndEnMask) == ZERO
    ensures LeavesOther(k, o, r, ParkOld(k, o, r, low))
    ensures Field(ParkOld(k, o, r, low).ns, k.At(o).nsMask) == Field(low, k.At(o).nsMask)
  {
    hide Field, Set, Clear, Flip, Merge, Apart, OneBit;
    var b, n := k.At(o), k.At(!o);
    SetKeeps(r.ctl, b.mndEnMask, n.mndEnMask);
    SetKeeps(r.ctl, b.mndEnMask, n.modeMask);
    SetKeeps(r.ctl, b.mndEnMask, k.selMask);
    MergeSets(r.ctl, b.mndEnMask, ZERO);
    MergeKeeps(r.ns, b.nsMask, low, n.nsMask);
    MergeKeeps(r.ns, b.nsMask, low, n.rstMask);
    MergeSets(r.ns, b.nsMask, low);
  }

  // ----- the bank that is programmed

  /** The five writes that program bank n; NS is left alone while the clock is disabled. */
  function Step1(k: Banks, n: bool, r: Regs): Regs { AssertReset(k, n, r) }
  function Step2(k: Banks, n: bool, r: Regs, nf: Freq, enabled: bool): Regs {
    if enabled then ProgramNs(k, n, Step1(k, n, r), nf) else Step1(k, n, r)
  }
  function Step3(k: Banks, n: bool, r: Regs, nf: Freq, enabled: bool): Regs {
    ProgramMd(n, Step2(k, n, r, nf, enabled), nf)
  }
  function Step4(k: Banks, n: bool, r: Regs, nf: Freq, enabled: bool): Regs {
    ProgramCtl(k, n, Step3(k, n, r, nf, enabled), nf, enabled)
  }
  function Programmed(k: Banks, n: bool, r: Regs, nf: Freq, enabled: bool): Regs {
    DeassertReset(k, n, Step4(k, n, r, nf, enabled))
  }

  /** The registers after each of those writes. */
  function Programming(k: Banks, n: bool, r: Regs, nf: Freq, enabled: bool): (w: seq<Regs>)
    ensures |w| == if enabled then 5 else 4
    ensures w[|w| - 1] == Programmed(k, n, r, nf, enabled)
  {
    (if enabled then [Step1(k, n, r)] + [Step2(k, n, r, nf, enabled)] else [Step1(k, n, r)])
    + [Step3(k, n, r, nf, enabled)] + [Step4(k, n, r, nf, enabled)] + [Programmed(k, n, r, nf, enabled)]
  }

  /** After the writes the bank carries the frequency: all of it when the clock is enabled, all but NS and
      with the counter off when it is not. */
  lemma ProgrammedCarries(k: Banks, n: bool, r: Regs, nf: Freq, enabled: bool)
    requires Disjoint(k)
    ensures var t, b := Programmed(k, n, r, nf, enabled), k.At(n);
            && t.Md(n) == nf.mdVal && Field(t.ctl, b.modeMask) == Field(nf.ctlVal, b.modeMask)
            && Field(t.ns, b.rstMask) == ZERO
            && (enabled ==> Ready(k, n, t, nf))
            && (!enabled ==> Field(t.ctl, b.mndEnMask) == ZERO && Field(t.ns, b.nsMask) == Field(r.ns, b.nsMask))
  {
    hide Field, Set, Clear, Flip, Merge, Apart, OneBit;
    var b := k.At(n);
    var t2 := Step2(k, n, r, nf, enabled);
    var x := if enabled then Set(r.ctl, b.mndEnMask) else Clear(r.ctl, b.mndEnMask);
    SetKeeps(r.ns, b.rstMask, b.nsMask);
    MergeSets(Set(r.ns, b.rstMask), b.nsMask, nf.nsVal);
    SetKeeps(t2.ns, b.rstMask, b.nsMask);
    MergeSets(t2.ns, b.rstMask, ZERO);
    MergeSets(r.ctl, b.mndEnMask, ZERO);
    MergeKeeps(x, b.modeMask, nf.ctlVal, b.mndEnMask);
    MergeSets(x, b.modeMask, nf.ctlVal);
  }

  // ----- the whole sequence

  /** The bank that is programmed: the idle one when the clock runs, the active one when it does not. */
  function Target(k: Banks, r: Regs, running: bool): bool { if running then !Selected(k, r) else Selected(k, r) }

  /** The registers after every write of set_rate_mnd_banked. */
  function Writes(k: Banks, r: Regs, nf: Freq, low: Word, enabled: bool, running: bool): (w: seq<Regs>)
    ensures |w| >= 4
  {
    var n := Target(k, r, running);
    var w := Programming(k, n, r, nf, enabled);
    if !running then w
    else
      var s := Switch(k, w[|w| - 1]);
      var o := StopOld(k, !n, s);
      w + [s] + [o] + [ParkOld(k, !n, o, low)]
  }

  /** The registers before write i. */
  function Before(from: Regs, w: seq<Regs>, i: nat): Regs
    requires i <= |w|
  {
    if i == 0 then from else w[i - 1]
  }

  ghost predicate NoGlitches(k: Banks, from: Regs, w: seq<Regs>, nf: Freq) {
    forall i :: 0 <= i < |w| ==> Glitchless(k, Before(from, w, i), w[i], nf)
  }

  lemma LocalIsGlitchless(k: Banks, n: bool, r: Regs, t: Regs, nf: Freq)
    requires LeavesOther(k, n, r, t) && Selected(k, r) == !n
    ensures Glitchless(k, r, t, nf) && Selected(k, t) == !n
  {
  }

  /** The five writes to the idle bank. */
  lemma ProgrammingIsGlitchless(k: Banks, n: bool, r: Regs, nf: Freq)
    requires Disjoint(k) && Selected(k, r) == !n
    ensures NoGlitches(k, r, Programming(k, n, r, nf, true), nf)
    ensures Selected(k, Programmed(k, n, r, nf, true)) == !n && LeavesOther(k, n, r, Programmed(k, n, r, nf, true))
  {
    hide Field, Set, Clear, Flip, Merge, Apart, OneBit, Disjoint, LeavesOther, Glitchless, Selected, AssertReset,
      ProgramNs, ProgramCtl, DeassertReset;
    var r1, r2 := Step1(k, n, r), Step2(k, n, r, nf, true);
    var r3, r4 := Step3(k, n, r, nf, true), Step4(k, n, r, nf, true);
    AssertResetIsLocal(k, n, r);
    LocalIsGlitchless(k, n, r, r1, nf);
    ProgramNsIsLocal(k, n, r1, nf);
    LocalIsGlitchless(k, n, r1, r2, nf);
    MdIsLocal(k, n, r2, nf);
    LocalIsGlitchless(k, n, r2, r3, nf);
    ProgramCtlIsLocal(k, n, r3, nf, true);
    LocalIsGlitchless(k, n, r3, r4, nf);
    AssertResetIsLocal(k, n, r4);
    LocalIsGlitchless(k, n, r4, Programmed(k, n, r, nf, true), nf);
    LeavesChain(k, n, r, r1, r2);
    LeavesChain(k, n, r, r2, r3);
    LeavesChain(k, n, r, r3, r4);
    LeavesChain(k, n, r, r4, Programmed(k, n, r, nf, true));
    OneMoreGlitchless(k, r, [], r1, nf);
    OneMoreGlitchless(k, r, [r1], r2, nf);
    OneMoreGlitchless(k, r, [r1] + [r2], r3, nf);
    OneMoreGlitchless(k, r, [r1] + [r2] + [r3], r4, nf);
    OneMoreGlitchless(k, r, [r1] + [r2] + [r3] + [r4], Programmed(k, n, r, nf, true), nf);
    assert [] + [r1] == [r1];
  }

  lemma MdIsLocal(k: Banks, n: bool, r: Regs, nf: Freq)
    ensures LeavesOther(k, n, r, ProgramMd(n, r, nf))
  {
    hide Field, Set, Clear, Flip, Merge, Apart, OneBit;
  }

  lemma LeavesChain(k: Banks, n: bool, r: Regs, s: Regs, t: Regs)
    requires LeavesOther(k, n, r, s) && LeavesOther(k, n, s, t)
    ensures LeavesOther(k, n, r, t)
  {
    hide Field, Set, Clear, Flip, Merge, Apart, OneBit;
  }

  /** While the clock runs, no write touches the bank it runs from, and it is switched only to a ready bank. */
  lemma RunningSwitchIsGlitchless(k: Banks, r: Regs, nf: Freq, low: Word)
    requires Disjoint(k)
    ensures NoGlitches(k, r, Writes(k, r, nf, low, true, true), nf)
  {
    hide Field, Set, Clear, Flip, Merge, Apart, OneBit, Disjoint, Programming, Programmed, LeavesOther, Selected,
      Switch, StopOld, ParkOld, SameBank, Ready;
    var n := Target(k, r, true);
    var t := Programmed(k, n, r, nf, true);
    var s, o := Switch(k, t), StopOld(k, !n, Switch(k, t));
    ProgrammingIsGlitchless(k, n, r, nf);
    ProgrammedCarries(k, n, r, nf, true);
    SwitchIsClean(k, n, t);
    ReadyStays(k, n, t, s, nf);
    StopOldIsLocal(k, !n, t, low);
    StopOldIsLocal(k, !n, s, low);
    LocalIsGlitchless(k, !n, s, o, nf);
    StopOldIsLocal(k, !n, o, low);
    LocalIsGlitchless(k, !n, o, ParkOld(k, !n, o, low), nf);
    var w := Programming(k, n, r, nf, true);
    OneMoreGlitchless(k, r, w, s, nf);
    OneMoreGlitchless(k, r, w + [s], o, nf);
    OneMoreGlitchless(k, r, w + [s] + [o], ParkOld(k, !n, o, low), nf);
  }

  lemma OneMoreGlitchless(k: Banks, r: Regs, w: seq<Regs>, t: Regs, nf: Freq)
    requires NoGlitches(k, r, w, nf) && Glitchless(k, Before(r, w, |w|), t, nf)
    ensures NoGlitches(k, r, w + [t], nf)
  {
    hide Glitchless;
    var v := w + [t];
    forall i | 0 <= i < |v| ensures Glitchless(k, Before(r, v, i), v[i], nf) {
      assert Before(r, v, i) == Before(r, w, i);
      if i < |w| { assert v[i] == w[i]; }
    }
  }

  lemma ReadyStays(k: Banks, n: bool, r: Regs, t: Regs, nf: Freq)
    requires Ready(k, n, r, nf) && SameBank(k, n, r, t)
    ensures Ready(k, n, t, nf)
  {
  }

  /** On return the clock's bank carries the frequency; the select bit moved exactly when the clock was
      running, and then the old bank is stopped and parked. */
  lemma SwitchResult(k: Banks, r: Regs, nf: Freq, low: Word, enabled: bool, running: bool)
    requires Disjoint(k) && (running ==> enabled)
    ensures var w := Writes(k, r, nf, low, enabled, running);
            var t, n := w[|w| - 1], Target(k, r, running);
            && Selected(k, t) == n && (Selected(k, t) != Selected(k, r) <==> running)
            && t.Md(n) == nf.mdVal && Field(t.ctl, k.At(n).modeMask) == Field(nf.ctlVal, k.At(n).modeMask)
            && Field(t.ns, k.At(n).rstMask) == ZERO
            && (enabled ==> Ready(k, n, t, nf))
            && (!enabled ==>
                  Field(t.ctl, k.At(n).mndEnMask) == ZERO
                  && Field(t.ns, k.At(n).nsMask) == Field(r.ns, k.At(n).nsMask))
            && (running ==>
                  Field(t.ctl, k.At(!n).mndEnMask) == ZERO
                  && Field(t.ns, k.At(!n).nsMask) == Field(low, k.At(!n).nsMask))
            && (!running ==> SameBank(k, !n, r, t))
  {
    hide Field, Set, Clear, Flip, Merge, Apart, OneBit, Disjoint, Programmed, Switch, StopOld, ParkOld;
    var n := Target(k, r, running);
    var p := Programmed(k, n, r, nf, enabled);
    ProgrammedCarries(k, n, r, nf, enabled);
    ProgrammedIsLocal(k, n, r, nf, enabled);
    if running {
      var s := Switch(k, p);
      var o := StopOld(k, !n, s);
      SwitchIsClean(k, n, p);
      StopOldIsLocal(k, !n, s, low);
      StopOldIsLocal(k, !n, o, low);
      ParkKeepsCtl(k, !n, o, low);
    }
  }

  lemma ParkKeepsCtl(k: Banks, o: bool, r: Regs, low: Word)
    ensures ParkOld(k, o, r, low).ctl == r.ctl
  {
  }

  lemma ProgrammedIsLocal(k: Banks, n: bool, r: Regs, nf: Freq, enabled: bool)
    requires Disjoint(k)
    ensures LeavesOther(k, n, r, Programmed(k, n, r, nf, enabled))
  {
    hide Field, Set, Clear, Flip, Merge, Apart, OneBit, Disjoint, LeavesOther, AssertReset, ProgramNs, ProgramCtl,
      DeassertReset;
    var r1, r2 := Step1(k, n, r), Step2(k, n, r, nf, enabled);
    var r3, r4 := Step3(k, n, r, nf, enabled), Step4(k, n, r, nf, enabled);
    AssertResetIsLocal(k, n, r);
    if enabled {
      ProgramNsIsLocal(k, n, r1, nf);
      LeavesChain(k, n, r, r1, r2);
    }
    MdIsLocal(k, n, r2, nf);
    LeavesChain(k, n, r, r2, r3);
    ProgramCtlIsLocal(k, n, r3, nf, enabled);
    LeavesChain(k, n, r, r3, r4);
    AssertResetIsLocal(k, n, r4);
    LeavesChain(k, n, r, r4, Programmed(k, n, r, nf, enabled));
  }

  // ----- the order of the writes

  predicate InReset(k: Banks, n: bool, r: Regs) { Field(r.ns, k.At(n).rstMask) == k.At(n).rstMask }

  /** The multiplexer, the counter values, its mode and its enable bit are the same: only the reset may differ. */
  predicate SameSettings(k: Banks, n: bool, r: Regs, t: Regs) {
    var b := k.At(n);
    && Field(r.ctl, b.mndEnMask) == Field(t.ctl, b.mndEnMask) && Field(r.ctl, b.modeMask) == Field(t.ctl, b.modeMask)
    && Field(r.ns, b.nsMask) == Field(t.ns, b.nsMask) && r.Md(n) == t.Md(n)
  }

  /** One write while bank n is set up: its settings change only in reset, and the other bank's multiplexer only when
      that bank is deselected and its counter stands still. */
  predicate Orderly(k: Banks, n: bool, r: Regs, t: Regs) {
    && (SameSettings(k, n, r, t) || (InReset(k, n, r) && InReset(k, n, t)))
    && (Field(r.ns, k.At(!n).nsMask) == Field(t.ns, k.At(!n).nsMask)
        || (Field(r.ctl, k.At(!n).mndEnMask) == ZERO && Selected(k, r) == n))
  }

  ghost predicate AllOrderly(k: Banks, n: bool, from: Regs, w: seq<Regs>) {
    forall i :: 0 <= i < |w| ==> Orderly(k, n, Before(from, w, i), w[i])
  }

  lemma OneMoreOrderly(k: Banks, n: bool, r: Regs, w: seq<Regs>, t: Regs)
    requires AllOrderly(k, n, r, w) && Orderly(k, n, Before(r, w, |w|), t)
    ensures AllOrderly(k, n, r, w + [t])
  {
    hide Orderly;
    var v := w + [t];
    forall i | 0 <= i < |v| ensures Orderly(k, n, Before(r, v, i), v[i]) {
      assert Before(r, v, i) == Before(r, w, i);
      if i < |w| { assert v[i] == w[i]; }
    }
  }

  /** The reset is held from the first of the programming writes to the last. */
  lemma ResetIsHeld(k: Banks, n: bool, r: Regs, nf: Freq, enabled: bool)
    requires Disjoint(k)
    ensures InReset(k, n, Step1(k, n, r)) && InReset(k, n, Step2(k, n, r, nf, enabled))
    ensures InReset(k, n, Step3(k, n, r, nf, enabled)) && InReset(k, n, Step4(k, n, r, nf, enabled))
    ensures SameSettings(k, n, r, Step1(k, n, r))
    ensures SameSettings(k, n, Step4(k, n, r, nf, enabled), Programmed(k, n, r, nf, enabled))
  {
    hide Field, Set, Clear, Flip, Merge, Apart, OneBit;
    var b := k.At(n);
    MergeSets(r.ns, b.rstMask, ZERO);
    MergeKeeps(Set(r.ns, b.rstMask), b.nsMask, nf.nsVal, b.rstMask);
    SetKeeps(r.ns, b.rstMask, b.nsMask);
    SetKeeps(Step4(k, n, r, nf, enabled).ns, b.rstMask, b.nsMask);
  }

  lemma LocalIsOrderly(k: Banks, n: bool, r: Regs, t: Regs)
    requires LeavesOther(k, n, r, t) && (SameSettings(k, n, r, t) || (InReset(k, n, r) && InReset(k, n, t)))
    ensures Orderly(k, n, r, t)
  {
    hide Field;
  }

  lemma ProgrammingIsOrderly(k: Banks, n: bool, r: Regs, nf: Freq, enabled: bool)
    requires Disjoint(k)
    ensures AllOrderly(k, n, r, Programming(k, n, r, nf, enabled))
  {
    hide Field, Set, Clear, Flip, Merge, Apart, OneBit, Disjoint, LeavesOther, Orderly, SameSettings, InReset, Selected,
      AssertReset, ProgramNs, ProgramCtl, DeassertReset, AllOrderly;
    var r1, r2 := Step1(k, n, r), Step2(k, n, r, nf, enabled);
    var r3, r4 := Step3(k, n, r, nf, enabled), Step4(k, n, r, nf, enabled);
    ResetIsHeld(k, n, r, nf, enabled);
    AssertResetIsLocal(k, n, r);
    LocalIsOrderly(k, n, r, r1);
    MdIsLocal(k, n, r2, nf);
    LocalIsOrderly(k, n, r2, r3);
    ProgramCtlIsLocal(k, n, r3, nf, enabled);
    LocalIsOrderly(k, n, r3, r4);
    AssertResetIsLocal(k, n, r4);
    LocalIsOrderly(k, n, r4, Programmed(k, n, r, nf, enabled));
    NoneOrderly(k, n, r);
    OneMoreOrderly(k, n, r, [], r1);
    assert [] + [r1] == [r1];
    if enabled {
      ProgramNsIsLocal(k, n, r1, nf);
      LocalIsOrderly(k, n, r1, r2);
      OneMoreOrderly(k, n, r, [r1], r2);
    }
    var w := if enabled then [r1] + [r2] else [r1];
    OneMoreOrderly(k, n, r, w, r3);
    OneMoreOrderly(k, n, r, w + [r3], r4);
    OneMoreOrderly(k, n, r, w + [r3] + [r4], Programmed(k, n, r, nf, enabled));
  }

  lemma NoneOrderly(k: Banks, n: bool, r: Regs)
    ensures AllOrderly(k, n, r, [])
  {
  }

  lemma RestingIsOrderly(k: Banks, n: bool, r: Regs, low: Word)
    requires Disjoint(k) && Selected(k, r) == !n
    ensures var s := Switch(k, r);
            var o := StopOld(k, !n, s);
            Orderly(k, n, r, s) && Orderly(k, n, s, o) && Orderly(k, n, o, ParkOld(k, !n, o, low))
  {
    hide Field, Set, Clear, Flip, Merge, Apart, OneBit;
    var s := Switch(k, r);
    SwitchIsClean(k, n, r);
    StopOldIsLocal(k, !n, s, low);
    StopOldIsLocal(k, !n, StopOld(k, !n, s), low);
  }

  /** Every write is in order: a bank is set up in reset, and the old bank is put to rest only after the switch and with
      its counter stopped. */
  lemma WritesAreOrderly(k: Banks, r: Regs, nf: Freq, low: Word, enabled: bool, running: bool)
    requires Disjoint(k)
    ensures AllOrderly(k, Target(k, r, running), r, Writes(k, r, nf, low, enabled, running))
  {
    hide Field, Disjoint, LeavesOther, Orderly, AllOrderly, Selected, Programmed, Switch, StopOld, ParkOld, Programming;
    var n, w := Target(k, r, running), Programming(k, Target(k, r, running), r, nf, enabled);
    ProgrammingIsOrderly(k, n, r, nf, enabled);
    if running {
      var p := w[|w| - 1];
      ProgrammedIsLocal(k, n, r, nf, enabled);
      LeavesSelect(k, n, r, p);
      RestingIsOrderly(k, n, p, low);
      var s := Switch(k, p);
      var o := StopOld(k, !n, s);
      OneMoreOrderly(k, n, r, w, s);
      OneMoreOrderly(k, n, r, w + [s], o);
      OneMoreOrderly(k, n, r, w + [s] + [o], ParkOld(k, !n, o, low));
    }
  }

  lemma LeavesSelect(k: Banks, n: bool, r: Regs, t: Regs)
    requires LeavesOther(k, n, r, t)
    ensures Selected(k, t) == Selected(k, r)
  {
    hide Selected, SameBank;
  }

  // ----- what is not touched

  /** Bits that belong to no bank. */
  predicate NoBanksBits(k: Banks, inCtl: Word, inNs: Word) {
    var a, b := k.bank0, k.bank1;
    && Apart(k.selMask, inCtl) && Apart(a.mndEnMask, inCtl) && Apart(a.modeMask, inCtl)
    && Apart(b.mndEnMask, inCtl) && Apart(b.modeMask, inCtl)
    && Apart(a.nsMask, inNs) && Apart(a.rstMask, inNs) && Apart(b.nsMask, inNs) && Apart(b.rstMask, inNs)
  }

  predicate SameBits(r: Regs, t: Regs, inCtl: Word, inNs: Word) {
    Field(r.ctl, inCtl) == Field(t.ctl, inCtl) && Field(r.ns, inNs) == Field(t.ns, inNs)
  }

  lemma ProgrammingKeepsBits(k: Banks, n: bool, r: Regs, nf: Freq, enabled: bool, inCtl: Word, inNs: Word)
    requires NoBanksBits(k, inCtl, inNs)
    ensures SameBits(r, Programmed(k, n, r, nf, enabled), inCtl, inNs)
  {
    hide Field, Set, Clear, Flip, Merge, Apart;
    var b := k.At(n);
    SetKeeps(r.ns, b.rstMask, inNs);
    MergeKeeps(Step1(k, n, r).ns, b.nsMask, nf.nsVal, inNs);
    SetKeeps(Step4(k, n, r, nf, enabled).ns, b.rstMask, inNs);
    SetKeeps(r.ctl, b.mndEnMask, inCtl);
    MergeKeeps(if enabled then Set(r.ctl, b.mndEnMask) else Clear(r.ctl, b.mndEnMask), b.modeMask, nf.ctlVal, inCtl);
  }

  lemma RestingKeepsBits(k: Banks, n: bool, r: Regs, low: Word, inCtl: Word, inNs: Word)
    requires NoBanksBits(k, inCtl, inNs)
    ensures SameBits(r, ParkOld(k, !n, StopOld(k, !n, Switch(k, r)), low), inCtl, inNs)
  {
    hide Field, Set, Clear, Flip, Merge, Apart;
    var b := k.At(!n);
    FlipKeeps(r.ctl, k.selMask, inCtl);
    SetKeeps(Switch(k, r).ctl, b.mndEnMask, inCtl);
    MergeKeeps(r.ns, b.nsMask, low, inNs);
  }

  /** Bits of no bank are never changed, and of the old bank only the counter's enable bit and the multiplexer are. */
  lemma NothingElseChanges(k: Banks, r: Regs, nf: Freq, low: Word, enabled: bool, running: bool, inCtl: Word,
                           inNs: Word)
    requires Disjoint(k) && NoBanksBits(k, inCtl, inNs)
    ensures var w := Writes(k, r, nf, low, enabled, running);
            var t, o := w[|w| - 1], !Target(k, r, running);
            && Field(t.ctl, inCtl) == Field(r.ctl, inCtl) && Field(t.ns, inNs) == Field(r.ns, inNs)
            && t.Md(o) == r.Md(o) && Field(t.ctl, k.At(o).modeMask) == Field(r.ctl, k.At(o).modeMask)
            && Field(t.ns, k.At(o).rstMask) == Field(r.ns, k.At(o).rstMask)
  {
    hide Field, Set, Clear, Flip, Merge, Apart, OneBit, Disjoint, NoBanksBits, Programmed, Switch, StopOld, ParkOld;
    var n := Target(k, r, running);
    var p := Programmed(k, n, r, nf, enabled);
    ProgrammingKeepsBits(k, n, r, nf, enabled, inCtl, inNs);
    ProgrammedIsLocal(k, n, r, nf, enabled);
    if running {
      RestingKeepsBits(k, n, p, low, inCtl, inNs);
      RestingKeepsOld(k, n, p, low);
    }
  }

  lemma RestingKeepsOld(k: Banks, n: bool, r: Regs, low: Word)
    requires Disjoint(k)
    ensures var t, b := ParkOld(k, !n, StopOld(k, !n, Switch(k, r)), low), k.At(!n);
            && t.Md(!n) == r.Md(!n) && Field(t.ctl, b.modeMask) == Field(r.ctl, b.modeMask)
            && Field(t.ns, b.rstMask) == Field(r.ns, b.rstMask)
  {
    hide Field, Set, Clear, Flip, Merge, Apart, OneBit;
    var b := k.At(!n);
    FlipKeeps(r.ctl, k.selMask, b.modeMask);
    SetKeeps(Switch(k, r).ctl, b.mndEnMask, b.modeMask);
    MergeKeeps(r.ns, b.nsMask, low, b.rstMask);
  }

  lemma MergeIs(x: Word, m: Word, v: Word)
    ensures Merge(x, m, v) == Set(Clear(x, m), Field(v, m))
  {
  }

  lemma StepsAre(k: Banks, n: bool, r: Regs, nf: Freq, enabled: bool)
    ensures Step1(k, n, r) == r.(ns := Set(r.ns, k.At(n).rstMask))
    ensures enabled ==>
              Step2(k, n, r, nf, enabled) == Step1(k, n, r).(ns := Merge(Step1(k, n, r).ns, k.At(n).nsMask, nf.nsVal))
    ensures !enabled ==> Step2(k, n, r, nf, enabled) == Step1(k, n, r)
    ensures Step3(k, n, r, nf, enabled) == SetMd(Step2(k, n, r, nf, enabled), n, nf.mdVal)
    ensures Step3(k, n, r, nf, enabled).ctl == r.ctl && Step3(k, n, r, nf, enabled).ns == Step2(k, n, r, nf, enabled).ns
    ensures var c, en := r.ctl, k.At(n).mndEnMask;
            Step4(k, n, r, nf, enabled) == Step3(k, n, r, nf, enabled).(
              ctl := Merge(if enabled then Set(c, en) else Clear(c, en), k.At(n).modeMask, nf.ctlVal))
    ensures Programmed(k, n, r, nf, enabled) ==
            Step4(k, n, r, nf, enabled).(ns := Clear(Step2(k, n, r, nf, enabled).ns, k.At(n).rstMask))
  {
    hide Field, Set, Clear, Merge;
  }

  // ----- the clock

  class BankedClk {
    const banks: Banks
    const lowPowerNs: Word
    var ctl: Word
    var ns: Word
    var md0: Word
    var md1: Word
    var enabled: bool
    var currentHz: nat
    var nsMask: Word
    ghost var trace: seq<Regs>

    constructor (banks: Banks, lowPowerNs: Word)
      ensures this.banks == banks && this.lowPowerNs == lowPowerNs && trace == []
    {
      this.banks, this.lowPowerNs := banks, lowPowerNs;
      trace := [];
    }

    ghost function State(): Regs
      reads this
    {
      Regs(ctl, ns, md0, md1)
    }

    method WriteCtl(v: Word)
      modifies this`ctl, this`trace
      ensures ctl == v && trace == old(trace) + [State()]
    {
      ctl := v;
      trace := trace + [State()];
    }

    method WriteNs(v: Word)
      modifies this`ns, this`trace
      ensures ns == v && trace == old(trace) + [State()]
    {
      ns := v;
      trace := trace + [State()];
    }

    method WriteMd(one: bool, v: Word)
      modifies this`md0, this`md1, this`trace
      ensures State() == SetMd(old(State()), one, v) && trace == old(trace) + [State()]
    {
      if one { md1 := v; } else { md0 := v; }
      trace := trace + [State()];
    }

    /** The part of set_rate_mnd_banked that programs a bank. */
    method ProgramBank(newBank: bool, nf: Freq) returns (ctlRegVal: Word, nsRegVal: Word)
      requires trace == []
      modifies this`ctl, this`ns, this`md0, this`md1, this`trace
      ensures trace == Programming(banks, newBank, old(State()), nf, enabled)
      ensures State() == Programmed(banks, newBank, old(State()), nf, enabled)
      ensures ctlRegVal == ctl && nsRegVal == ns
    {
      hide Field, Set, Clear, Flip, Apart, OneBit, Merge, Step1, Step2, Step3, Step4, Programmed;
      ctlRegVal, nsRegVal := ctl, ns;
      var masks := banks.At(newBank);
      ghost var r := State();
      StepsAre(banks, newBank, r, nf, enabled);
      nsRegVal := Set(nsRegVal, masks.rstMask);
      WriteNs(nsRegVal);
      assert State() == Step1(banks, newBank, r);
      if enabled {
        MergeIs(nsRegVal, masks.nsMask, nf.nsVal);
        nsRegVal := Clear(nsRegVal, masks.nsMask);
        nsRegVal := Set(nsRegVal, Field(nf.nsVal, masks.nsMask));
        WriteNs(nsRegVal);
      }
      assert State() == Step2(banks, newBank, r, nf, enabled);
      WriteMd(newBank, nf.mdVal);
      ctlRegVal := if enabled then Set(ctlRegVal, masks.mndEnMask) else Clear(ctlRegVal, masks.mndEnMask);
      MergeIs(ctlRegVal, masks.modeMask, nf.ctlVal);
      ctlRegVal := Clear(ctlRegVal, masks.modeMask);
      ctlRegVal := Set(ctlRegVal, Field(nf.ctlVal, masks.modeMask));
      WriteCtl(ctlRegVal);
      assert State() == Step4(banks, newBank, r, nf, enabled);
      nsRegVal := Clear(nsRegVal, masks.rstMask);
      WriteNs(nsRegVal);
    }

    /** The part that switches to the new bank and puts the old one to rest. */
    method SwitchOver(newBank: bool, ctlVal: Word, nsVal: Word)
      requires ctlVal == ctl && nsVal == ns
      modifies this`ctl, this`ns, this`trace
      ensures var s := Switch(banks, old(State()));
              var o := StopOld(banks, !newBank, s);
              && State() == ParkOld(banks, !newBank, o, lowPowerNs)
              && trace == old(trace) + [s] + [o] + [State()]
    {
      hide Field, Set, Clear, Flip, Apart, OneBit, Merge;
      var masks, ctlRegVal, nsRegVal := banks.At(!newBank), ctlVal, nsVal;
      ctlRegVal := Flip(ctlRegVal, banks.selMask);
      WriteCtl(ctlRegVal);
      ctlRegVal := Clear(ctlRegVal, masks.mndEnMask);
      WriteCtl(ctlRegVal);
      MergeIs(nsRegVal, masks.nsMask, lowPowerNs);
      nsRegVal := Clear(nsRegVal, masks.nsMask);
      nsRegVal := Set(nsRegVal, Field(lowPowerNs, masks.nsMask));
      WriteNs(nsRegVal);
    }

    /** set_rate_mnd_banked.  The result is the counter enable mask the new frequency entry is left with. */
    method SetRateMndBanked(nf: Freq, mndEnMask: Word) returns (newEnMask: Word)
      requires trace == []
      modifies this`ctl, this`ns, this`md0, this`md1, this`nsMask, this`trace
      ensures trace == Writes(banks, old(State()), nf, lowPowerNs, enabled, enabled && currentHz != 0)
      ensures State() == trace[|trace| - 1]
      ensures var n := Target(banks, old(State()), enabled && currentHz != 0);
              nsMask == banks.At(n).nsMask && newEnMask == if mndEnMask != ZERO then banks.At(n).mndEnMask else ZERO
    {
      hide Field, Merge, Set, Clear, Flip, Apart, OneBit, Programming, Programmed, Switch, StopOld, ParkOld;
      var bankSel := Field(ctl, banks.selMask) != ZERO;
      if !enabled || currentHz == 0 { bankSel := !bankSel; }
      var newBank := !bankSel;
      var ctlRegVal, nsRegVal := ProgramBank(newBank, nf);
      if enabled && currentHz != 0 { SwitchOver(newBank, ctlRegVal, nsRegVal); }
      newEnMask := if mndEnMask != ZERO then banks.At(newBank).mndEnMask else ZERO;
      nsMask := banks.At(newBank).nsMask;
    }
  }
}
