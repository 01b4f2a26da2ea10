/** The tuning loop of sdhci_msm_execute_tuning: sweep all sampling phases, try the next driver type
    while every phase passes, then settle on a phase of the last sweep. */
module Tuning {
  import opened PhaseSelect

  const MAX_PHASES: nat := 16
  const MX_DRV_SUPPORTED_HS200: nat := 3

  /** What happens at one phase: the delay line does not lock, or the tuning block comes back
      wrong (or not at all), or it comes back right. */
  datatype Probe = NoLock | Wrong | Right

  /** Everything the hardware answers.  `probe(k, p)` is the answer at phase p in sweep k,
      `locks(p)` whether the delay line takes the phase finally chosen. */
  datatype Card = Card(initOk: bool, calibrateOk: bool, isMmc: bool, strength: nat -> bool,
                       probe: (nat, nat) -> Probe, locks: nat -> bool)

  /** mmc_set_drv_type answers whether the card was switched. */
  predicate SetDrvType(card: Card, drvType: nat) {
    card.isMmc && card.strength(drvType)
  }

  // ----- one sweep

  /** The phases below n that pass in sweep k, in increasing order. */
  function Passed(card: Card, k: nat, n: nat): (t: seq<nat>)
    ensures |t| <= n
  {
    if n == 0 then []
    else if card.probe(k, n - 1) == Right then Passed(card, k, n - 1) + [n - 1]
    else Passed(card, k, n - 1)
  }

  lemma {:induction false} PassedIsPassingSet(card: Card, k: nat, n: nat)
    ensures Increasing(Passed(card, k, n))
    ensures Passed(card, k, n) != [] ==> PhaseTable(Passed(card, k, n), n)
    ensures forall p: nat :: p in Passed(card, k, n) <==> p < n && card.probe(k, p) == Right
  {
    if n > 0 {
      PassedIsPassingSet(card, k, n - 1);
      var before, t := Passed(card, k, n - 1), Passed(card, k, n);
      assert forall i :: 0 <= i < |before| ==> before[i] in before;
      assert forall i :: 0 <= i < |t| ==> t[i] in t;
    }
  }

  ghost predicate Locked(card: Card, k: nat, n: nat) {
    forall p: nat :: p < n ==> card.probe(k, p) != NoLock
  }

  method Sweep(card: Card, k: nat, tunedPhases: array<nat>) returns (ok: bool, count: nat)
    requires tunedPhases.Length == MAX_PHASES
    modifies tunedPhases
    ensures ok <==> Locked(card, k, MAX_PHASES)
    ensures ok ==> count <= MAX_PHASES && tunedPhases[..count] == Passed(card, k, MAX_PHASES)
  {
    count := 0;
    var phase := 0;
    while phase < MAX_PHASES
      invariant phase <= MAX_PHASES && count <= phase
      invariant Locked(card, k, phase)
      invariant tunedPhases[..count] == Passed(card, k, phase)
    {
      var answer := card.probe(k, phase);
      if answer == NoLock {
        return false, count;
      }
      if answer == Right {
        tunedPhases[count] := phase;
        count := count + 1;
      }
      phase := phase + 1;
    }
    ok := true;
  }

  // ----- the whole loop

  /** The next driver type above d that the card accepts. */
  function NextDrv(card: Card, d: nat): (r: nat)
    ensures r > d && (d <= MX_DRV_SUPPORTED_HS200 ==> r <= MX_DRV_SUPPORTED_HS200 + 1)
    ensures r <= MX_DRV_SUPPORTED_HS200 ==> SetDrvType(card, r)
    ensures forall e :: d < e < r && e <= MX_DRV_SUPPORTED_HS200 ==> !SetDrvType(card, e)
    decreases MX_DRV_SUPPORTED_HS200 - d
  {
    if d >= MX_DRV_SUPPORTED_HS200 || SetDrvType(card, d + 1) then d + 1 else NextDrv(card, d + 1)
  }

  datatype Outcome = Failed | Settled(sweep: nat, drvType: nat)

  /** Sweeping from sweep k at driver type d: where the retries end. */
  function Retry(card: Card, k: nat, d: nat): (r: Outcome)
    requires d <= MX_DRV_SUPPORTED_HS200
    ensures r.Settled? ==> k <= r.sweep <= k + MX_DRV_SUPPORTED_HS200 - d
    decreases MX_DRV_SUPPORTED_HS200 - d
  {
    if exists p: nat :: p < MAX_PHASES && card.probe(k, p) == NoLock then Failed
    else if |Passed(card, k, MAX_PHASES)| == MAX_PHASES && NextDrv(card, d) <= MX_DRV_SUPPORTED_HS200 then
      Retry(card, k + 1, NextDrv(card, d))
    else Settled(k, d)
  }

  /** Every sweep before the last one passed at all phases, so a retry never hides a usable window. */
  lemma {:induction false} EarlierSweepsPassedEverywhere(card: Card, k: nat, d: nat, j: nat)
    requires d <= MX_DRV_SUPPORTED_HS200
    requires Retry(card, k, d).Settled? && k <= j < Retry(card, k, d).sweep
    ensures forall p: nat :: p < MAX_PHASES ==> card.probe(j, p) == Right
    decreases MX_DRV_SUPPORTED_HS200 - d
  {
    if j == k {
      var t := Passed(card, k, MAX_PHASES);
      PassedIsPassingSet(card, k, MAX_PHASES);
      SpanOfIncreasing(t, MAX_PHASES);
      forall p: nat | p < MAX_PHASES
        ensures card.probe(j, p) == Right
      {
        assert t[p] == p;
      }
    } else {
      EarlierSweepsPassedEverywhere(card, k + 1, NextDrv(card, d), j);
    }
  }

  // ----- when the retries end

  /** The card can be switched to driver type d. */
  predicate Accepts(card: Card, d: nat) { card.isMmc && card.strength(d) }

  /** How many of the driver types above c, up to d, it can be switched to. */
  function AcceptedTypes(card: Card, c: nat, d: nat): (n: nat)
    ensures n <= d
  {
    if d <= c then 0 else AcceptedTypes(card, c, d - 1) + if Accepts(card, d) then 1 else 0
  }

  ghost predicate AllRight(card: Card, k: nat) {
    forall p: nat :: p < 16 ==> card.probe(k, p) == Right
  }

  ghost predicate SomeNoLock(card: Card, k: nat) {
    exists p: nat :: p < 16 && card.probe(k, p) == NoLock
  }

  /** Starting with sweep k at driver type d, the retries go on exactly as long as all sixteen phases pass and one of
      the driver types up to 3 is left that the card accepts: they take those types one by one, and only a
      phase at which the delay line does not lock ends them otherwise. */
  ghost predicate GoesOn(card: Card, k: nat, d: nat, r: Outcome) {
    match r
    case Settled(s, e) =>
      && k <= s && d <= e <= 3 && s - k == AcceptedTypes(card, d, e) && (e == d || Accepts(card, e))
      && (forall j: nat :: k <= j < s ==> AllRight(card, j))
      && !SomeNoLock(card, s)
      && (AllRight(card, s) ==> forall x: nat :: e < x <= 3 ==> !Accepts(card, x))
    case Failed =>
      exists s: nat :: FailsAt(card, k, d, s)
  }

  ghost predicate FailsAt(card: Card, k: nat, d: nat, s: nat) {
    && k <= s <= k + AcceptedTypes(card, d, 3) && SomeNoLock(card, s)
    && forall j: nat :: k <= j < s ==> AllRight(card, j)
  }

  lemma {:induction false} RetriesGoOn(card: Card, k: nat, d: nat)
    requires d <= MX_DRV_SUPPORTED_HS200
    ensures GoesOn(card, k, d, Retry(card, k, d))
    decreases MX_DRV_SUPPORTED_HS200 - d
  {
    hide Retry, SomeNoLock, AllRight, AcceptedTypes;
    RetryStep(card, k, d);
    NoneBetween(card, d, NextDrv(card, d));
    NoTypesAbove(card, d);
    var next := NextDrv(card, d);
    if SomeNoLock(card, k) {
      assert FailsAt(card, k, d, k);
    } else if AllRight(card, k) && next <= MX_DRV_SUPPORTED_HS200 {
      RetriesGoOn(card, k + 1, next);
      var r := Retry(card, k + 1, next);
      if r.Settled? {
        SplitTypes(card, d, next, r.drvType);
      } else {
        SplitTypes(card, d, next, 3);
        var s: nat :| FailsAt(card, k + 1, next, s);
        assert FailsAt(card, k, d, s);
      }
    }
  }

  lemma NoTypesAbove(card: Card, d: nat)
    ensures AcceptedTypes(card, d, d) == 0
  {
  }

  lemma RetryStep(card: Card, k: nat, d: nat)
    requires d <= MX_DRV_SUPPORTED_HS200
    ensures Retry(card, k, d)
         == if SomeNoLock(card, k) then Failed
            else if AllRight(card, k) && NextDrv(card, d) <= MX_DRV_SUPPORTED_HS200 then
              Retry(card, k + 1, NextDrv(card, d))
            else Settled(k, d)
  {
    hide Passed;
    FullSweep(card, k);
  }

  /** All sixteen phases are in the list exactly when all passed. */
  lemma FullSweep(card: Card, k: nat)
    ensures |Passed(card, k, MAX_PHASES)| == MAX_PHASES <==> AllRight(card, k)
  {
    var t := Passed(card, k, MAX_PHASES);
    PassedIsPassingSet(card, k, MAX_PHASES);
    if |t| == MAX_PHASES {
      SpanOfIncreasing(t, MAX_PHASES);
      forall p: nat | p < 16 ensures card.probe(k, p) == Right {
        assert t[p] == p;
      }
    }
    if AllRight(card, k) { FullList(card, k, MAX_PHASES); }
  }

  lemma {:induction false} FullList(card: Card, k: nat, n: nat)
    requires n <= 16 && AllRight(card, k)
    ensures |Passed(card, k, n)| == n
  {
    if n > 0 { FullList(card, k, n - 1); }
  }

  lemma {:induction false} NoneBetween(card: Card, d: nat, next: nat)
    requires next == NextDrv(card, d) && d <= MX_DRV_SUPPORTED_HS200
    ensures next <= MX_DRV_SUPPORTED_HS200 ==> AcceptedTypes(card, d, next) == 1 && Accepts(card, next)
    ensures next > MX_DRV_SUPPORTED_HS200 ==> forall x: nat :: d < x <= 3 ==> !Accepts(card, x)
  {
    NoTypes(card, d, next - 1);
  }

  lemma {:induction false} NoTypes(card: Card, d: nat, e: nat)
    requires forall x: nat :: d < x <= e && x <= MX_DRV_SUPPORTED_HS200 ==> !Accepts(card, x)
    requires e <= MX_DRV_SUPPORTED_HS200
    ensures AcceptedTypes(card, d, e) == 0
    decreases e
  {
    if e > d { NoTypes(card, d, e - 1); }
  }

  lemma {:induction false} SplitTypes(card: Card, c: nat, d: nat, e: nat)
    requires c <= d <= e
    ensures AcceptedTypes(card, c, e) == AcceptedTypes(card, c, d) + AcceptedTypes(card, d, e)
    decreases e
  {
    if e > d { SplitTypes(card, c, d, e - 1); }
  }

  /** A card that takes every driver type and passes everywhere in two sweeps gets a third one. */
  lemma ThirdSweepHappens(card: Card)
    requires card.isMmc && forall d: nat :: card.strength(d)
    requires AllRight(card, 0) && AllRight(card, 1) && !AllRight(card, 2) && !SomeNoLock(card, 2)
    ensures Retry(card, 0, 0) == Settled(2, 2)
  {
    hide Passed;
    FullSweep(card, 0);
    FullSweep(card, 1);
    FullSweep(card, 2);
    assert NextDrv(card, 0) == 1 && NextDrv(card, 1) == 2;
  }

  class MsmHost {
    var tuningInProgress: bool
    var tuningDone: bool
    var calibrationDone: bool
    var hs400: bool
    var savedPhase: nat
  }

  /** A phase fit to be saved after sweep k: three quarters into the first
      longest cyclic run of passing phases. */
  ghost predicate GoodPhase(card: Card, k: nat, phase: nat) {
    && phase < MAX_PHASES && card.probe(k, phase) == Right
    && WellChosen(Passed(card, k, MAX_PHASES), MAX_PHASES, phase)
  }

  /** The phase a sweep with a passing phase settles on. */
  ghost function Choice(card: Card, k: nat): (phase: nat)
    requires Passed(card, k, MAX_PHASES) != []
    ensures GoodPhase(card, k, phase)
  {
    PassedIsPassingSet(card, k, MAX_PHASES);
    ChosenPhaseIsWellChosen(Passed(card, k, MAX_PHASES), MAX_PHASES);
    ChosenPhase(Passed(card, k, MAX_PHASES), MAX_PHASES)
  }

  /** What `saved_phase` becomes when sweep k settles: it keeps its value when the delay line refuses
      the choice, and the source reports success in that case too. */
  ghost function SavedAfter(card: Card, k: nat, before: nat): nat
    requires Passed(card, k, MAX_PHASES) != []
  {
    if card.locks(Choice(card, k)) then Choice(card, k) else before
  }

  /** Success leaves a phase of the ring that failed the last sweep exactly when the delay line refuses
      the choice and the phase saved before was such a phase. */
  lemma BadPhaseStaysIff(card: Card, k: nat, before: nat)
    requires Passed(card, k, MAX_PHASES) != []
    ensures card.probe(k, SavedAfter(card, k, before)) != Right <==>
              !card.locks(Choice(card, k)) && card.probe(k, before) != Right
    ensures SavedAfter(card, k, before) == Choice(card, k) <==>
              card.locks(Choice(card, k)) || before == Choice(card, k)
  {
    assert GoodPhase(card, k, Choice(card, k));
  }

  /** A card on which only phase 0 passes and a delay line that refuses it: tuning succeeds and
      phase 5, at which the tuning block came back wrong, stays. */
  lemma RefusedChoiceStillSucceeds()
    ensures var card := Card(true, true, false, _ => false, (_, p) => if p == 0 then Right else Wrong, _ => false);
            && Retry(card, 0, 0) == Settled(0, 0) && Passed(card, 0, MAX_PHASES) == [0]
            && SavedAfter(card, 0, 5) == 5 && card.probe(0, 5) == Wrong
  {
    var card := Card(true, true, false, _ => false, (_, p) => if p == 0 then Right else Wrong, _ => false);
    OnlyPhaseZero(card, 0, MAX_PHASES);
  }

  lemma {:induction false} OnlyPhaseZero(card: Card, k: nat, n: nat)
    requires 0 < n && forall p: nat :: card.probe(k, p) == if p == 0 then Right else Wrong
    ensures Passed(card, k, n) == [0]
  {
    if n > 1 {
      OnlyPhaseZero(card, k, n - 1);
    } else {
      assert Passed(card, k, 0) == [];
    }
  }

  method ExecuteTuning(host: MsmHost, card: Card) returns (ret: int, sweeps: nat)
    modifies host
    ensures !host.tuningInProgress && host.tuningDone && host.hs400 == old(host.hs400)
    ensures sweeps <= MX_DRV_SUPPORTED_HS200 + 1
    // the HS400 shortcut calibrates instead of sweeping
    ensures old(host.tuningDone && !host.calibrationDone && host.hs400) ==>
              sweeps == 0 && host.savedPhase == old(host.savedPhase) && (ret == 0 <==> card.calibrateOk)
              && (host.calibrationDone <==> card.calibrateOk)
    ensures !old(host.tuningDone && !host.calibrationDone && host.hs400) ==>
              host.calibrationDone == old(host.calibrationDone) && (!card.initOk ==> sweeps == 0)
    // a phase is saved exactly when a sweep settles with a passing phase that the delay line then takes
    ensures host.savedPhase != old(host.savedPhase) ==> ret == 0
    ensures card.initOk && !old(host.tuningDone && !host.calibrationDone && host.hs400) ==>
              var r := Retry(card, 0, 0);
              GoesOn(card, 0, 0, r) &&
              if r.Failed? then ret != 0 && host.savedPhase == old(host.savedPhase)
              else
                && sweeps == r.sweep + 1
                && (ret == 0 <==> Passed(card, r.sweep, MAX_PHASES) != [])
                && (ret != 0 ==> host.savedPhase == old(host.savedPhase))
                && (ret == 0 ==> host.savedPhase == SavedAfter(card, r.sweep, old(host.savedPhase)))
    ensures !card.initOk && !old(host.tuningDone && !host.calibrationDone && host.hs400) ==>
              ret != 0 && host.savedPhase == old(host.savedPhase)
  {
    hide Passed, Retry, SavedAfter, GoesOn;
    RetriesGoOn(card, 0, 0);
    sweeps, ret := 0, 0;
    host.tuningInProgress := true;
    if host.tuningDone && !host.calibrationDone && host.hs400 {
      if card.calibrateOk { host.calibrationDone := true; } else { ret := 1; }
    } else if !card.initOk {
      ret := 1;
    } else {
      var tunedPhases := new nat[MAX_PHASES](_ => 0);
      var ok, count;
      ok, count, sweeps := RetryTuning(card, tunedPhases);
      if !ok {
        ret := 1;
      } else if count > 0 {
        SavePhase(host, card, tunedPhases, count, sweeps - 1);
      } else {
        ret := 1;
      }
    }
    host.tuningInProgress := false;
    host.tuningDone := true;
  }

  /** The phases of the last sweep are handed over, and the delay line is asked to take the choice. */
  method SavePhase(host: MsmHost, card: Card, tunedPhases: array<nat>, count: nat, ghost k: nat)
    requires 0 < count <= tunedPhases.Length && tunedPhases[..count] == Passed(card, k, MAX_PHASES)
    modifies host`savedPhase
    ensures Passed(card, k, MAX_PHASES) != []
    ensures host.savedPhase == SavedAfter(card, k, old(host.savedPhase))
  {
    hide Passed, ChosenPhase, PhaseTable, WellChosen;
    PassedIsPassingSet(card, k, MAX_PHASES);
    var phase := FindAppropriatePhase(tunedPhases, count, MAX_PHASES);
    if card.locks(phase) {
      host.savedPhase := phase;
    }
  }

  /** The sweep and its `goto retry_tuning`. */
  method RetryTuning(card: Card, tunedPhases: array<nat>) returns (ok: bool, count: nat, sweeps: nat)
    requires tunedPhases.Length == MAX_PHASES
    modifies tunedPhases
    ensures 1 <= sweeps <= MX_DRV_SUPPORTED_HS200 + 1
    ensures GoesOn(card, 0, 0, Retry(card, 0, 0)) && (ok <==> Retry(card, 0, 0).Settled?)
    ensures ok ==> sweeps == Retry(card, 0, 0).sweep + 1
    ensures ok ==> count <= MAX_PHASES && tunedPhases[..count] == Passed(card, sweeps - 1, MAX_PHASES)
  {
    hide GoesOn;
    RetriesGoOn(card, 0, 0);
    var drvType := 0;
    sweeps := 0;
    while true
      invariant drvType <= MX_DRV_SUPPORTED_HS200 && sweeps <= drvType
      invariant Retry(card, 0, 0) == Retry(card, sweeps, drvType)
      decreases MX_DRV_SUPPORTED_HS200 - drvType
    {
      ok, count := Sweep(card, sweeps, tunedPhases);
      sweeps := sweeps + 1;
      if !ok { return; }
      if count != MAX_PHASES { break; }
      ghost var d0 := drvType;
      drvType := drvType + 1;
      while drvType <= MX_DRV_SUPPORTED_HS200 && !SetDrvType(card, drvType)
        invariant d0 < drvType <= MX_DRV_SUPPORTED_HS200 + 1
        invariant NextDrv(card, d0) == NextDrv(card, drvType - 1)
      {
        drvType := drvType + 1;
      }
      if drvType > MX_DRV_SUPPORTED_HS200 { break; }
    }
  }
}
