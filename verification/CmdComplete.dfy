/** Deciding whether a command completed (sdhci_cmd_complete): two polling loops over the interrupt
    status registers, and a final look at the errors.

    The registers are an arbitrary history: each read advances the time by one. */
module CmdComplete {

  datatype Option<+T> = None | Some(value: T)

  datatype History = History(nrml: nat -> bv16, err: nat -> bv16)

  // normal interrupt status
  const CMD_COMPLETE: bv16 := 0x0001
  const TRANS_COMPLETE: bv16 := 0x0002
  const ERR_INT_STAT: bv16 := 0x8000
  // error interrupt status
  const CMD_TIMEOUT: bv16 := 0x0001
  const CMD_CRC: bv16 := 0x0002
  const CMD_END_BIT: bv16 := 0x0004
  const CMD_IDX: bv16 := 0x0008
  const DAT_TIMEOUT: bv16 := 0x0010
  const DAT_CRC: bv16 := 0x0020
  const ANY_ERROR: bv16 := 0x03FF

  const SDHCI_MAX_CMD_RETRY: nat := 5000000
  const SDHCI_MAX_TRANS_RETRY: nat := 10000000

  predicate Has(reg: bv16, mask: bv16) { reg & mask != 0 }

  /** Error bits stay set until the lines are reset, and the summary bit is set when one of them is. */
  ghost predicate Sticky(h: History) {
    && (forall s: nat, t: nat :: s <= t ==> h.err(s) & h.err(t) == h.err(s))
    && forall t: nat :: Has(h.nrml(t), ERR_INT_STAT) <==> Has(h.err(t), ANY_ERROR)
  }

  /** How a polling loop ends: the event came at time `at`, an error or the retry limit cut it short,
      or tuning gave up. */
  datatype Exit = Seen(at: nat) | Cut(ret: nat) | TuningFailed

  // ----- the two loops, as functions of the history

  /** One turn of the first loop: how the loop ends here, if it does, and the time after its reads. */
  function CommandTurn(h: History, tuning: bool, t: nat): (r: (Option<Exit>, nat))
    ensures t < r.1 <= t + 4
    ensures r.0.Some? && r.0.value.Seen? ==>
              r.0.value.at == t && t + 1 < r.1 && Has(h.nrml(t), CMD_COMPLETE) && !Has(h.err(t + 1), CMD_TIMEOUT)
    ensures r.0.Some? && r.0.value.Cut? ==> r.0.value.ret == 0 && !tuning && Has(h.nrml(t), ERR_INT_STAT)
    ensures r.0.Some? && r.0.value.TuningFailed? ==> tuning
  {
    hide Has;
    var status := h.nrml(t);
    var t1 := t + 1;
    var t2 := if Has(status, CMD_COMPLETE) then t1 + 1 else t1;
    if Has(status, CMD_COMPLETE) && !Has(h.err(t1), CMD_TIMEOUT) then (Some(Seen(t)), t2)
    else
      var t3 := if Has(status, ERR_INT_STAT) && !tuning then t2 + 1 else t2;
      if Has(status, ERR_INT_STAT) && !tuning && !Has(h.err(t2), DAT_TIMEOUT) then (Some(Cut(0)), t3)
      else if !tuning then (None, t3)
      else if Has(h.err(t3), CMD_CRC | CMD_END_BIT | CMD_TIMEOUT | CMD_IDX) then (Some(TuningFailed), t3 + 1)
      else (None, t3 + 1)
  }

  function PollCommand(h: History, tuning: bool, t: nat, left: nat): (r: (Exit, nat))
    requires left > 0
    ensures t < r.1 <= t + 4 * left
    ensures r.0.Seen? ==> t <= r.0.at && r.0.at + 1 < r.1
                          && Has(h.nrml(r.0.at), CMD_COMPLETE) && !Has(h.err(r.0.at + 1), CMD_TIMEOUT)
    ensures r.0.Cut? ==> r.0.ret <= 1
    ensures r.0 == Cut(0) ==> !tuning && exists s: nat :: t <= s < r.1 && Has(h.nrml(s), ERR_INT_STAT)
    ensures r.0.TuningFailed? ==> tuning
    decreases left
  {
    hide Has, CommandTurn;
    var (exit, t1) := CommandTurn(h, tuning, t);
    if exit.Some? then (exit.value, t1)
    else if left == 1 then (Cut(1), t1)
    else PollCommand(h, tuning, t1, left - 1)
  }

  /** One turn of the second loop. */
  function TransferTurn(h: History, tuning: bool, t: nat): (r: (Option<Exit>, nat))
    ensures t < r.1 <= t + 2
    ensures r.0.Some? && r.0.value.Seen? ==> r.0.value.at == t && Has(h.nrml(t), TRANS_COMPLETE)
    ensures r.0.Some? && r.0.value.Cut? ==> r.0.value.ret == 0 && !tuning && Has(h.nrml(t), ERR_INT_STAT)
    ensures r.0.Some? && r.0.value.TuningFailed? ==> tuning
  {
    hide Has;
    var status := h.nrml(t);
    var t1 := t + 1;
    if Has(status, TRANS_COMPLETE) then (Some(Seen(t)), t1)
    else
      var t2 := if Has(status, ERR_INT_STAT) && !tuning then t1 + 1 else t1;
      if Has(status, ERR_INT_STAT) && !tuning && !Has(h.err(t1), DAT_TIMEOUT) then (Some(Cut(0)), t2)
      else if !tuning then (None, t2)
      else if Has(h.err(t2), DAT_TIMEOUT | DAT_CRC) then (Some(TuningFailed), t2 + 1)
      else (None, t2 + 1)
  }

  function PollTransfer(h: History, tuning: bool, t: nat, left: nat): (r: (Exit, nat))
    requires left > 0
    ensures t < r.1 <= t + 2 * left
    ensures r.0.Seen? ==> t <= r.0.at < r.1 && Has(h.nrml(r.0.at), TRANS_COMPLETE)
    ensures r.0.Cut? ==> r.0.ret <= 1
    ensures r.0 == Cut(0) ==> !tuning && exists s: nat :: t <= s < r.1 && Has(h.nrml(s), ERR_INT_STAT)
    ensures r.0.TuningFailed? ==> tuning
    decreases left
  {
    hide Has, TransferTurn;
    var (exit, t1) := TransferTurn(h, tuning, t);
    if exit.Some? then (exit.value, t1)
    else if left == 1 then (Cut(1), t1)
    else PollTransfer(h, tuning, t1, left - 1)
  }

  /** What the call returns, whether it resets the command and data lines, the two sightings, and when
      the last status was read. */
  datatype Outcome = Outcome(ret: nat, reset: bool, command: Exit, transfer: Exit, checked: nat)

  /** The error check at the end; `command` and `transfer` are how the loops ended. */
  function Finish(h: History, ret: nat, command: Exit, transfer: Exit, t: nat): Outcome {
    var failed := Has(h.nrml(t), ERR_INT_STAT);
    var ret' := if !failed then ret
                else if Has(h.err(t + 1), DAT_TIMEOUT) && transfer.Seen? then 0
                else if Has(h.err(t + 2), ANY_ERROR) then 1
                else ret;
    Outcome(ret', failed, command, transfer, t)
  }

  function Complete(h: History, tuning: bool, needsData: bool, cmdTimeout: nat, t: nat): Outcome {
    var maxTrans := if cmdTimeout > 0 then cmdTimeout else SDHCI_MAX_TRANS_RETRY;
    var (command, t1) := PollCommand(h, tuning, t, SDHCI_MAX_CMD_RETRY);
    match command
    case TuningFailed => Outcome(1, true, command, Cut(1), t1)
    case Cut(ret) => Finish(h, ret, command, Cut(1), t1)
    case Seen(_) =>
      if !needsData then Finish(h, 0, command, Cut(1), t1)
      else
        var (transfer, t2) := PollTransfer(h, tuning, t1, maxTrans);
        match transfer
        case TuningFailed => Outcome(1, true, command, transfer, t2)
        case Cut(ret) => Finish(h, ret, command, transfer, t2)
        case Seen(_) => Finish(h, 0, command, transfer, t2)
  }

  // ----- what the outcome means

  lemma StickyHas(x: bv16, y: bv16, mask: bv16)
    requires x & y == x && Has(x, mask)
    ensures Has(y, mask)
  {
    assert x & mask == (x & y) & mask == x & (y & mask);
  }

  lemma ErrorsStay(h: History, s: nat, t: nat)
    requires Sticky(h) && s <= t && Has(h.nrml(s), ERR_INT_STAT)
    ensures Has(h.nrml(t), ERR_INT_STAT) && Has(h.err(t), ANY_ERROR)
  {
    assert Has(h.err(s), ANY_ERROR);
    StickyHas(h.err(s), h.err(t), ANY_ERROR);
  }

  /** What the two sightings in an outcome stand for. */
  lemma SightingsAreReal(h: History, tuning: bool, needsData: bool, cmdTimeout: nat, t: nat)
    ensures var o := Complete(h, tuning, needsData, cmdTimeout, t);
            o.command.Seen? ==> t <= o.command.at < o.checked && Has(h.nrml(o.command.at), CMD_COMPLETE)
                                && !Has(h.err(o.command.at + 1), CMD_TIMEOUT)
    ensures var o := Complete(h, tuning, needsData, cmdTimeout, t);
            o.transfer.Seen? ==> needsData && o.command.Seen? && o.command.at < o.transfer.at < o.checked
                                 && Has(h.nrml(o.transfer.at), TRANS_COMPLETE)
  {
    hide PollCommand, PollTransfer, Has;
  }

  /** A loop that left on an error leaves an error to be found. */
  lemma CutLeavesError(h: History, needsData: bool, cmdTimeout: nat, t: nat)
    requires Sticky(h)
    ensures var o := Complete(h, false, needsData, cmdTimeout, t);
            o.command == Cut(0) || (needsData && o.transfer == Cut(0)) ==> Has(h.nrml(o.checked), ERR_INT_STAT)
  {
    hide PollCommand, PollTransfer, Has, Sticky;
    var o := Complete(h, false, needsData, cmdTimeout, t);
    var maxTrans := if cmdTimeout > 0 then cmdTimeout else SDHCI_MAX_TRANS_RETRY;
    var (command, t1) := PollCommand(h, false, t, SDHCI_MAX_CMD_RETRY);
    if command == Cut(0) {
      var s: nat :| t <= s < t1 && Has(h.nrml(s), ERR_INT_STAT);
      ErrorsStay(h, s, o.checked);
    } else if command.Seen? && needsData {
      var (transfer, t2) := PollTransfer(h, false, t1, maxTrans);
      if transfer == Cut(0) {
        var s: nat :| t1 <= s < t2 && Has(h.nrml(s), ERR_INT_STAT);
        ErrorsStay(h, s, o.checked);
      }
    }
  }

  /** The command was seen complete, and the transfer too if there is one. */
  predicate Completed(o: Outcome, needsData: bool) {
    o.command.Seen? && (needsData ==> o.transfer.Seen?)
  }

  /** A polling loop left because the summary bit was set. */
  predicate LeftOnError(o: Outcome, needsData: bool) {
    o.command == Cut(0) || (o.command.Seen? && needsData && o.transfer == Cut(0))
  }

  /** The last look finds no error: the summary bit is clear, or none of the ten error bits is set. */
  predicate NothingFound(h: History, o: Outcome) {
    !Has(h.nrml(o.checked), ERR_INT_STAT) || !Has(h.err(o.checked + 2), ANY_ERROR)
  }

  /** For every register history: when exactly 0 is returned although something did not complete. */
  lemma FalseSuccessIff(h: History, needsData: bool, cmdTimeout: nat, t: nat)
    ensures var o := Complete(h, false, needsData, cmdTimeout, t);
            o.ret == 0 && !Completed(o, needsData) <==> LeftOnError(o, needsData) && NothingFound(h, o)
  {
    hide PollCommand, PollTransfer, Has;
  }

  /** For every register history: when exactly 0 is returned. */
  lemma ZeroIff(h: History, needsData: bool, cmdTimeout: nat, t: nat)
    ensures var o := Complete(h, false, needsData, cmdTimeout, t);
            o.ret == 0 <==>
              || (Completed(o, needsData)
                  && (NothingFound(h, o) || (o.transfer.Seen? && Has(h.err(o.checked + 1), DAT_TIMEOUT))))
              || (LeftOnError(o, needsData) && NothingFound(h, o))
  {
    hide PollCommand, PollTransfer, Has;
  }

  /** With sticky errors, and outside tuning, 0 is returned exactly when the command was seen complete
      without a command timeout, the transfer was seen complete if there is one, and the last status
      shows no error except a data timeout that the completed transfer overrides. */
  lemma ZeroMeansComplete(h: History, needsData: bool, cmdTimeout: nat, t: nat)
    requires Sticky(h)
    ensures var o := Complete(h, false, needsData, cmdTimeout, t);
            o.ret == 0 <==>
              && Completed(o, needsData)
              && (Has(h.nrml(o.checked), ERR_INT_STAT) ==> o.transfer.Seen? && Has(h.err(o.checked + 1), DAT_TIMEOUT))
  {
    hide Complete, Has, Sticky;
    var o := Complete(h, false, needsData, cmdTimeout, t);
    ZeroIff(h, needsData, cmdTimeout, t);
    CutLeavesError(h, needsData, cmdTimeout, t);
    if Has(h.nrml(o.checked), ERR_INT_STAT) {
      ErrorsStay(h, o.checked, o.checked + 2);
    }
  }

  /** Outside tuning the lines are reset exactly when the last status shows an error; in tuning an
      early failure always resets them. */
  lemma ResetIffError(h: History, tuning: bool, needsData: bool, cmdTimeout: nat, t: nat)
    ensures var o := Complete(h, tuning, needsData, cmdTimeout, t);
            if o.command.TuningFailed? || o.transfer.TuningFailed? then tuning && o.reset && o.ret == 1
            else o.reset <==> Has(h.nrml(o.checked), ERR_INT_STAT)
  {
    hide PollCommand, PollTransfer, Has;
  }

  /** Polling ends within the two retry budgets. */
  lemma PollingEnds(h: History, tuning: bool, needsData: bool, cmdTimeout: nat, t: nat)
    ensures var maxTrans := if cmdTimeout > 0 then cmdTimeout else SDHCI_MAX_TRANS_RETRY;
            t < Complete(h, tuning, needsData, cmdTimeout, t).checked
              <= t + 4 * SDHCI_MAX_CMD_RETRY + (if needsData then 2 * maxTrans else 0)
  {
    hide PollCommand, PollTransfer, Has;
  }

  /** Such a history: the loop leaves on an error, the register forgets it, and 0 is returned although no
      command completed. */
  lemma ForgottenErrorReportsSuccess()
    ensures var h := History((t: nat) => if t == 0 then 0x8000 else 0, (t: nat) => 0);
            var o := Complete(h, false, true, 0, 0);
            !Sticky(h) && o.ret == 0 && !Completed(o, true) && o.command == Cut(0)
  {
    var h := History((t: nat) => if t == 0 then 0x8000 else 0, (t: nat) => 0);
    assert Has(h.nrml(0), ERR_INT_STAT) && !Has(h.err(0), ANY_ERROR);
    assert CommandTurn(h, false, 0) == (Some(Cut(0)), 2);
    assert PollCommand(h, false, 0, SDHCI_MAX_CMD_RETRY) == (Cut(0), 2);
  }

  // ----- the loops themselves

  method CmdComplete(h: History, tuning: bool, needsData: bool, cmdTimeout: nat, start: nat) returns (o: Outcome)
    ensures o == Complete(h, tuning, needsData, cmdTimeout, start)
  {
    hide Has, CommandTurn, PollTransfer, Finish;
    var maxTrans := if cmdTimeout > 0 then cmdTimeout else SDHCI_MAX_TRANS_RETRY;
    var t, retry := start, 0;
    var command := Cut(1);
    while true
      invariant retry < SDHCI_MAX_CMD_RETRY
      invariant PollCommand(h, tuning, start, SDHCI_MAX_CMD_RETRY)
             == PollCommand(h, tuning, t, SDHCI_MAX_CMD_RETRY - retry)
      decreases SDHCI_MAX_CMD_RETRY - retry
    {
      var exit;
      exit, t := LookForCommand(h, tuning, t);
      if exit.Some? {
        command := exit.value;
        break;
      }
      retry := retry + 1;
      if retry == SDHCI_MAX_CMD_RETRY {
        break;
      }
    }
    if command.TuningFailed? {
      o := Outcome(1, true, command, Cut(1), t);
    } else if command.Cut? {
      o := FinalCheck(h, command.ret, command, Cut(1), t);
    } else if needsData {
      o := AwaitTransfer(h, tuning, command, t, maxTrans);
    } else {
      o := FinalCheck(h, 0, command, Cut(1), t);
    }
  }

  /** One turn of the first polling loop: look for the command, then for errors that end the wait. */
  method LookForCommand(h: History, tuning: bool, start: nat) returns (exit: Option<Exit>, t: nat)
    ensures (exit, t) == CommandTurn(h, tuning, start)
  {
    hide Has;
    t := start;
    exit := None;
    var status := h.nrml(t);
    t := t + 1;
    if Has(status, CMD_COMPLETE) {
      var e := h.err(t);
      t := t + 1;
      if !Has(e, CMD_TIMEOUT) {
        exit := Some(Seen(start));
        return;
      }
    }
    if Has(status, ERR_INT_STAT) && !tuning {
      var e := h.err(t);
      t := t + 1;
      if !Has(e, DAT_TIMEOUT) {
        exit := Some(Cut(0));
        return;
      }
    }
    if tuning {
      var e := h.err(t);
      t := t + 1;
      if Has(e, CMD_CRC | CMD_END_BIT | CMD_TIMEOUT | CMD_IDX) {
        exit := Some(TuningFailed);
      }
    }
  }

  /** The second loop and what follows it. */
  method AwaitTransfer(h: History, tuning: bool, command: Exit, start: nat, maxTrans: nat) returns (o: Outcome)
    requires maxTrans > 0
    ensures var (transfer, t) := PollTransfer(h, tuning, start, maxTrans);
            o == match transfer
                 case TuningFailed => Outcome(1, true, command, transfer, t)
                 case Cut(ret) => Finish(h, ret, command, transfer, t)
                 case Seen(_) => Finish(h, 0, command, transfer, t)
  {
    hide Has, TransferTurn, Finish;
    var t, retry := start, 0;
    var transfer := Cut(1);
    while true
      invariant retry < maxTrans
      invariant PollTransfer(h, tuning, start, maxTrans) == PollTransfer(h, tuning, t, maxTrans - retry)
      decreases maxTrans - retry
    {
      var exit;
      exit, t := LookForTransfer(h, tuning, t);
      if exit.Some? {
        transfer := exit.value;
        break;
      }
      retry := retry + 1;
      if retry == maxTrans {
        break;
      }
    }
    if transfer.TuningFailed? {
      o := Outcome(1, true, command, transfer, t);
    } else {
      o := FinalCheck(h, if transfer.Cut? then transfer.ret else 0, command, transfer, t);
    }
  }

  /** One turn of the second polling loop: look for the transfer, then for errors that end the wait. */
  method LookForTransfer(h: History, tuning: bool, start: nat) returns (exit: Option<Exit>, t: nat)
    ensures (exit, t) == TransferTurn(h, tuning, start)
  {
    hide Has;
    t := start;
    exit := None;
    var status := h.nrml(t);
    t := t + 1;
    if Has(status, TRANS_COMPLETE) {
      exit := Some(Seen(start));
      return;
    }
    if Has(status, ERR_INT_STAT) && !tuning {
      var e := h.err(t);
      t := t + 1;
      if !Has(e, DAT_TIMEOUT) {
        exit := Some(Cut(0));
        return;
      }
    }
    if tuning {
      var e := h.err(t);
      t := t + 1;
      if Has(e, DAT_TIMEOUT | DAT_CRC) {
        exit := Some(TuningFailed);
      }
    }
  }

  /** sdhci_cmd_err_status: the first of the ten error bits that is set. */
  method CmdErrStatus(err: bv16) returns (r: nat)
    ensures r == if Has(err, ANY_ERROR) then 1 else 0
  {
    if err & 1 != 0 { return 1; } else if err & 2 != 0 { return 1; } else if err & 4 != 0 { return 1; }
    else if err & 8 != 0 { return 1; } else if err & 16 != 0 { return 1; } else if err & 32 != 0 { return 1; }
    else if err & 64 != 0 { return 1; } else if err & 128 != 0 { return 1; } else if err & 256 != 0 { return 1; }
    else if err & 512 != 0 { return 1; }
    r := 0;
  }

  /** From the label `err` to the end. */
  method FinalCheck(h: History, before: nat, command: Exit, transfer: Exit, t: nat) returns (o: Outcome)
    ensures o == Finish(h, before, command, transfer, t)
  {
    var ret := before;
    var needReset := false;
    if Has(h.nrml(t), ERR_INT_STAT) {
      if Has(h.err(t + 1), DAT_TIMEOUT) && transfer.Seen? {
        ret := 0;
      } else {
        var bad := CmdErrStatus(h.err(t + 2));
        if bad != 0 { ret := 1; }
      }
      needReset := true;
    }
    o := Outcome(ret, needReset, command, transfer, t);
  }
}
