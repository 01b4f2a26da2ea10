/** How long sdhci_cmd_complete waits: read by read, which look at the status registers decides each of its two
    loops.  The masks are those of the SD Host Controller Simplified Specification 3.00, sections 2.2.17 and 2.2.18. */
module Patience {
  import opened CmdComplete

  // ----- one look for the command

  /** Command complete, and no command timeout in the read that follows. */
  ghost predicate CommandCame(h: History, s: nat) {
    h.nrml(s) & 0x0001 != 0 && h.err(s + 1) & 0x0001 == 0
  }

  /** When the error register is read after that. */
  function CommandErrorRead(h: History, s: nat): nat { if h.nrml(s) & 0x0001 != 0 then s + 2 else s + 1 }

  /** Outside tuning: the error summary without a data timeout. */
  ghost predicate CommandFailed(h: History, s: nat) {
    h.nrml(s) & 0x8000 != 0 && h.err(CommandErrorRead(h, s)) & 0x0010 == 0
  }

  /** In tuning: a command timeout, CRC, end bit or index error. */
  ghost predicate CommandUntuned(h: History, s: nat) {
    h.err(CommandErrorRead(h, s)) & 0x000F != 0
  }

  ghost predicate CommandDecided(h: History, tuning: bool, s: nat) {
    CommandCame(h, s) || if tuning then CommandUntuned(h, s) else CommandFailed(h, s)
  }

  /** When look i reads the status: outside tuning the error register is read again only when the summary
      bit was set. */
  function CommandLook(h: History, tuning: bool, t: nat, i: nat): nat {
    if i == 0 then t
    else
      var s := CommandLook(h, tuning, t, i - 1);
      CommandErrorRead(h, s) + if tuning || h.nrml(s) & 0x8000 != 0 then 1 else 0
  }

  ghost predicate NoCommandBefore(h: History, tuning: bool, t: nat, i: nat) {
    forall j: nat :: j < i ==> !CommandDecided(h, tuning, CommandLook(h, tuning, t, j))
  }

  /** How look s ends the loop, and the time behind it. */
  ghost function CommandEnd(h: History, tuning: bool, s: nat): (Exit, nat)
    requires CommandDecided(h, tuning, s)
  {
    if CommandCame(h, s) then (Seen(s), s + 2)
    else (if tuning then TuningFailed else Cut(0), CommandErrorRead(h, s) + 1)
  }

  lemma OneCommandTurn(h: History, tuning: bool, t: nat)
    ensures CommandDecided(h, tuning, t) ==>
              CommandTurn(h, tuning, t) == (Some(CommandEnd(h, tuning, t).0), CommandEnd(h, tuning, t).1)
    ensures !CommandDecided(h, tuning, t) ==> CommandTurn(h, tuning, t) == (None, CommandLook(h, tuning, t, 1))
  {
    assert CommandLook(h, tuning, t, 0) == t;
    TuningMask(h.err(CommandErrorRead(h, t)));
  }

  lemma TuningMask(e: bv16)
    ensures Has(e, CMD_CRC | CMD_END_BIT | CMD_TIMEOUT | CMD_IDX) <==> e & 0x000F != 0
    ensures Has(e, DAT_TIMEOUT | DAT_CRC) <==> e & 0x0030 != 0
  {
  }

  lemma {:induction false} CommandLookLater(h: History, tuning: bool, t: nat, i: nat)
    ensures CommandLook(h, tuning, t, i + 1) == CommandLook(h, tuning, CommandLook(h, tuning, t, 1), i)
  {
    if i > 0 { CommandLookLater(h, tuning, t, i - 1); }
  }

  lemma LaterCommandLooks(h: History, tuning: bool, t: nat, i: nat)
    requires i > 0 && NoCommandBefore(h, tuning, t, i)
    ensures !CommandDecided(h, tuning, t) && NoCommandBefore(h, tuning, CommandLook(h, tuning, t, 1), i - 1)
  {
    hide CommandDecided;
    assert CommandLook(h, tuning, t, 0) == t;
    forall j: nat | j < i - 1
      ensures !CommandDecided(h, tuning, CommandLook(h, tuning, CommandLook(h, tuning, t, 1), j))
    {
      CommandLookLater(h, tuning, t, j);
    }
  }

  /** The first look that decides ends the loop, if it comes within the budget. */
  lemma {:induction false} FirstCommandLookDecides(h: History, tuning: bool, t: nat, left: nat, i: nat)
    requires i < left && NoCommandBefore(h, tuning, t, i) && CommandDecided(h, tuning, CommandLook(h, tuning, t, i))
    ensures PollCommand(h, tuning, t, left) == CommandEnd(h, tuning, CommandLook(h, tuning, t, i))
    decreases i
  {
    hide CommandDecided, CommandTurn, CommandLook;
    OneCommandTurn(h, tuning, t);
    FirstCommandLook(h, tuning, t);
    if i > 0 {
      LaterCommandLooks(h, tuning, t, i);
      CommandLookLater(h, tuning, t, i - 1);
      FirstCommandLookDecides(h, tuning, CommandLook(h, tuning, t, 1), left - 1, i - 1);
    }
  }

  lemma FirstCommandLook(h: History, tuning: bool, t: nat)
    ensures CommandLook(h, tuning, t, 0) == t
  {
  }

  /** The loop gives up only after every look of the budget. */
  lemma {:induction false} CommandNeverCame(h: History, tuning: bool, t: nat, left: nat)
    requires left > 0 && NoCommandBefore(h, tuning, t, left)
    ensures PollCommand(h, tuning, t, left) == (Cut(1), CommandLook(h, tuning, t, left))
    decreases left
  {
    hide CommandDecided, CommandTurn, CommandLook, NoCommandBefore;
    OneCommandTurn(h, tuning, t);
    LaterCommandLooks(h, tuning, t, left);
    if left > 1 {
      CommandLookLater(h, tuning, t, left - 1);
      CommandNeverCame(h, tuning, CommandLook(h, tuning, t, 1), left - 1);
    }
  }

  // ----- one look for the transfer

  ghost predicate TransferCame(h: History, s: nat) { h.nrml(s) & 0x0002 != 0 }

  ghost predicate TransferFailed(h: History, s: nat) {
    h.nrml(s) & 0x8000 != 0 && h.err(s + 1) & 0x0010 == 0
  }

  /** In tuning: a data timeout or a data CRC error. */
  ghost predicate TransferUntuned(h: History, s: nat) { h.err(s + 1) & 0x0030 != 0 }

  ghost predicate TransferDecided(h: History, tuning: bool, s: nat) {
    TransferCame(h, s) || if tuning then TransferUntuned(h, s) else TransferFailed(h, s)
  }

  function TransferLook(h: History, tuning: bool, t: nat, i: nat): nat {
    if i == 0 then t
    else
      var s := TransferLook(h, tuning, t, i - 1);
      s + if tuning || h.nrml(s) & 0x8000 != 0 then 2 else 1
  }

  ghost predicate NoTransferBefore(h: History, tuning: bool, t: nat, i: nat) {
    forall j: nat :: j < i ==> !TransferDecided(h, tuning, TransferLook(h, tuning, t, j))
  }

  ghost function TransferEnd(h: History, tuning: bool, s: nat): (Exit, nat)
    requires TransferDecided(h, tuning, s)
  {
    if TransferCame(h, s) then (Seen(s), s + 1) else (if tuning then TuningFailed else Cut(0), s + 2)
  }

  lemma OneTransferTurn(h: History, tuning: bool, t: nat)
    ensures TransferDecided(h, tuning, t) ==>
              TransferTurn(h, tuning, t) == (Some(TransferEnd(h, tuning, t).0), TransferEnd(h, tuning, t).1)
    ensures !TransferDecided(h, tuning, t) ==> TransferTurn(h, tuning, t) == (None, TransferLook(h, tuning, t, 1))
  {
    assert TransferLook(h, tuning, t, 0) == t;
    TuningMask(h.err(t + 1));
  }

  lemma {:induction false} TransferLookLater(h: History, tuning: bool, t: nat, i: nat)
    ensures TransferLook(h, tuning, t, i + 1) == TransferLook(h, tuning, TransferLook(h, tuning, t, 1), i)
  {
    if i > 0 { TransferLookLater(h, tuning, t, i - 1); }
  }

  lemma LaterTransferLooks(h: History, tuning: bool, t: nat, i: nat)
    requires i > 0 && NoTransferBefore(h, tuning, t, i)
    ensures !TransferDecided(h, tuning, t) && NoTransferBefore(h, tuning, TransferLook(h, tuning, t, 1), i - 1)
  {
    hide TransferDecided;
    assert TransferLook(h, tuning, t, 0) == t;
    forall j: nat | j < i - 1
      ensures !TransferDecided(h, tuning, TransferLook(h, tuning, TransferLook(h, tuning, t, 1), j))
    {
      TransferLookLater(h, tuning, t, j);
    }
  }

  lemma {:induction false} FirstTransferLookDecides(h: History, tuning: bool, t: nat, left: nat, i: nat)
    requires i < left && NoTransferBefore(h, tuning, t, i) && TransferDecided(h, tuning, TransferLook(h, tuning, t, i))
    ensures PollTransfer(h, tuning, t, left) == TransferEnd(h, tuning, TransferLook(h, tuning, t, i))
    decreases i
  {
    hide TransferDecided, TransferTurn, TransferLook;
    OneTransferTurn(h, tuning, t);
    FirstTransferLook(h, tuning, t);
    if i > 0 {
      LaterTransferLooks(h, tuning, t, i);
      TransferLookLater(h, tuning, t, i - 1);
      FirstTransferLookDecides(h, tuning, TransferLook(h, tuning, t, 1), left - 1, i - 1);
    }
  }

  lemma FirstTransferLook(h: History, tuning: bool, t: nat)
    ensures TransferLook(h, tuning, t, 0) == t
  {
  }

  lemma {:induction false} TransferNeverCame(h: History, tuning: bool, t: nat, left: nat)
    requires left > 0 && NoTransferBefore(h, tuning, t, left)
    ensures PollTransfer(h, tuning, t, left) == (Cut(1), TransferLook(h, tuning, t, left))
    decreases left
  {
    hide TransferDecided, TransferTurn, TransferLook, NoTransferBefore;
    OneTransferTurn(h, tuning, t);
    LaterTransferLooks(h, tuning, t, left);
    if left > 1 {
      TransferLookLater(h, tuning, t, left - 1);
      TransferNeverCame(h, tuning, TransferLook(h, tuning, t, 1), left - 1);
    }
  }

  // ----- the whole call

  /** The looks for the transfer, and what the budget is: the caller's, or ten million. */
  ghost predicate TransferEnds(h: History, tuning: bool, t: nat, cmdTimeout: nat, exit: Exit, end: nat) {
    var budget := if cmdTimeout > 0 then cmdTimeout else 10_000_000;
    || (exists j: nat :: j < budget && NoTransferBefore(h, tuning, t, j)
                         && TransferDecided(h, tuning, TransferLook(h, tuning, t, j))
                         && (exit, end) == TransferEnd(h, tuning, TransferLook(h, tuning, t, j)))
    || (NoTransferBefore(h, tuning, t, budget) && (exit, end) == (Cut(1), TransferLook(h, tuning, t, budget)))
  }

  /** Five million looks for the command. */
  ghost predicate CommandEnds(h: History, tuning: bool, t: nat, exit: Exit, end: nat) {
    || (exists i: nat :: i < 5_000_000 && NoCommandBefore(h, tuning, t, i)
                         && CommandDecided(h, tuning, CommandLook(h, tuning, t, i))
                         && (exit, end) == CommandEnd(h, tuning, CommandLook(h, tuning, t, i)))
    || (NoCommandBefore(h, tuning, t, 5_000_000) && (exit, end) == (Cut(1), CommandLook(h, tuning, t, 5_000_000)))
  }

  /** Nothing but the looks decides the call: the command loop ends as they say, the transfer loop follows
      exactly when the command came and has data, and the final status is read right behind. */
  lemma WaitsForBoth(h: History, tuning: bool, needsData: bool, cmdTimeout: nat, t: nat, command: Exit, end: nat)
    requires CommandEnds(h, tuning, t, command, end)
    ensures var o := Complete(h, tuning, needsData, cmdTimeout, t);
            && o.command == command
            && (if command.Seen? && needsData then TransferEnds(h, tuning, end, cmdTimeout, o.transfer, o.checked)
                else !o.transfer.Seen? && o.checked == end)
  {
    hide CommandDecided, CommandLook, NoCommandBefore, TransferEnds, PollCommand, PollTransfer, Has;
    if i: nat :| i < 5_000_000 && NoCommandBefore(h, tuning, t, i)
                 && CommandDecided(h, tuning, CommandLook(h, tuning, t, i))
                 && (command, end) == CommandEnd(h, tuning, CommandLook(h, tuning, t, i)) {
      FirstCommandLookDecides(h, tuning, t, SDHCI_MAX_CMD_RETRY, i);
    } else {
      CommandNeverCame(h, tuning, t, SDHCI_MAX_CMD_RETRY);
    }
    if command.Seen? && needsData {
      var budget := if cmdTimeout > 0 then cmdTimeout else SDHCI_MAX_TRANS_RETRY;
      TransferWaits(h, tuning, end, cmdTimeout, budget);
    }
  }

  lemma TransferWaits(h: History, tuning: bool, t: nat, cmdTimeout: nat, budget: nat)
    requires budget == if cmdTimeout > 0 then cmdTimeout else 10_000_000
    ensures var (exit, end) := PollTransfer(h, tuning, t, budget); TransferEnds(h, tuning, t, cmdTimeout, exit, end)
  {
    hide TransferDecided, TransferLook, PollTransfer;
    if NoTransferBefore(h, tuning, t, budget) {
      TransferNeverCame(h, tuning, t, budget);
    } else {
      var j := FirstTransferDecision(h, tuning, t, budget);
      FirstTransferLookDecides(h, tuning, t, budget, j);
    }
  }

  lemma {:induction false} FirstTransferDecision(h: History, tuning: bool, t: nat, n: nat) returns (j: nat)
    requires !NoTransferBefore(h, tuning, t, n)
    ensures j < n && NoTransferBefore(h, tuning, t, j) && TransferDecided(h, tuning, TransferLook(h, tuning, t, j))
    decreases n
  {
    hide TransferDecided, TransferLook;
    if NoTransferBefore(h, tuning, t, n - 1) {
      j := n - 1;
    } else {
      j := FirstTransferDecision(h, tuning, t, n - 1);
    }
  }

  lemma {:induction false} FirstCommandDecision(h: History, tuning: bool, t: nat, n: nat) returns (i: nat)
    requires !NoCommandBefore(h, tuning, t, n)
    ensures i < n && NoCommandBefore(h, tuning, t, i) && CommandDecided(h, tuning, CommandLook(h, tuning, t, i))
    decreases n
  {
    hide CommandDecided, CommandLook;
    if NoCommandBefore(h, tuning, t, n - 1) {
      i := n - 1;
    } else {
      i := FirstCommandDecision(h, tuning, t, n - 1);
    }
  }

  /** One of the ways a command loop can end is always there. */
  lemma CommandAlwaysEnds(h: History, tuning: bool, t: nat) returns (exit: Exit, end: nat)
    ensures CommandEnds(h, tuning, t, exit, end)
  {
    hide CommandDecided, CommandLook;
    if NoCommandBefore(h, tuning, t, 5_000_000) {
      exit, end := Cut(1), CommandLook(h, tuning, t, 5_000_000);
    } else {
      var i := FirstCommandDecision(h, tuning, t, 5_000_000);
      var e := CommandEnd(h, tuning, CommandLook(h, tuning, t, i));
      exit, end := e.0, e.1;
    }
  }

  /** A card that answers in time is never given up: without any error, a command that comes within five million
      looks and a transfer that comes within its budget make the call return 0. */
  lemma InTimeSucceeds(h: History, needsData: bool, cmdTimeout: nat, t: nat, i: nat, j: nat)
    requires forall s: nat :: h.err(s) == 0 && h.nrml(s) & 0x8000 == 0
    requires i < 5_000_000 && NoCommandBefore(h, false, t, i) && CommandCame(h, CommandLook(h, false, t, i))
    requires var start := CommandLook(h, false, t, i) + 2;
             needsData ==> j < (if cmdTimeout > 0 then cmdTimeout else 10_000_000)
                           && NoTransferBefore(h, false, start, j)
                           && TransferCame(h, TransferLook(h, false, start, j))
    ensures var o := Complete(h, false, needsData, cmdTimeout, t);
            && o.ret == 0 && !o.reset && o.command == Seen(CommandLook(h, false, t, i))
            && (needsData ==> o.transfer == Seen(TransferLook(h, false, CommandLook(h, false, t, i) + 2, j)))
  {
    hide CommandLook, TransferLook, NoCommandBefore, NoTransferBefore, PollCommand, PollTransfer;
    var s := CommandLook(h, false, t, i);
    FirstCommandLookDecides(h, false, t, SDHCI_MAX_CMD_RETRY, i);
    if needsData {
      FirstTransferLookDecides(h, false, s + 2, if cmdTimeout > 0 then cmdTimeout else SDHCI_MAX_TRANS_RETRY, j);
    }
    var o := Complete(h, false, needsData, cmdTimeout, t);
    assert !Has(h.nrml(o.checked), ERR_INT_STAT);
  }

  /** A loop that used up its budget. */
  ghost predicate GaveUp(o: Outcome, needsData: bool) {
    o.command == Cut(1) || (o.command.Seen? && needsData && o.transfer == Cut(1))
  }

  /** The return value, in tuning and outside: 1 after a failed tuning look; 0 when the last status shows an error
      but a data timeout after a completed transfer; 1 when it shows any other of the ten errors; and otherwise
      1 exactly when a loop gave up. */
  lemma ReturnValue(h: History, tuning: bool, needsData: bool, cmdTimeout: nat, t: nat)
    ensures var o := Complete(h, tuning, needsData, cmdTimeout, t); var s := o.checked;
            && o.ret <= 1
            && (o.ret == 1 <==>
                  || o.command.TuningFailed? || o.transfer.TuningFailed?
                  || (if h.nrml(s) & 0x8000 != 0 && h.err(s + 1) & 0x0010 != 0 && o.transfer.Seen? then false
                      else if h.nrml(s) & 0x8000 != 0 && h.err(s + 2) & 0x03FF != 0 then true
                      else GaveUp(o, needsData)))
  {
    hide PollCommand, PollTransfer, Has;
    FinalBits(h, Complete(h, tuning, needsData, cmdTimeout, t).checked);
  }

  lemma FinalBits(h: History, s: nat)
    ensures Has(h.nrml(s), ERR_INT_STAT) <==> h.nrml(s) & 0x8000 != 0
    ensures Has(h.err(s + 1), DAT_TIMEOUT) <==> h.err(s + 1) & 0x0010 != 0
    ensures Has(h.err(s + 2), ANY_ERROR) <==> h.err(s + 2) & 0x03FF != 0
  {
  }
}
