/** What one data command and the stop command after it return (sdhci_send_command in sdhci.c, mmc_stop_command,
    mmc_sdhci_read and mmc_sdhci_write in mmc_sdhci.c), for every history of the controller's registers. */
module Answers {
  import opened CmdComplete

  /** mmc_parse_response: zero unless the R1 response shows an error or another state than TRAN. */
  function ParseResponse(r: bv32): nat {
    if r & 0x8000_0000 != 0 || r & 0x4000_0000 != 0 || r & 0x2000_0000 != 0 || r & 0x0400_0000 != 0
       || r & 0x0010_0000 != 0 || r & 0x0008_0000 != 0 || (r >> 9) & 0xF != 4
    then 1 else 0
  }

  predicate GoodBits(r: bv32) { r & 0xE418_1E00 == 0x0000_0800 }

  /** The response is good exactly when the card is in the transfer state (4, in bits 9 to 12) and none of the
      error bits 31, 30, 29, 26, 20 and 19 is set. */
  lemma GoodResponseIff(r: bv32)
    ensures ParseResponse(r) == 0 <==> GoodBits(r)
  {
  }

  /** What the hardware does during one command: whether the lines become free, what the status registers
      show, and what the response register holds once the command was seen complete. */
  datatype Exchange = Exchange(linesFree: bool, h: History, resp: bv32)

  /** How sdhci_cmd_complete ends; commands with data wait for the transfer. */
  function Ended(x: Exchange, data: bool): Outcome { Complete(x.h, false, data, 0, 0) }

  /** sdhci_send_command returns 1. */
  predicate Failed(x: Exchange, data: bool) { !x.linesFree || Ended(x, data).ret != 0 }

  predicate CommandSeen(x: Exchange, data: bool) { x.linesFree && Ended(x, data).command.Seen? }

  /** The transfer was seen complete: the controller has moved the data. */
  predicate Moved(x: Exchange) { x.linesFree && Completed(Ended(x, true), true) }

  /** The response that is left in the cleared command structure. */
  function Response(x: Exchange, data: bool): bv32 { if CommandSeen(x, data) then x.resp else 0 }

  /** A data command, and the stop command that follows a failed one of several blocks. */
  datatype Answer = Answer(data: Exchange, stop: Exchange)

  /** What mmc_sdhci_read and mmc_sdhci_write return. */
  function TransferResult(a: Answer, n: nat): nat {
    if Failed(a.data, true) && n > 1 then
      if Failed(a.stop, false) then 1 else ParseResponse(Response(a.stop, false))
    else ParseResponse(Response(a.data, true))
  }

  /** The transfer failed and the stop command behind it went well. */
  predicate HiddenByStop(a: Answer, n: nat) {
    && n > 1 && Failed(a.data, true)
    && !Failed(a.stop, false) && CommandSeen(a.stop, false) && GoodBits(a.stop.resp)
  }

  /** The command was answered well and then its transfer did not complete: of a single block that is
      never reported, of several when the status register forgets the error. */
  predicate HiddenByResponse(a: Answer, n: nat) {
    && CommandSeen(a.data, true) && GoodBits(a.data.resp)
    && (n <= 1 || (Ended(a.data, true).transfer == Cut(0) && NothingFound(a.data.h, Ended(a.data, true))))
  }

  predicate FailsUnseen(a: Answer, n: nat) {
    !Moved(a.data) && (HiddenByStop(a, n) || HiddenByResponse(a, n))
  }

  /** When exactly the data is not moved and 0 is returned. */
  lemma ZeroAfterFailureIff(a: Answer, n: nat)
    ensures !Moved(a.data) && TransferResult(a, n) == 0 <==> FailsUnseen(a, n)
  {
    hide Complete, ParseResponse, GoodBits, NothingFound;
    GoodResponseIff(a.data.resp);
    GoodResponseIff(a.stop.resp);
    NoResponse();
    FalseSuccessIff(a.data.h, true, 0, 0);
  }

  lemma NoResponse()
    ensures ParseResponse(0) != 0
  {
  }

  /** With sticky error registers only a reported failure stays unseen. */
  lemma StickyFailsUnseen(a: Answer, n: nat)
    requires Sticky(a.data.h) && FailsUnseen(a, n)
    ensures Failed(a.data, true)
  {
    hide Complete, GoodBits, Sticky;
    ZeroMeansComplete(a.data.h, true, 0, 0);
  }

  /** A status register that shows a CRC error from the first read on, and a stop command that is answered at
      once: 0 is returned for several blocks. */
  lemma StopHidesFailure(n: nat)
    requires n > 1
    ensures var bad := Exchange(true, History((t: nat) => 0x8000, (t: nat) => 0x0002), 0);
            var stop := Exchange(true, History((t: nat) => 0x0001, (t: nat) => 0), 0x900);
            Sticky(bad.h) && Failed(bad, true) && !Moved(bad) && TransferResult(Answer(bad, stop), n) == 0
  {
    var bad := Exchange(true, History((t: nat) => 0x8000, (t: nat) => 0x0002), 0);
    var stop := Exchange(true, History((t: nat) => 0x0001, (t: nat) => 0), 0x900);
    hide Complete, PollCommand, PollTransfer, ParseResponse;
    CrcError(bad.h);
    Answered(stop.h);
    GoodResponseIff(0x900);
  }

  lemma CrcError(h: History)
    requires forall t: nat :: h.nrml(t) == 0x8000 && h.err(t) == 0x0002
    ensures Sticky(h)
    ensures Complete(h, false, true, 0, 0).command == Cut(0) && Complete(h, false, true, 0, 0).ret == 1
  {
    assert Has(h.nrml(0), ERR_INT_STAT) && !Has(h.err(1), DAT_TIMEOUT) && !Has(h.nrml(0), CMD_COMPLETE);
    assert CommandTurn(h, false, 0) == (Some(Cut(0)), 2);
    assert PollCommand(h, false, 0, SDHCI_MAX_CMD_RETRY) == (Cut(0), 2);
    assert Has(h.nrml(2), ERR_INT_STAT) && !Has(h.err(3), DAT_TIMEOUT) && Has(h.err(4), ANY_ERROR);
  }

  lemma Answered(h: History)
    requires forall t: nat :: h.nrml(t) == 0x0001 && h.err(t) == 0
    ensures Complete(h, false, false, 0, 0).command.Seen? && Complete(h, false, false, 0, 0).ret == 0
  {
    assert Has(h.nrml(0), CMD_COMPLETE) && !Has(h.err(1), CMD_TIMEOUT);
    assert CommandTurn(h, false, 0) == (Some(Seen(0)), 2);
    assert PollCommand(h, false, 0, SDHCI_MAX_CMD_RETRY) == (Seen(0), 2);
    assert !Has(h.nrml(2), ERR_INT_STAT);
  }

  /** The command is seen complete at the first read; the transfer then fails with a CRC error. */
  function LateErrorHistory(): History {
    History((t: nat) => if t == 0 then 0x0001 else 0x8000, (t: nat) => if t <= 1 then 0 else 0x0020)
  }

  /** A command that is answered at once and a transfer with a CRC error: 0 is returned for a single block. */
  lemma ResponseHidesFailure(stop: Exchange)
    ensures var x := Exchange(true, LateErrorHistory(), 0x900);
            Failed(x, true) && !Moved(x) && TransferResult(Answer(x, stop), 1) == 0
  {
    hide Complete, PollCommand, PollTransfer, ParseResponse;
    LateError(LateErrorHistory());
    GoodResponseIff(0x900);
  }

  lemma LateError(h: History)
    requires h.nrml(0) == 0x0001 && h.err(1) == 0
    requires forall t: nat :: t > 0 ==> h.nrml(t) == 0x8000
    requires forall t: nat :: t > 1 ==> h.err(t) == 0x0020
    ensures var o := Complete(h, false, true, 0, 0); o.command.Seen? && o.transfer == Cut(0) && o.ret == 1
  {
    assert Has(h.nrml(0), CMD_COMPLETE) && !Has(h.err(1), CMD_TIMEOUT);
    assert CommandTurn(h, false, 0) == (Some(Seen(0)), 2);
    assert PollCommand(h, false, 0, SDHCI_MAX_CMD_RETRY) == (Seen(0), 2);
    assert !Has(h.nrml(2), TRANS_COMPLETE) && Has(h.nrml(2), ERR_INT_STAT) && !Has(h.err(3), DAT_TIMEOUT);
    assert TransferTurn(h, false, 2) == (Some(Cut(0)), 4);
    assert PollTransfer(h, false, 2, SDHCI_MAX_TRANS_RETRY) == (Cut(0), 4);
    assert Has(h.nrml(4), ERR_INT_STAT) && !Has(h.err(5), DAT_TIMEOUT) && Has(h.err(6), ANY_ERROR);
  }
}
