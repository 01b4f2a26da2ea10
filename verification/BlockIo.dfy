/** The eMMC block path of MMCHS.c, mmc_sdhci.c and sdhci.c: a block request is cut into commands of at
    most 65535 blocks, each with its own ADMA2 table, and together they are one plain copy. */
module BlockIo {
  import opened Adma
  import opened Bytes
  import opened Answers
  import Polling = CmdComplete

  /** SDHCI_MMC_BLK_SZ, and the card's and the medium's block size. */
  const BLK: nat := 512
  /** SDHCI_ADMA_MAX_TRANS_SZ, and the same in blocks.  Where these are multiplied or divided by, the
      loops below write 512, 65535 and 33553920 out. */
  const MAX_TRANS_SZ: nat := 33553920
  const MAX_BLOCKS: nat := 65535

  /** A data command as it reaches the controller. */
  datatype Cmd = Cmd(index: nat, argument: nat, blocks: nat, table: seq<Desc>)

  /** CMD17/18 for reads, CMD24/25 for writes. */
  function CmdIndex(write: bool, n: nat): nat {
    if write then (if n == 1 then 24 else 25) else (if n == 1 then 17 else 18)
  }

  /** The data of every command was moved. */
  predicate Clean(answers: seq<Answer>) {
    forall i :: 0 <= i < |answers| ==> Moved(answers[i].data)
  }

  /** Every data command was reported as a success. */
  predicate AllZero(log: seq<Cmd>, answers: seq<Answer>) {
    |answers| == |log| && forall i :: 0 <= i < |log| ==> TransferResult(answers[i], log[i].blocks) == 0
  }

  /** The last data command was reported as a failure, those before it were not. */
  predicate StoppedAtLast(log: seq<Cmd>, answers: seq<Answer>) {
    && |answers| == |log| > 0
    && AllZero(log[..|log| - 1], answers[..|log| - 1]) && TransferResult(answers[|log| - 1], log[|log| - 1].blocks) != 0
  }

  /** A clean run or an unseen failure: with every command reported as a success, that is the alternative. */
  lemma UncleanIff(log: seq<Cmd>, answers: seq<Answer>)
    requires AllZero(log, answers)
    ensures !Clean(answers) <==> exists i :: 0 <= i < |log| && FailsUnseen(answers[i], log[i].blocks)
  {
    hide TransferResult, FailsUnseen, Moved;
    forall i | 0 <= i < |log| ensures !Moved(answers[i].data) <==> FailsUnseen(answers[i], log[i].blocks) {
      ZeroAfterFailureIff(answers[i], log[i].blocks);
    }
  }

  lemma OneMoreAnswer(log: seq<Cmd>, answers: seq<Answer>, c: Cmd, a: Answer)
    requires AllZero(log, answers)
    ensures TransferResult(a, c.blocks) == 0 ==> AllZero(log + [c], answers + [a])
    ensures TransferResult(a, c.blocks) != 0 ==> StoppedAtLast(log + [c], answers + [a])
    ensures Clean(answers + [a]) <==> Clean(answers) && Moved(a.data)
  {
    hide TransferResult, Moved;
    assert (log + [c])[..|log|] == log && (answers + [a])[..|answers|] == answers;
    assert (answers + [a])[|answers|] == a;
  }

  lemma AppendTwice<T>(a: seq<T>, b: seq<T>, x: T)
    ensures a + b + [x] == a + (b + [x])
  {
  }

  /** What the card transfers for a command: one block for CMD17 and CMD24, as many as the controller counts for
      CMD18 and CMD25. */
  function CardBlocks(c: Cmd): nat { if c.index == 17 || c.index == 24 then 1 else c.blocks }

  // ----- the plain copy

  datatype Store = Store(mem: seq<byte>, disk: seq<byte>)

  /** n bytes between memory at `buf` and the card at byte `pos`. */
  function Copied(write: bool, s: Store, buf: nat, pos: nat, n: nat): (r: Store)
    requires buf + n <= |s.mem| && pos + n <= |s.disk|
    ensures |r.mem| == |s.mem| && |r.disk| == |s.disk|
  {
    if write then s.(disk := s.disk[..pos] + s.mem[buf..buf + n] + s.disk[pos + n..])
    else s.(mem := s.mem[..buf] + s.disk[pos..pos + n] + s.mem[buf + n..])
  }

  /** Byte by byte: the n bytes arrive in order, and nothing else changes. */
  lemma CopiedBytes(write: bool, s: Store, buf: nat, pos: nat, n: nat)
    requires buf + n <= |s.mem| && pos + n <= |s.disk|
    ensures var r := Copied(write, s, buf, pos, n);
            && (forall i :: 0 <= i < |s.disk| ==>
                  r.disk[i] == if write && pos <= i < pos + n then s.mem[buf + i - pos] else s.disk[i])
            && (forall i :: 0 <= i < |s.mem| ==>
                  r.mem[i] == if !write && buf <= i < buf + n then s.disk[pos + i - buf] else s.mem[i])
  {
  }

  /** Two copies of adjacent pieces are one. */
  lemma CopyJoin(write: bool, s: Store, buf: nat, pos: nat, n: nat, k: nat)
    requires buf + n + k <= |s.mem| && pos + n + k <= |s.disk|
    ensures Copied(write, Copied(write, s, buf, pos, n), buf + n, pos + n, k) == Copied(write, s, buf, pos, n + k)
  {
    if write {
      JoinedSplice(s.disk, pos, s.mem, buf, n, k);
    } else {
      JoinedSplice(s.mem, buf, s.disk, pos, n, k);
    }
  }

  lemma JoinedSplice(x: seq<byte>, at: nat, y: seq<byte>, from: nat, n: nat, k: nat)
    requires at + n + k <= |x| && from + n + k <= |y|
    ensures var z := x[..at] + y[from..from + n] + x[at + n..];
            z[..at + n] + y[from + n..from + n + k] + z[at + n + k..]
            == x[..at] + y[from..from + (n + k)] + x[at + (n + k)..]
  {
    SpliceJoin(x, at, y[from..from + n], y[from + n..from + n + k]);
    assert y[from..from + n] + y[from + n..from + n + k] == y[from..from + (n + k)];
  }

  lemma SpliceJoin(x: seq<byte>, at: nat, a: seq<byte>, b: seq<byte>)
    requires at + |a| + |b| <= |x|
    ensures var y := x[..at] + a + x[at + |a|..];
            y[..at + |a|] + b + y[at + |a| + |b|..] == x[..at] + (a + b) + x[at + |a| + |b|..]
  {
    var y := x[..at] + a + x[at + |a|..];
    assert y[..at + |a|] == x[..at] + a;
    assert y[at + |a| + |b|..] == x[at + |a| + |b|..];
  }

  lemma CopyNothing(write: bool, s: Store, buf: nat, pos: nat)
    requires buf <= |s.mem| && pos <= |s.disk|
    ensures Copied(write, s, buf, pos, 0) == s
  {
  }

  // ----- what the commands have to be

  /** One command for n blocks from block `blk`, with a table that covers its piece of the buffer. */
  ghost predicate Fits(c: Cmd, byteMode: bool, write: bool, blk: nat, n: nat, buf: nat) {
    && 0 < n <= MAX_BLOCKS
    && c.index == CmdIndex(write, n) && c.blocks == n
    && c.argument == (if byteMode then blk * BLK else blk) < TWO32
    && Tiles(c.table, buf, n * BLK)
  }

  /** The commands cover blocks [blk, blk + n) in order, each block once, from consecutive memory. */
  ghost predicate Covers(log: seq<Cmd>, byteMode: bool, write: bool, blk: nat, n: nat, buf: nat) {
    if n == 0 then log == []
    else
      && |log| > 0
      && var k := if n <= MAX_BLOCKS then n else MAX_BLOCKS;
         Fits(log[0], byteMode, write, blk, k, buf) && Covers(log[1..], byteMode, write, blk + k, n - k, buf + k * BLK)
  }

  /** What covers the rest of a request completes the commands to a cover of all of it. */
  ghost predicate LeavesRest(log: seq<Cmd>, byteMode: bool, write: bool, blk: nat, n: nat, buf: nat,
                             restBlk: nat, rest: nat, restBuf: nat)
  {
    forall more: seq<Cmd> ::
      Covers(more, byteMode, write, restBlk, rest, restBuf) ==> Covers(log + more, byteMode, write, blk, n, buf)
  }

  lemma NothingIssued(byteMode: bool, write: bool, blk: nat, n: nat, buf: nat)
    ensures LeavesRest([], byteMode, write, blk, n, buf, blk, n, buf)
  {
    forall more: seq<Cmd> | Covers(more, byteMode, write, blk, n, buf)
      ensures Covers([] + more, byteMode, write, blk, n, buf)
    {
      assert [] + more == more;
    }
  }

  /** One more command, for as many blocks as are left or as one command can carry. */
  lemma OneCommandMore(log: seq<Cmd>, c: Cmd, byteMode: bool, write: bool, blk: nat, n: nat, buf: nat,
                       restBlk: nat, rest: nat, restBuf: nat)
    requires LeavesRest(log, byteMode, write, blk, n, buf, restBlk, rest, restBuf) && rest > 0
    requires Fits(c, byteMode, write, restBlk, if rest <= MAX_BLOCKS then rest else MAX_BLOCKS, restBuf)
    ensures var k := if rest <= MAX_BLOCKS then rest else MAX_BLOCKS;
            LeavesRest(log + [c], byteMode, write, blk, n, buf, restBlk + k, rest - k, restBuf + k * BLK)
  {
    hide Fits;
    var k := if rest <= MAX_BLOCKS then rest else MAX_BLOCKS;
    forall more: seq<Cmd> | Covers(more, byteMode, write, restBlk + k, rest - k, restBuf + k * BLK)
      ensures Covers(log + [c] + more, byteMode, write, blk, n, buf)
    {
      assert ([c] + more)[1..] == more;
      assert log + [c] + more == log + ([c] + more);
      assert Covers([c] + more, byteMode, write, restBlk, rest, restBuf);
    }
  }

  lemma NothingLeft(log: seq<Cmd>, byteMode: bool, write: bool, blk: nat, n: nat, buf: nat, restBlk: nat, restBuf: nat)
    requires LeavesRest(log, byteMode, write, blk, n, buf, restBlk, 0, restBuf)
    ensures Covers(log, byteMode, write, blk, n, buf)
  {
    assert Covers([], byteMode, write, restBlk, 0, restBuf);
    assert log + [] == log;
  }

  /** Every covering command carries 1 to 65535 blocks, and together they carry n. */
  function BlocksOf(log: seq<Cmd>): nat {
    if log == [] then 0 else log[0].blocks + BlocksOf(log[1..])
  }

  lemma {:induction false} CoveringCommands(log: seq<Cmd>, byteMode: bool, write: bool, blk: nat, n: nat, buf: nat)
    requires Covers(log, byteMode, write, blk, n, buf)
    ensures BlocksOf(log) == n
    ensures forall i :: 0 <= i < |log| ==> 1 <= log[i].blocks <= 65535
    // a single block is moved by CMD17 or CMD24, several by CMD18 or CMD25
    ensures forall i :: 0 <= i < |log| ==>
              log[i].index == if log[i].blocks == 1 then (if write then 24 else 17) else if write then 25 else 18
    decreases |log|
  {
    if n > 0 {
      var k := if n <= MAX_BLOCKS then n else MAX_BLOCKS;
      CoveringCommands(log[1..], byteMode, write, blk + k, n - k, buf + k * BLK);
      assert forall i :: 1 <= i < |log| ==> log[i] == log[1..][i - 1];
    }
  }

  // ----- the driver on its device

  datatype Status = Success | MediaChanged | InvalidParameter | BadBufferSize | DeviceError

  /** What the block interface answers before it touches the card; `Success` for an empty request.
      `last` is LastBlock, and the sum wraps at 64 bits. */
  function Refusal(mediaOk: bool, lba: nat, size: nat, noBuffer: bool, last: nat): (r: Status)
  {
    if !mediaOk then MediaChanged
    else if lba > last then InvalidParameter
    else if (lba + size / BLK + TWO64 - 1) % TWO64 > last then InvalidParameter
    else if size % BLK != 0 then BadBufferSize
    else if noBuffer then InvalidParameter
    else Success
  }

  /** A request is accepted exactly when it is whole blocks inside the medium with a buffer, except
      that an empty one at block 0 is refused, because the range check computes 0 - 1. */
  lemma AcceptedRequests(mediaOk: bool, lba: nat, size: nat, noBuffer: bool, last: nat)
    requires lba < TWO64 && size < TWO32 && last + 1 < TWO64 - TWO32
    ensures Refusal(mediaOk, lba, size, noBuffer, last) == Success <==>
            mediaOk && !noBuffer && size % BLK == 0 && lba <= last && lba + size / BLK <= last + 1
            && !(lba == 0 && size == 0)
    // which refusal it is
    ensures var r := Refusal(mediaOk, lba, size, noBuffer, last);
            var inside := lba <= last && lba + size / 512 <= last + 1 && !(lba == 0 && size < 512);
            && (r == MediaChanged <==> !mediaOk)
            && (r == BadBufferSize <==> mediaOk && inside && size % 512 != 0)
            && (r == InvalidParameter <==> mediaOk && (!inside || (size % 512 == 0 && noBuffer)))
            && r != DeviceError
  {
    var n := size / BLK;
    if lba + n >= 1 {
      assert lba + n + TWO64 - 1 == TWO64 + (lba + n - 1);
    } else {
      assert n == 0;
    }
  }

  class Mmc {
    /** Standard eMMC cards are addressed in bytes, all others in blocks. */
    const byteMode: bool
    var mem: seq<byte>
    var disk: seq<byte>
    /** The data commands issued so far. */
    var log: seq<Cmd>
    /** How they were answered. */
    ghost var answers: seq<Answer>

    ghost predicate Valid()
      reads this
    {
      Fitting() && |answers| == |log|
    }

    /** Memory and card are within reach of 32-bit addresses and arguments. */
    ghost predicate Fitting()
      reads this
    {
      && |mem| <= TWO32 && |disk| % BLK == 0
      && (if byteMode then |disk| <= TWO32 else |disk| / BLK <= TWO32)
    }

    ghost function Contents(): Store
      reads this
    {
      Store(mem, disk)
    }

    constructor (byteMode: bool, mem: seq<byte>, disk: seq<byte>)
      requires |mem| <= TWO32 && |disk| % BLK == 0
      requires if byteMode then |disk| <= TWO32 else |disk| / BLK <= TWO32
      ensures Valid() && this.byteMode == byteMode && Contents() == Store(mem, disk) && log == []
    {
      this.byteMode, this.mem, this.disk := byteMode, mem, disk;
      log, answers := [], [];
    }

    function Start(argument: nat): nat { if byteMode then argument else argument * BLK }

    /** sdhci_send_command for a data command, with the controller and the card behind it.  Their behaviour is
        arbitrary, except that the transfer is seen complete only after the data was moved through the
        table; otherwise the receiving side is left arbitrary. */
    method SendCommand(cmd: Cmd) returns (err: bool, resp: bv32, ghost x: Exchange)
      requires Fitting()
      modifies this`mem, this`disk, this`log
      ensures Fitting() && |mem| == |old(mem)| && |disk| == |old(disk)| && log == old(log) + [cmd]
      ensures err == Failed(x, true) && resp == Response(x, true)
      ensures Moved(x) ==>
                var pos, n := Start(cmd.argument), CardBlocks(cmd) * BLK;
                && pos + n <= |disk|
                && if cmd.index == 17 || cmd.index == 18 then
                     disk == old(disk) && mem == Scatter(old(mem), cmd.table, old(disk)[pos..pos + n])
                   else
                     mem == old(mem) && |Gather(mem, cmd.table)| == n
                     && disk == old(disk)[..pos] + Gather(mem, cmd.table) + old(disk)[pos + n..]
    {
      hide Polling.Complete;
      log := log + [cmd];
      var pos, n := Start(cmd.argument), CardBlocks(cmd) * BLK;
      var read := cmd.index == 17 || cmd.index == 18;
      var happens: Exchange := *;
      if pos + n > |disk| || (!read && |Gather(mem, cmd.table)| != n) {
        happens := happens.(linesFree := false);
      }
      x := happens;
      err, resp := true, 0;
      var seen := false;
      if happens.linesFree {
        var o := Polling.CmdComplete(happens.h, false, true, 0, 0);
        err := o.ret != 0;
        if o.command.Seen? { resp := happens.resp; }
        seen := o.command.Seen? && o.transfer.Seen?;
      }
      if !seen {
        var m: seq<byte>, e: seq<byte> := *, *;
        if |m| == |mem| { mem := m; }
        if |e| == |disk| { disk := e; }
      } else if read {
        mem := Scatter(mem, cmd.table, disk[pos..pos + n]);
      } else {
        disk := disk[..pos] + Gather(mem, cmd.table) + disk[pos + n..];
      }
    }

    /** mmc_stop_command, which moves no data. */
    method StopCommand() returns (ret: nat, ghost x: Exchange)
      ensures ret == if Failed(x, false) then 1 else ParseResponse(Response(x, false))
    {
      hide Polling.Complete, ParseResponse;
      var happens: Exchange := *;
      x := happens;
      if !happens.linesFree { return 1, happens; }
      var o := Polling.CmdComplete(happens.h, false, false, 0, 0);
      if o.ret != 0 { return 1, happens; }
      ret := ParseResponse(if o.command.Seen? then happens.resp else 0);
    }

    /** The command structure of mmc_sdhci_read and mmc_sdhci_write, with the table, block count and
        argument that sdhci_adma_transfer and sdhci_send_command derive from it. */
    method BuildCommand(write: bool, buf: nat, blk: nat, n: nat) returns (cmd: Cmd)
      requires Valid() && 0 < n <= MAX_BLOCKS
      requires buf + n * BLK <= |mem| && (blk + n) * BLK <= |disk|
      ensures Fits(cmd, byteMode, write, blk, n, buf)
      // CMD17 or CMD24 for one block, CMD18 or CMD25 for several
      ensures n == 1 ==> cmd.index == if write then 24 else 17
      ensures n > 1 ==> cmd.index == if write then 25 else 18
    {
      assert blk * BLK + n * BLK <= |disk|;
      assert (if byteMode then blk * BLK else blk) < TWO32;
      var argument := (if byteMode then blk * BLK else blk) % TWO32;
      var table := PrepDescTable(buf, n * BLK % TWO32);
      cmd := Cmd(CmdIndex(write, n), argument, n % 65536, table[..]);
    }

    /** The commands and answers since some point. */
    ghost predicate Since(log0: seq<Cmd>, answers0: seq<Answer>, cmds: seq<Cmd>, outs: seq<Answer>)
      reads this
    {
      log == log0 + cmds && answers == answers0 + outs
    }

    /** mmc_sdhci_read and mmc_sdhci_write, which differ in the command index only. */
    method Transfer(write: bool, buf: nat, blk: nat, n: nat) returns (ret: nat, ghost cmd: Cmd, ghost a: Answer)
      requires Valid() && 0 < n <= MAX_BLOCKS
      requires buf + n * BLK <= |mem| && (blk + n) * BLK <= |disk|
      modifies this`mem, this`disk, this`log, this`answers
      ensures Valid() && |mem| == |old(mem)| && |disk| == |old(disk)|
      ensures Since(old(log), old(answers), [cmd], [a])
      ensures Fits(cmd, byteMode, write, blk, n, buf) && ret == TransferResult(a, n)
      ensures Moved(a.data) ==> Contents() == Copied(write, old(Contents()), buf, blk * BLK, n * BLK)
    {
      hide Scatter, Gather, Tiles, ParseResponse, Failed, Response, Moved;
      ghost var s := Contents();
      var command := BuildCommand(write, buf, blk, n);
      cmd := command;
      TableCopies(cmd, byteMode, write, blk, n, buf, s);
      assert Start(cmd.argument) == blk * BLK;
      var err, resp;
      ghost var data, stop;
      err, resp, data := SendCommand(command);
      stop := data;
      if err && n > 1 {
        ret, stop := StopCommand();
      } else {
        ret := ParseResponse(resp);
      }
      a := Answer(data, stop);
      answers := answers + [a];
    }

    /** The loops of mmc_read and mmc_write over a whole number of blocks: the commands go on until one is
        reported as a failure. */
    method Chunks(write: bool, buf: nat, dataAddr: nat, dataLen: nat)
        returns (ret: nat, ghost cmds: seq<Cmd>, ghost outs: seq<Answer>)
      requires Valid() && dataAddr % BLK == 0 && dataLen % BLK == 0
      requires buf + dataLen <= |mem| && dataAddr + dataLen <= |disk|
      modifies this`mem, this`disk, this`log, this`answers
      ensures Valid() && |mem| == |old(mem)| && |disk| == |old(disk)|
      ensures Since(old(log), old(answers), cmds, outs)
      ensures if ret == 0 then AllZero(cmds, outs) else StoppedAtLast(cmds, outs)
      ensures ret == 0 ==> Covers(cmds, byteMode, write, dataAddr / BLK, dataLen / BLK, buf)
      ensures ret == 0 && Clean(outs) ==> Contents() == Copied(write, old(Contents()), buf, dataAddr, dataLen)
    {
      hide Fits, Covers, LeavesRest, Copied, TransferResult, AllZero, StoppedAtLast, Clean, Moved;
      ghost var s, log0, answers0 := Contents(), log, answers;
      ghost var blk, n := dataAddr / 512, dataLen / 512;
      var sptr, addr, left: nat := buf, dataAddr, dataLen;
      ret, cmds, outs := 0, [], [];
      NothingIssued(byteMode, write, blk, n, buf);
      NothingAnswered();
      CopyNothing(write, s, buf, dataAddr);
      while left > MAX_TRANS_SZ
        invariant Valid() && |mem| == |s.mem| && |disk| == |s.disk| && ret == 0
        invariant left <= dataLen && sptr == buf + (dataLen - left) && addr == dataAddr + (dataLen - left)
        invariant addr % 512 == 0 && left % 512 == 0
        invariant Since(log0, answers0, cmds, outs) && AllZero(cmds, outs)
        invariant LeavesRest(cmds, byteMode, write, blk, n, buf, addr / 512, left / 512, sptr)
        invariant Clean(outs) ==> Contents() == Copied(write, s, buf, dataAddr, dataLen - left)
      {
        ghost var cmd, a;
        ret, cmd, a := Transfer(write, sptr, addr / 512, 33553920 / 512);
        BlocksOfFitting(cmd, byteMode, write, addr / 512, 65535, sptr);
        OneMoreAnswer(cmds, outs, cmd, a);
        AppendTwice(log0, cmds, cmd);
        AppendTwice(answers0, outs, a);
        OneCommandMore(cmds, cmd, byteMode, write, blk, n, buf, addr / 512, left / 512, sptr);
        CopyJoin(write, s, buf, dataAddr, dataLen - left, MAX_TRANS_SZ);
        cmds, outs := cmds + [cmd], outs + [a];
        if ret != 0 { return; }
        sptr := sptr + MAX_TRANS_SZ;
        addr := addr + MAX_TRANS_SZ;
        left := left - MAX_TRANS_SZ;
      }
      if left > 0 {
        ghost var cmd, a;
        ret, cmd, a := Transfer(write, sptr, addr / 512, left / 512);
        BlocksOfFitting(cmd, byteMode, write, addr / 512, left / 512, sptr);
        OneMoreAnswer(cmds, outs, cmd, a);
        AppendTwice(log0, cmds, cmd);
        AppendTwice(answers0, outs, a);
        OneCommandMore(cmds, cmd, byteMode, write, blk, n, buf, addr / 512, left / 512, sptr);
        CopyJoin(write, s, buf, dataAddr, dataLen - left, left);
        cmds, outs := cmds + [cmd], outs + [a];
        NothingLeft(cmds, byteMode, write, blk, n, buf, addr / 512 + left / 512, sptr + left);
      } else {
        NothingLeft(cmds, byteMode, write, blk, n, buf, addr / 512, sptr);
      }
    }

    method MmcRead(dataAddr: nat, out: nat, dataLen: nat)
        returns (ret: nat, ghost cmds: seq<Cmd>, ghost outs: seq<Answer>)
      requires Valid() && dataAddr % BLK == 0 && dataLen % BLK == 0
      requires out + dataLen <= |mem| && dataAddr + dataLen <= |disk|
      modifies this`mem, this`disk, this`log, this`answers
      ensures Valid() && Since(old(log), old(answers), cmds, outs)
      ensures if ret == 0 then AllZero(cmds, outs) else StoppedAtLast(cmds, outs)
      ensures ret == 0 ==> Covers(cmds, byteMode, false, dataAddr / BLK, dataLen / BLK, out)
      ensures ret == 0 && Clean(outs) ==> Contents() == Copied(false, old(Contents()), out, dataAddr, dataLen)
    {
      hide Covers, Copied, AllZero, StoppedAtLast, Clean;
      ret, cmds, outs := Chunks(false, out, dataAddr, dataLen);
    }

    /** mmc_write rounds a length that is not whole blocks up. */
    method MmcWrite(dataAddr: nat, dataLen: nat, in_: nat)
        returns (ret: nat, ghost cmds: seq<Cmd>, ghost outs: seq<Answer>)
      requires Valid() && dataAddr % BLK == 0
      requires in_ + RoundUp(dataLen) <= |mem| && dataAddr + RoundUp(dataLen) <= |disk|
      modifies this`mem, this`disk, this`log, this`answers
      ensures Valid() && Since(old(log), old(answers), cmds, outs)
      ensures if ret == 0 then AllZero(cmds, outs) else StoppedAtLast(cmds, outs)
      ensures ret == 0 ==> Covers(cmds, byteMode, true, dataAddr / BLK, RoundUp(dataLen) / BLK, in_)
      ensures ret == 0 && Clean(outs) ==>
                Contents() == Copied(true, old(Contents()), in_, dataAddr, RoundUp(dataLen))
    {
      hide Covers, Copied, AllZero, StoppedAtLast, Clean, RoundUp;
      RoundUpOfWhole(dataLen);
      var len := dataLen;
      if len % BLK != 0 {
        len := RoundUp(len);
      }
      ret, cmds, outs := Chunks(true, in_, dataAddr, len);
    }

    /** A request that the medium's range check lets through stays on the card. */
    lemma AcceptedIsOnCard(mediaOk: bool, lba: nat, size: nat, noBuffer: bool)
      requires Valid() && |disk| > 0 && lba < TWO64 && 0 < size < TWO32
      requires Refusal(mediaOk, lba, size, noBuffer, |disk| / BLK - 1) == Success
      ensures lba * BLK + size <= |disk|
    {
      AcceptedRequests(mediaOk, lba, size, noBuffer, |disk| / BLK - 1);
    }

    /** MMCHSReadBlocks (`write` false) and MMCHSWriteBlocks (`write` true).  A nonempty accepted request
        succeeds exactly when every command is reported as a success.  Then the commands cover the request
        exactly; either all of them moved their data, which was one plain copy and nothing else changed, or
        one of them failed unseen. */
    method Blocks(write: bool, mediaOk: bool, lba: nat, size: nat, buffer: nat, noBuffer: bool)
      returns (r: Status, ghost cmds: seq<Cmd>, ghost outs: seq<Answer>)
      requires Valid() && |disk| > 0 && lba < TWO64 && size < TWO32
      requires !noBuffer ==> buffer + size <= |mem|
      modifies this`mem, this`disk, this`log, this`answers
      ensures Valid() && Since(old(log), old(answers), cmds, outs)
      ensures var refusal := Refusal(mediaOk, lba, size, noBuffer, |old(disk)| / BLK - 1);
              if refusal != Success || size == 0 then
                r == refusal && Contents() == old(Contents()) && cmds == []
              else
                && r == (if AllZero(cmds, outs) then Success else DeviceError)
                && (r == DeviceError ==> StoppedAtLast(cmds, outs))
                && (r == Success ==> Covers(cmds, byteMode, write, lba, size / BLK, buffer))
                && (r == Success && Clean(outs) ==>
                      lba * BLK + size <= |old(disk)|
                      && Contents() == Copied(write, old(Contents()), buffer, lba * BLK, size))
                && (r == Success ==>
                      (!Clean(outs) <==> exists i :: 0 <= i < |cmds| && FailsUnseen(outs[i], cmds[i].blocks)))
    {
      hide Covers, Copied, AllZero, StoppedAtLast, Clean, FailsUnseen;
      cmds, outs := [], [];
      var last := |disk| / BLK - 1;
      if !mediaOk { return MediaChanged, [], []; }
      if lba > last { return InvalidParameter, [], []; }
      if (lba + size / BLK + TWO64 - 1) % TWO64 > last { return InvalidParameter, [], []; }
      if size % BLK != 0 { return BadBufferSize, [], []; }
      if noBuffer { return InvalidParameter, [], []; }
      if size == 0 { return Success, [], []; }
      AcceptedIsOnCard(mediaOk, lba, size, noBuffer);
      var ret;
      if write {
        ret, cmds, outs := MmcWrite(lba * BLK, size, buffer);
      } else {
        ret, cmds, outs := MmcRead(lba * BLK, buffer, size);
      }
      if ret == 0 {
        AllZeroLengths(cmds, outs);
        UncleanIff(cmds, outs);
      } else {
        StoppedIsNotZero(cmds, outs);
      }
      r := if ret == 0 then Success else DeviceError;
    }
  }

  lemma AllZeroLengths(log: seq<Cmd>, answers: seq<Answer>)
    requires AllZero(log, answers)
    ensures |answers| == |log|
  {
  }

  lemma StoppedIsNotZero(log: seq<Cmd>, answers: seq<Answer>)
    requires StoppedAtLast(log, answers)
    ensures !AllZero(log, answers)
  {
    hide TransferResult;
  }

  lemma BlocksOfFitting(c: Cmd, byteMode: bool, write: bool, blk: nat, n: nat, buf: nat)
    requires Fits(c, byteMode, write, blk, n, buf)
    ensures c.blocks == n
  {
  }

  /** ROUNDUP to whole blocks. */
  function RoundUp(n: nat): (r: nat)
    ensures r % BLK == 0 && n <= r < n + BLK
  {
    var q := (n + BLK - 1) / BLK;
    assert q * BLK == n + BLK - 1 - (n + BLK - 1) % BLK;
    q * BLK
  }

  lemma RoundUpOfWhole(n: nat)
    ensures n % BLK == 0 ==> RoundUp(n) == n
  {
  }

  lemma NothingAnswered()
    ensures AllZero([], []) && Clean([])
  {
  }

  /** What a fitting command does, through its table, is the plain copy of its piece. */
  lemma TableCopies(c: Cmd, byteMode: bool, write: bool, blk: nat, n: nat, buf: nat, s: Store)
    requires Fits(c, byteMode, write, blk, n, buf)
    requires buf + n * BLK <= |s.mem| && (blk + n) * BLK <= |s.disk|
    ensures !write ==> Scatter(s.mem, c.table, s.disk[blk * BLK..blk * BLK + n * BLK])
                       == Copied(write, s, buf, blk * BLK, n * BLK).mem
    ensures write ==> Gather(s.mem, c.table) == s.mem[buf..buf + n * BLK]
  {
    if write {
      GatherIsSlice(s.mem, c.table, buf, n * BLK);
    } else {
      ScatterIsCopy(s.mem, c.table, buf, n * BLK, s.disk[blk * BLK..blk * BLK + n * BLK]);
    }
  }
}
