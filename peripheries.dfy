/**
 * The transfer functions of bcc_peripheries.c: one SPI exchange (BCC_MCU_TransferSpi),
 * the TX half of a TPL exchange (BCC_TransferTxTpl) and the whole TPL exchange
 * (BCC_MCU_TransferTpl): arm the slave, transmit, poll with a cycle budget, abort on
 * failure, decode the received blocks.
 */
module Peripheries {
  import opened Status
  import opened Codec
  import opened Sdk
  import Wait

  /** The compile-time communication variant (SPI, TPL, TPL_TRANSLT). */
  datatype Variant = Spi | Tpl | TplTranslt

  /** BCC_COM_TIMEOUT_MS. */
  const ComTimeoutMs: int := 10
  /** The settle delay before CSB_TX goes high again, in microseconds. */
  const EchoWaitUs: nat := 2
  /** Transfers use an 8-bit loop counter, so at most 255 frames can be received. */
  const MaxRecvFrames: nat := 255

  /** The cycle budget of the TPL wait loop: freq / 1000 * BCC_COM_TIMEOUT_MS. */
  function TplBudget(freq: int): (b: nat)
    requires Wait.IsU32(freq)
    ensures b == freq / 1000 * ComTimeoutMs
  {
    Wait.TenMsNeverWraps(freq);
    Wait.CyclesForMs(ComTimeoutMs, freq)
  }

  function Min(a: nat, b: nat): nat { if a <= b then a else b }

  /** `k` status polls in a row. */
  function Polls(k: nat): (s: seq<Event>)
    ensures |s| == k && forall i :: 0 <= i < k ==> s[i] == Poll
  {
    if k == 0 then [] else Polls(k - 1) + [Poll]
  }

  /** The SDK calls of BCC_TransferTxTpl when the master transfer answers `master`. */
  function TxTplTrace(variant: Variant, master: SdkStatus, w: seq<byte>): (r: seq<Event>)
    ensures Tx(w) in r
    ensures |r| == if variant != TplTranslt then 1 else if master == Success then 4 else 3
  {
    if variant == TplTranslt then
      [CsbLow, Tx(w)] + (if master == Success then [WaitUs(EchoWaitUs), CsbHigh] else [CsbHigh])
    else
      [Tx(w)]
  }

  /**
   * The status of BCC_MCU_TransferTpl when arming answers `arm`, the master transfer
   * `master`, the slave stays busy for `busy` polls and the budget is `budget` cycles.
   */
  function TplStatus(arm: SdkStatus, master: SdkStatus, busy: nat, budget: nat): (r: BccStatus)
    ensures r == BccSuccess <==> arm == Success && master == Success && busy < budget
    ensures r == ComTimeout <==>
      arm == Success && (master == Timeout || (master == Success && busy >= budget))
    ensures r != ParamRange
  {
    if arm != Success then SpiBusy
    else if master != Success then FromSdk(master)
    else if busy >= budget then ComTimeout
    else BccSuccess
  }

  /** The SDK calls of BCC_MCU_TransferTpl in the same situation, for `n` frames and wire image `w`. */
  function TplTrace(variant: Variant, arm: SdkStatus, master: SdkStatus, busy: nat, budget: nat,
                    n: nat, w: seq<byte>): (r: seq<Event>)
    ensures |r| >= 1 && r[0] == Arm(Alignment * n)
    ensures |r| == 1 <==> arm != Success
  {
    [Arm(Alignment * n)] +
    if arm != Success then []
    else if master != Success then TxTplTrace(variant, master, w) + [Abort]
    else TxTplTrace(variant, master, w) + Polls(Min(busy, budget) + 1)
         + (if busy >= budget then [Abort] else [])
  }

  /** The number of occurrences of call `e` in trace `s`. */
  function Count(e: Event, s: seq<Event>): nat
  {
    if s == [] then 0 else (if s[0] == e then 1 else 0) + Count(e, s[1..])
  }

  lemma {:induction false} CountConcat(e: Event, a: seq<Event>, b: seq<Event>)
    ensures Count(e, a + b) == Count(e, a) + Count(e, b)
  {
    if a == [] {
      assert a + b == b;
    } else {
      assert (a + b)[1..] == a[1..] + b;
      CountConcat(e, a[1..], b);
    }
  }

  lemma CountCons(e: Event, x: Event, s: seq<Event>)
    ensures Count(e, [x] + s) == (if x == e then 1 else 0) + Count(e, s)
  {
    assert ([x] + s)[1..] == s;
  }

  lemma {:induction false} CountAbsent(e: Event, s: seq<Event>)
    requires e !in s
    ensures Count(e, s) == 0
  {
    if s != [] {
      assert s[0] != e;
      CountAbsent(e, s[1..]);
    }
  }

  /** `k` polls in a row contain k polls and no abort. */
  lemma {:induction false} PollsCount(k: nat)
    ensures Count(Poll, Polls(k)) == k
    ensures Count(Abort, Polls(k)) == 0
  {
    if k > 0 {
      PollsCount(k - 1);
      CountConcat(Poll, Polls(k - 1), [Poll]);
      CountConcat(Abort, Polls(k - 1), [Poll]);
    }
  }

  /** The transmission part of a TPL call neither polls nor aborts the slave. */
  lemma TxTplNoSlaveCalls(variant: Variant, master: SdkStatus, w: seq<byte>)
    ensures Count(Poll, TxTplTrace(variant, master, w)) == 0
    ensures Count(Abort, TxTplTrace(variant, master, w)) == 0
  {
    CountAbsent(Poll, TxTplTrace(variant, master, w));
    CountAbsent(Abort, TxTplTrace(variant, master, w));
  }

  /**
   * The slave is armed, for exactly 8 bytes per expected frame, before anything else, and
   * only once; a failed arm ends the call with SPI_BUSY before any transmission or abort.
   */
  lemma TplArmsFirst(variant: Variant, arm: SdkStatus, master: SdkStatus, busy: nat, budget: nat,
                     n: nat, w: seq<byte>)
    ensures var t := TplTrace(variant, arm, master, busy, budget, n, w);
      t[0] == Arm(8 * n) && forall i :: 0 < i < |t| ==> !t[i].Arm?
    ensures arm != Success ==>
      TplTrace(variant, arm, master, busy, budget, n, w) == [Arm(8 * n)] &&
      TplStatus(arm, master, busy, budget) == SpiBusy
  {
    var t := TplTrace(variant, arm, master, busy, budget, n, w);
    if arm == Success {
      var tx := TxTplTrace(variant, master, w);
      if master != Success {
        assert t == [Arm(8 * n)] + tx + [Abort];
      } else {
        var p := Polls(Min(busy, budget) + 1);
        var tail := if busy >= budget then [Abort] else [];
        assert t == [Arm(8 * n)] + tx + p + tail;
        forall i | 0 < i < |t| ensures !t[i].Arm? {
          if i <= |tx| {
            assert t[i] == tx[i - 1];
          } else if i <= |tx| + |p| {
            assert t[i] == p[i - 1 - |tx|];
          }
        }
      }
    }
  }

  /**
   * Once the slave is armed, it is aborted exactly once on every failure (a failed
   * transmission or a spent budget), as the last call, and never on success.
   */
  lemma TplAbortsOnFailure(variant: Variant, arm: SdkStatus, master: SdkStatus, busy: nat, budget: nat,
                           n: nat, w: seq<byte>)
    requires arm == Success
    ensures var t := TplTrace(variant, arm, master, busy, budget, n, w);
      var failed := TplStatus(arm, master, busy, budget) != BccSuccess;
      Count(Abort, t) == (if failed then 1 else 0) && (failed ==> t[|t| - 1] == Abort)
  {
    var t := TplTrace(variant, arm, master, busy, budget, n, w);
    var tx := TxTplTrace(variant, master, w);
    TxTplNoSlaveCalls(variant, master, w);
    CountConcat(Abort, [Arm(Alignment * n)], tx);
    if master == Success {
      var p := Polls(Min(busy, budget) + 1);
      var tail: seq<Event> := if busy >= budget then [Abort] else [];
      TplTraceWaited(variant, arm, master, busy, budget, n, w);
      PollsCount(Min(busy, budget) + 1);
      CountConcat(Abort, [Arm(Alignment * n)] + tx, p);
      CountConcat(Abort, [Arm(Alignment * n)] + tx + p, tail);
    } else {
      TplTraceTxFailed(variant, arm, master, busy, budget, n, w);
      CountConcat(Abort, [Arm(Alignment * n)] + tx, [Abort]);
    }
  }

  /**
   * A failed transmission is returned unchanged (COM_TIMEOUT for an SDK timeout,
   * SPI_BUSY otherwise) and the slave is never polled.
   */
  lemma TplTxFailure(variant: Variant, arm: SdkStatus, master: SdkStatus, busy: nat, budget: nat,
                     n: nat, w: seq<byte>)
    requires arm == Success && master != Success
    ensures TplStatus(arm, master, busy, budget) == (if master == Timeout then ComTimeout else SpiBusy)
    ensures Count(Poll, TplTrace(variant, arm, master, busy, budget, n, w)) == 0
  {
    var tx := TxTplTrace(variant, master, w);
    TplTraceTxFailed(variant, arm, master, busy, budget, n, w);
    TxTplNoSlaveCalls(variant, master, w);
    CountConcat(Poll, [Arm(Alignment * n)], tx);
    CountConcat(Poll, [Arm(Alignment * n)] + tx, [Abort]);
  }

  /**
   * After a good transmission the slave is polled min(busy, budget) + 1 times, never more
   * than budget + 1; the call times out exactly when the slave was busy for at least the
   * whole budget, even when it finished on the last poll or the budget was 0.
   */
  lemma TplWaitBound(variant: Variant, arm: SdkStatus, master: SdkStatus, busy: nat, budget: nat,
                     n: nat, w: seq<byte>)
    requires arm == Success && master == Success
    ensures var polls := Count(Poll, TplTrace(variant, arm, master, busy, budget, n, w));
      polls == Min(busy, budget) + 1 && polls <= budget + 1
    ensures TplStatus(arm, master, busy, budget) == ComTimeout <==> busy >= budget
    ensures TplStatus(arm, master, busy, budget) != ComTimeout ==>
      TplStatus(arm, master, busy, budget) == BccSuccess
  {
    var tx := TxTplTrace(variant, master, w);
    var p := Polls(Min(busy, budget) + 1);
    var tail: seq<Event> := if busy >= budget then [Abort] else [];
    TplTraceWaited(variant, arm, master, busy, budget, n, w);
    TxTplNoSlaveCalls(variant, master, w);
    PollsCount(Min(busy, budget) + 1);
    CountConcat(Poll, [Arm(Alignment * n)], tx);
    CountConcat(Poll, [Arm(Alignment * n)] + tx, p);
    CountConcat(Poll, [Arm(Alignment * n)] + tx + p, tail);
  }

  /**
   * In the TPL_TRANSLT variant CSB_TX goes low right before the transmission and high
   * again once, as the last call: after the 2 us echo wait on success, at once on
   * failure. The TPL variant never touches the pin.
   */
  lemma TxTplDrivesCsb(variant: Variant, master: SdkStatus, w: seq<byte>)
    ensures var t := TxTplTrace(variant, master, w);
      variant == TplTranslt ==>
        t[0] == CsbLow && t[1] == Tx(w) && t[|t| - 1] == CsbHigh &&
        Count(CsbLow, t) == 1 && Count(CsbHigh, t) == 1 &&
        (master == Success ==> t[2] == WaitUs(2)) && (master != Success ==> |t| == 3)
    ensures var t := TxTplTrace(variant, master, w);
      variant != TplTranslt ==> Count(CsbLow, t) == 0 && Count(CsbHigh, t) == 0 && t == [Tx(w)]
  {
    var t := TxTplTrace(variant, master, w);
    if variant == TplTranslt {
      var init := t[..|t| - 1];
      assert t == [CsbLow] + t[1..];
      assert t == init + [CsbHigh];
      CountCons(CsbLow, CsbLow, t[1..]);
      CountAbsent(CsbLow, t[1..]);
      CountConcat(CsbHigh, init, [CsbHigh]);
      CountCons(CsbHigh, CsbHigh, []);
      assert [CsbHigh] + [] == [CsbHigh];
      CountAbsent(CsbHigh, init);
      CountAbsent(CsbHigh, []);
    } else {
      CountAbsent(CsbLow, t);
      CountAbsent(CsbHigh, t);
    }
  }

  lemma TplTraceTxFailed(variant: Variant, arm: SdkStatus, master: SdkStatus, busy: nat, budget: nat,
                         n: nat, w: seq<byte>)
    requires arm == Success && master != Success
    ensures TplTrace(variant, arm, master, busy, budget, n, w)
         == [Arm(Alignment * n)] + TxTplTrace(variant, master, w) + [Abort]
  {
  }

  lemma TplTraceWaited(variant: Variant, arm: SdkStatus, master: SdkStatus, busy: nat, budget: nat,
                       n: nat, w: seq<byte>)
    requires arm == Success && master == Success
    ensures TplTrace(variant, arm, master, busy, budget, n, w)
         == [Arm(Alignment * n)] + TxTplTrace(variant, master, w) + Polls(Min(busy, budget) + 1)
            + (if busy >= budget then [Abort] else [])
  {
  }

  /**
   * BCC_TransferTxTpl: encode the frame into the 8-byte buffer `tBuf` (a stack buffer in
   * the source, whose bytes 5..7 keep their previous content) and send it on the TX bus;
   * in the TPL_TRANSLT variant CSB_TX is driven around the transfer.
   */
  method TransferTxTpl(variant: Variant, sdk: Lpspi, transBuf: array<byte>, tBuf: array<byte>)
    returns (status: BccStatus)
    requires sdk.Valid()
    requires transBuf.Length >= FrameSize && tBuf.Length == Alignment && tBuf != transBuf
    modifies sdk`trace, tBuf
    ensures tBuf[..] == Encode(old(transBuf[..FrameSize]), old(tBuf[..]))
    ensures status == FromSdk(sdk.masterStatus)
    ensures sdk.trace == old(sdk.trace) + TxTplTrace(variant, sdk.masterStatus, tBuf[..])
  {
    tBuf[0] := transBuf[3];
    tBuf[1] := transBuf[2];
    tBuf[2] := transBuf[1];
    tBuf[3] := transBuf[0];
    tBuf[4] := transBuf[4];
    assert tBuf[..] == Encode(old(transBuf[..FrameSize]), old(tBuf[..]));

    if variant == TplTranslt {
      sdk.ClearCsb();
      var error := sdk.MasterTransferBlocking(tBuf, null);
      if error != Success {
        sdk.SetCsb();
        return if error == Timeout then ComTimeout else SpiBusy;
      }
      sdk.Wait(EchoWaitUs);
      sdk.SetCsb();
    } else {
      var error := sdk.MasterTransferBlocking(tBuf, null);
      if error != Success {
        return if error == Timeout then ComTimeout else SpiBusy;
      }
    }
    return BccSuccess;
  }

  /**
   * BCC_MCU_TransferSpi: one blocking full-duplex exchange of an encoded frame; the
   * response is decoded into `recvBuf` only when the exchange succeeded.
   */
  method TransferSpi(sdk: Lpspi, transBuf: array<byte>, recvBuf: array<byte>, tBuf: array<byte>)
    returns (status: BccStatus)
    requires sdk.Valid()
    requires transBuf.Length >= FrameSize && recvBuf.Length >= FrameSize
    requires tBuf.Length == Alignment && tBuf != transBuf && tBuf != recvBuf
    modifies sdk`trace, recvBuf, tBuf
    ensures tBuf[..] == Encode(old(transBuf[..FrameSize]), old(tBuf[..]))
    ensures sdk.trace == old(sdk.trace) + [Tx(tBuf[..])]
    ensures status == FromSdk(sdk.masterStatus)
    ensures status == BccSuccess ==>
      recvBuf[..FrameSize] == Decode(sdk.masterRx) && recvBuf[FrameSize..] == old(recvBuf[FrameSize..])
    ensures status != BccSuccess ==> recvBuf[..] == old(recvBuf[..])
  {
    tBuf[0] := transBuf[3];
    tBuf[1] := transBuf[2];
    tBuf[2] := transBuf[1];
    tBuf[3] := transBuf[0];
    tBuf[4] := transBuf[4];
    assert tBuf[..] == Encode(old(transBuf[..FrameSize]), old(tBuf[..]));

    var rBuf := new byte[Alignment];
    var error := sdk.MasterTransferBlocking(tBuf, rBuf);
    if error != Success {
      return if error == Timeout then ComTimeout else SpiBusy;
    }

    recvBuf[0] := rBuf[3];
    recvBuf[1] := rBuf[2];
    recvBuf[2] := rBuf[1];
    recvBuf[3] := rBuf[0];
    recvBuf[4] := rBuf[4];
    assert recvBuf[..FrameSize] == Decode(rBuf[..]);
    return BccSuccess;
  }

  /**
   * BCC_MCU_TransferTpl: arm the slave for `recvTrCnt` blocks, send the frame, poll the
   * slave within the cycle budget derived from `freq`, abort the slave on every failure
   * after arming, and on success decode the blocks in arrival order into `recvBuf`.
   * `rxFrames` is the capacity of the receive buffer in frames.
   */
  method TransferTpl(variant: Variant, sdk: Lpspi, freq: int, transBuf: array<byte>,
                     recvBuf: array<byte>, recvTrCnt: nat, rxFrames: nat, tBuf: array<byte>)
    returns (status: BccStatus)
    requires sdk.Valid() && Wait.IsU32(freq)
    requires recvTrCnt <= MaxRecvFrames && recvTrCnt <= rxFrames
    requires transBuf.Length >= FrameSize && recvBuf.Length >= FrameSize * recvTrCnt
    requires tBuf.Length == Alignment && tBuf != transBuf && tBuf != recvBuf
    modifies sdk, recvBuf, tBuf
    ensures sdk.Valid()
    ensures status == TplStatus(sdk.armStatus, sdk.masterStatus, old(sdk.busyPolls), TplBudget(freq))
    ensures sdk.trace == old(sdk.trace) +
      TplTrace(variant, sdk.armStatus, sdk.masterStatus, old(sdk.busyPolls), TplBudget(freq),
               recvTrCnt, Encode(old(transBuf[..FrameSize]), old(tBuf[..])))
    ensures status == BccSuccess ==>
      recvBuf[..FrameSize * recvTrCnt] == DecodeBlocks(Stream(sdk.slaveRx, Alignment * recvTrCnt), recvTrCnt)
      && recvBuf[FrameSize * recvTrCnt..] == old(recvBuf[FrameSize * recvTrCnt..])
    ensures status != BccSuccess ==> recvBuf[..] == old(recvBuf[..])
  {
    var rBuf := new byte[Alignment * rxFrames];
    var timeout := TplBudget(freq);
    ghost var budget, busy, before := timeout, sdk.busyPolls, sdk.trace;
    ghost var wire := Encode(transBuf[..FrameSize], tBuf[..]);
    ghost var arm, master := sdk.armStatus, sdk.masterStatus;
    ghost var sent := [Arm(Alignment * recvTrCnt)] + TxTplTrace(variant, master, wire);

    var error := sdk.SlaveTransfer(rBuf, Alignment * recvTrCnt);
    if error != Success {
      return SpiBusy;
    }

    var bccError := TransferTxTpl(variant, sdk, transBuf, tBuf);
    assert sdk.trace == before + sent;
    if bccError != BccSuccess {
      sdk.SlaveAbortTransfer();
      TplTraceTxFailed(variant, arm, master, busy, budget, recvTrCnt, wire);
      return bccError;
    }

    timeout := WaitForSlave(sdk, timeout);
    ghost var polled := sent + Polls(Min(busy, budget) + 1);
    assert sdk.trace == before + polled;

    if timeout == 0 {
      sdk.SlaveAbortTransfer();
      TplTraceWaited(variant, arm, master, busy, budget, recvTrCnt, wire);
      return ComTimeout;
    }

    StoreFrames(rBuf, recvBuf, recvTrCnt);
    TplTraceWaited(variant, arm, master, busy, budget, recvTrCnt, wire);
    return BccSuccess;
  }

  /**
   * The wait loop of BCC_MCU_TransferTpl: poll the slave until it is no longer busy or
   * the budget is spent, one cycle of budget per busy answer. Returns the budget left.
   */
  method WaitForSlave(sdk: Lpspi, budget: nat) returns (timeout: nat)
    requires sdk.Valid() && sdk.rxBuf != null
    modifies sdk`busyPolls, sdk`trace, sdk.rxBuf
    ensures sdk.Valid() && sdk.rxBuf == old(sdk.rxBuf) && sdk.rxLen == old(sdk.rxLen)
    ensures timeout == budget - Min(old(sdk.busyPolls), budget)
    ensures sdk.trace == old(sdk.trace) + Polls(Min(old(sdk.busyPolls), budget) + 1)
    ensures timeout > 0 ==> sdk.rxBuf[..sdk.rxLen] == Stream(sdk.slaveRx, sdk.rxLen)
  {
    ghost var busy, before, buf := sdk.busyPolls, sdk.trace, sdk.rxBuf;
    timeout := budget;
    var st := sdk.SlaveGetTransferStatus();
    while st == Busy && timeout > 0
      invariant sdk.Valid() && sdk.rxBuf == buf && sdk.rxLen == old(sdk.rxLen)
      invariant 0 <= timeout <= budget && budget - timeout <= busy
      invariant st == Busy <==> budget - timeout < busy
      invariant sdk.busyPolls == if budget - timeout < busy then busy - (budget - timeout) - 1 else 0
      invariant sdk.trace == before + Polls(budget - timeout + 1)
      invariant st != Busy ==> buf[..sdk.rxLen] == Stream(sdk.slaveRx, sdk.rxLen)
      decreases timeout
    {
      timeout := timeout - 1;
      st := sdk.SlaveGetTransferStatus();
    }
  }

  /** The store loop of BCC_MCU_TransferTpl: block i of `rBuf` becomes frame i of `recvBuf`. */
  method StoreFrames(rBuf: array<byte>, recvBuf: array<byte>, cnt: nat)
    requires Alignment * cnt <= rBuf.Length && FrameSize * cnt <= recvBuf.Length && rBuf != recvBuf
    modifies recvBuf
    ensures recvBuf[..FrameSize * cnt] == DecodeBlocks(rBuf[..Alignment * cnt], cnt)
    ensures recvBuf[FrameSize * cnt..] == old(recvBuf[FrameSize * cnt..])
  {
    ghost var rx := rBuf[..Alignment * cnt];
    var i := 0;
    while i < cnt
      invariant 0 <= i <= cnt
      invariant recvBuf[..FrameSize * i] == DecodeBlocks(rx, i)
      invariant recvBuf[FrameSize * i..] == old(recvBuf[FrameSize * i..])
    {
      ghost var prev := recvBuf[..];
      ghost var f := Decode(rx[Alignment * i .. Alignment * i + FrameSize]);
      recvBuf[FrameSize * i + 0] := rBuf[Alignment * i + 3];
      recvBuf[FrameSize * i + 1] := rBuf[Alignment * i + 2];
      recvBuf[FrameSize * i + 2] := rBuf[Alignment * i + 1];
      recvBuf[FrameSize * i + 3] := rBuf[Alignment * i + 0];
      recvBuf[FrameSize * i + 4] := rBuf[Alignment * i + 4];
      assert recvBuf[FrameSize * i .. FrameSize * i + FrameSize] == f;
      assert recvBuf[..FrameSize * i] == prev[..FrameSize * i];
      assert recvBuf[FrameSize * i + FrameSize..] == prev[FrameSize * i + FrameSize..];
      DecodeBlocksNext(rx, i);
      assert recvBuf[..FrameSize * i + FrameSize]
          == recvBuf[..FrameSize * i] + recvBuf[FrameSize * i .. FrameSize * i + FrameSize];
      i := i + 1;
    }
  }
}
