/**
 * The S32K1xx SDK calls the transport layer depends on (LPSPI_DRV_*, PINS_DRV_*,
 * BCC_MCU_WaitUs), as a scripted driver. Its answers come from the script fixed at
 * construction; every call is appended to the ghost trace, so that the order of the
 * calls made by a transfer can be stated and proved.
 */
module Sdk {
  import opened Status
  import opened Codec

  /** One call into the SDK. */
  datatype Event =
    | Arm(bytes: nat)          // LPSPI_DRV_SlaveTransfer for `bytes` bytes
    | Tx(wire: seq<byte>)      // LPSPI_DRV_MasterTransferBlocking of an 8-byte buffer
    | Poll                     // LPSPI_DRV_SlaveGetTransferStatus
    | Abort                    // LPSPI_DRV_SlaveAbortTransfer
    | CsbLow                   // PINS_DRV_ClearPins on CSB_TX
    | CsbHigh                  // PINS_DRV_SetPins on CSB_TX
    | WaitUs(us: nat)          // BCC_MCU_WaitUs

  /** The first `n` bytes the slave bus receives. */
  function Stream(rx: nat -> byte, n: nat): (s: seq<byte>)
    ensures |s| == n && forall k :: 0 <= k < n ==> s[k] == rx(k)
  {
    seq(n, k requires 0 <= k => rx(k))
  }

  class Lpspi {
    /** What LPSPI_DRV_SlaveTransfer answers. */
    const armStatus: SdkStatus
    /** What LPSPI_DRV_MasterTransferBlocking answers. */
    const masterStatus: SdkStatus
    /** The 8 bytes the master clocks in on a successful exchange (SPI mode). */
    const masterRx: seq<byte>
    /** The byte stream arriving at the slave bus (TPL mode). */
    const slaveRx: nat -> byte
    /** The status the slave reports once it is no longer busy. */
    const doneStatus: SdkStatus

    /** Number of further status polls that report STATUS_BUSY. */
    var busyPolls: nat
    /** The buffer and byte count of the armed slave reception, if any. */
    var rxBuf: array?<byte>
    var rxLen: nat

    ghost var trace: seq<Event>

    ghost predicate Valid()
      reads this
    {
      |masterRx| == Alignment && doneStatus != Busy &&
      (rxBuf != null ==> rxLen <= rxBuf.Length)
    }

    constructor (arm: SdkStatus, master: SdkStatus, mrx: seq<byte>, srx: nat -> byte,
                 busy: nat, done: SdkStatus)
      requires |mrx| == Alignment && done != Busy
      ensures Valid()
      ensures armStatus == arm && masterStatus == master && masterRx == mrx
      ensures slaveRx == srx && busyPolls == busy && doneStatus == done
      ensures rxBuf == null && trace == []
    {
      armStatus, masterStatus, masterRx, slaveRx := arm, master, mrx, srx;
      busyPolls, doneStatus := busy, done;
      rxBuf, rxLen := null, 0;
      trace := [];
    }

    /** Arms a non-blocking slave reception of `n` bytes into `buf`. */
    method SlaveTransfer(buf: array<byte>, n: nat) returns (s: SdkStatus)
      requires Valid() && n <= buf.Length
      modifies this`rxBuf, this`rxLen, this`trace
      ensures Valid()
      ensures s == armStatus && trace == old(trace) + [Arm(n)]
      ensures s == Success ==> rxBuf == buf && rxLen == n
      ensures s != Success ==> rxBuf == old(rxBuf) && rxLen == old(rxLen)
    {
      s := armStatus;
      trace := trace + [Arm(n)];
      if s == Success {
        rxBuf, rxLen := buf, n;
      }
    }

    /** A blocking master exchange of one 8-byte buffer; `rx` is null in TPL mode. */
    method MasterTransferBlocking(tx: array<byte>, rx: array?<byte>) returns (s: SdkStatus)
      requires Valid() && tx.Length == Alignment && rx != tx
      requires rx != null ==> rx.Length == Alignment
      modifies this`trace, rx
      ensures s == masterStatus && trace == old(trace) + [Tx(tx[..])]
      ensures rx != null && s == Success ==> rx[..] == masterRx
      ensures rx != null && s != Success ==> rx[..] == old(rx[..])
    {
      s := masterStatus;
      if rx != null && s == Success {
        forall k | 0 <= k < Alignment {
          rx[k] := masterRx[k];
        }
      }
      trace := trace + [Tx(tx[..])];
    }

    /**
     * Reports the slave's status. Once it is no longer busy, the armed buffer holds the
     * received bytes.
     */
    method SlaveGetTransferStatus() returns (s: SdkStatus)
      requires Valid()
      modifies this`busyPolls, this`trace, rxBuf
      ensures Valid() && rxBuf == old(rxBuf) && rxLen == old(rxLen)
      ensures trace == old(trace) + [Poll]
      ensures old(busyPolls) > 0 ==> s == Busy && busyPolls == old(busyPolls) - 1
      ensures old(busyPolls) > 0 && rxBuf != null ==> rxBuf[..] == old(rxBuf[..])
      ensures old(busyPolls) == 0 ==> s == doneStatus && busyPolls == 0
      ensures old(busyPolls) == 0 && rxBuf != null ==>
        rxBuf[..rxLen] == Stream(slaveRx, rxLen) && rxBuf[rxLen..] == old(rxBuf[rxLen..])
    {
      trace := trace + [Poll];
      if busyPolls > 0 {
        busyPolls := busyPolls - 1;
        s := Busy;
      } else {
        s := doneStatus;
        if rxBuf != null {
          forall k | 0 <= k < rxLen {
            rxBuf[k] := slaveRx(k);
          }
        }
      }
    }

    /** Cancels the armed slave reception. */
    method SlaveAbortTransfer()
      requires Valid()
      modifies this`rxBuf, this`trace
      ensures Valid() && rxBuf == null
      ensures trace == old(trace) + [Abort]
    {
      rxBuf := null;
      trace := trace + [Abort];
    }

    /** Drives CSB_TX low (slave selected). */
    method ClearCsb()
      modifies this`trace
      ensures trace == old(trace) + [CsbLow]
    {
      trace := trace + [CsbLow];
    }

    /** Drives CSB_TX high (slave unselected). */
    method SetCsb()
      modifies this`trace
      ensures trace == old(trace) + [CsbHigh]
    {
      trace := trace + [CsbHigh];
    }

    /** Busy-waits `us` microseconds. */
    method Wait(us: nat)
      modifies this`trace
      ensures trace == old(trace) + [WaitUs(us)]
    {
      trace := trace + [WaitUs(us)];
    }
  }
}
