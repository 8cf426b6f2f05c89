/**
 * Status codes shared by the transport layer and the temperature conversion.
 */
module Status {

  /** The BCC driver's own result codes (bcc_status_t), as far as the modelled core returns them. */
  datatype BccStatus =
    | BccSuccess      // BCC_STATUS_SUCCESS
    | ComTimeout      // BCC_STATUS_COM_TIMEOUT
    | SpiBusy         // BCC_STATUS_SPI_BUSY
    | ParamRange      // BCC_STATUS_PARAM_RANGE

  /** Result codes of the LPSPI SDK driver (status_t); every other SDK code is an `Error`. */
  datatype SdkStatus =
    | Success         // STATUS_SUCCESS
    | Timeout         // STATUS_TIMEOUT
    | Busy            // STATUS_BUSY
    | Error(code: int)

  /**
   * The mapping every transfer applies to a failed SDK call:
   * STATUS_TIMEOUT becomes a communication timeout, every other failure a busy bus.
   */
  function FromSdk(s: SdkStatus): (r: BccStatus)
    ensures r == BccSuccess <==> s == Success
    ensures r == ComTimeout <==> s == Timeout
    ensures r == SpiBusy <==> s != Success && s != Timeout
  {
    if s == Success then BccSuccess
    else if s == Timeout then ComTimeout
    else SpiBusy
  }
}
