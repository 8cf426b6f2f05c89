# BCC transport layer and NTC conversion, modelled in Dafny

This project models two parts of the battery-cell-controller (MC33771/MC33772 BCC)
demo for the S32K144:

- **The MCU transport layer** in `Sources/bcc_s32k144/bcc_peripheries.c`. A 40-bit BCC
  frame is 5 bytes. The S32K1xx LPSPI driver needs it laid out in an 8-byte buffer,
  with bytes 0..3 reversed and byte 4 copied.
  - `BCC_MCU_TransferSpi` performs one full-duplex exchange.
  - `BCC_TransferTxTpl` sends one frame on the TX bus. In the `TPL_TRANSLT` variant it
    drives CSB_TX around the transfer.
  - `BCC_MCU_TransferTpl` arms the RX slave for `recvTrCnt` 8-byte blocks, sends the
    frame, and polls the slave within a budget of `freq / 1000 * 10` polls. It aborts
    the slave on every failure after arming. On success it decodes the blocks into
    `recvBuf`.
- **The NTC temperature conversion** in `Sources/monitoring.c`. `fillNtcTable` lays out
  one raw ADC code per integer degree, from the minimum temperature up. The codes descend
  as the temperature rises. `getNtcCelsius`:
  - range-checks a raw code, the hot side first;
  - bisects the table for the bracketing slot;
  - interpolates tenths of a degree;
  - returns tenths of a degree Celsius through `NTC_COMP_TEMP`.
- **The cycle-count macros** of `Sources/bcc_s32k144/bcc_wait.h`. They are 32-bit
  unsigned arithmetic, so the wrap-around is written out.

Layout:

- `status.dfy`: the BCC and SDK status codes and the mapping between them.
- `wait.dfy`: the cycle macros.
- `codec.dfy`: the 5 ↔ 8 byte layout.
- `sdk.dfy`: the LPSPI/GPIO/wait calls as a scripted driver class.
  - Its answers are fixed at construction: arm status, master status, the bytes the
    master clocks in, the byte stream reaching the slave, the number of busy polls, and
    the final slave status.
  - Each call is appended to a ghost `trace`, so the order of the calls a transfer makes
    is stated and proved.
- `peripheries.dfy`: the three transfer functions as methods, each proved against
  specification functions.
  - `TransferTpl` is proved against its status (`TplStatus`) and its call sequence
    (`TplTrace`). Lemmas about those two functions state what the driver promises.
  - `TransferTxTpl` is proved against `Encode`, `FromSdk` and its call sequence
    `TxTplTrace`.
  - `TransferSpi` is proved against `Encode`, `Decode` and `FromSdk`.
- `monitoring.dfy`: the conversion.
  - `GetNtcCelsius` is the bisection, proved equal to the function `Celsius`.
  - `Celsius` finds the bracket by a reference linear scan.
  - Lemmas on `Celsius` state the range clamps, the bracket bounds, and how far an
    exact table entry reads from its own temperature (up to 9 tenths high).
  - Only the corrected conversion, `CorrectedCelsius`, reads every table entry back
    exactly (see Findings).

The code never writes bytes 5..7 of an outgoing 8-byte block. `tBuf` is an uninitialised stack array, so the model
takes it as a caller-supplied scratch buffer whose bytes 5..7 keep their old content
(`Codec.Encode`). Nothing downstream depends on those bytes (`Codec.DecodeIgnoresPadding`).

## Model

| member | source | states |
|---|---|---|
| Status.FromSdk | Sources/bcc_s32k144/bcc_peripheries.c:126-129 | STATUS_SUCCESS ⇔ BCC success, STATUS_TIMEOUT ⇔ COM_TIMEOUT, every other SDK failure ⇔ SPI_BUSY |
| Wait.CyclesForMs | Sources/bcc_s32k144/bcc_wait.h:52 | the result is a uint32; it is 0 for 0 ms or a clock below 1 kHz; without wrap it is freq/1000·ms and never exceeds freq·ms/1000 |
| Wait.CyclesForUs | Sources/bcc_s32k144/bcc_wait.h:55 | the result is a uint32; it is 0 for 0 µs or a clock below 1 kHz; without wrap it is freq/1000·us/1000 and never exceeds freq·us/10^6 |
| Wait.UsMatchesMs | Sources/bcc_s32k144/bcc_wait.h:52-55 | 1000·ms microseconds cost as many cycles as ms milliseconds when nothing wraps |
| Wait.MsMonotone | Sources/bcc_s32k144/bcc_wait.h:52 | a longer ms delay never yields fewer cycles when the product does not wrap |
| Wait.UsMonotone | Sources/bcc_s32k144/bcc_wait.h:55 | a longer µs delay never yields fewer cycles when the product does not wrap |
| Wait.MsWrapAround | Sources/bcc_s32k144/bcc_wait.h:52 | without that hypothesis monotonicity fails: 1001 ms at 4.294 GHz gives fewer cycles than 1000 ms |
| Wait.TenMsNeverWraps | Sources/bcc_s32k144/bcc_peripheries.c:307 | freq/1000·10 never wraps for any 32-bit clock frequency |
| Codec.Encode | Sources/bcc_s32k144/bcc_peripheries.c:95-99 | the wire block is 8 bytes; byte i is frame byte 3−i for i < 4; byte 4 is frame byte 4; bytes 5..7 are unchanged |
| Codec.Decode | Sources/bcc_s32k144/bcc_peripheries.c:283-287 | the frame is 5 bytes; frame byte i is wire byte 3−i for i < 4; frame byte 4 is wire byte 4 |
| Codec.DecodeEncode | Sources/bcc_s32k144/bcc_peripheries.c:95-99 | decoding an encoded frame gives the frame back, whatever the padding held |
| Codec.EncodeDecode | Sources/bcc_s32k144/bcc_peripheries.c:283-287 | re-encoding a decoded block over itself restores the block |
| Codec.DecodeIgnoresPadding | Sources/bcc_s32k144/bcc_peripheries.c:283-287 | two blocks decode alike iff their first five bytes agree |
| Codec.WireExample | Sources/bcc_s32k144/bcc_peripheries.c:95-99 | frame 12 34 56 78 0F travels as 78 56 34 12 0F and decodes back |
| Codec.EncodeInjective | Sources/bcc_s32k144/bcc_peripheries.c:95-99 | distinct frames have distinct wire images |
| Codec.DecodeBlocks | Sources/bcc_s32k144/bcc_peripheries.c:347-354 | n blocks decode to exactly 5·n bytes |
| Codec.DecodeBlocksAt | Sources/bcc_s32k144/bcc_peripheries.c:349-353 | frame i of a decoded batch is the decode of bytes 8i..8i+4, for every i < n |
| Codec.DecodeBlocksNext | Sources/bcc_s32k144/bcc_peripheries.c:349-353 | one more block appends the decode of its first five bytes to the batch |
| Codec.DecodeBlocksIgnoresPadding | Sources/bcc_s32k144/bcc_peripheries.c:347-354 | bytes 5..7 of each received block never reach `recvBuf` |
| Sdk.Lpspi.constructor | Sources/bcc_s32k144/bcc_peripheries.c:317-343 | the driver starts unarmed with an empty call trace and the given script |
| Sdk.Lpspi.SlaveTransfer | Sources/bcc_s32k144/bcc_peripheries.c:317-318 | arming records the byte count; on success the buffer and length are armed, otherwise nothing changes |
| Sdk.Lpspi.MasterTransferBlocking | Sources/bcc_s32k144/bcc_peripheries.c:275-276 | the sent block is recorded; on success the receive block holds what was clocked in, otherwise it is unchanged |
| Sdk.Lpspi.SlaveGetTransferStatus | Sources/bcc_s32k144/bcc_peripheries.c:333-334 | busy while the script says so, leaving the buffer untouched; then the final status, with the armed buffer filled from the slave stream |
| Sdk.Lpspi.SlaveAbortTransfer | Sources/bcc_s32k144/bcc_peripheries.c:328 | the reception is disarmed and the abort recorded |
| Sdk.Lpspi.ClearCsb | Sources/bcc_s32k144/bcc_peripheries.c:103 | CSB_TX low is recorded |
| Sdk.Lpspi.SetCsb | Sources/bcc_s32k144/bcc_peripheries.c:111 | CSB_TX high is recorded |
| Sdk.Lpspi.Wait | Sources/bcc_s32k144/bcc_peripheries.c:118 | the delay is recorded |
| Peripheries.TxTplTrace | Sources/bcc_s32k144/bcc_peripheries.c:101-129 | the calls of BCC_TransferTxTpl always include the one transfer of the wire block; there is 1 call in plain TPL, and in TPL_TRANSLT 4 on success and 3 on failure |
| Peripheries.TplStatus | Sources/bcc_s32k144/bcc_peripheries.c:317-344 | BCC_MCU_TransferTpl succeeds iff arm and transmission succeed and the slave finishes within the budget; it times out iff, once armed, the transmission times out or the slave stays busy for the whole budget; it never reports PARAM_RANGE |
| Peripheries.TplTrace | Sources/bcc_s32k144/bcc_peripheries.c:317-344 | the call sequence of BCC_MCU_TransferTpl starts by arming 8·recvTrCnt bytes, and the arm is the only call iff it fails |
| Peripheries.TplBudget | Sources/bcc_s32k144/bcc_peripheries.c:307 | the TPL budget computed with the 32-bit macro equals freq/1000·BCC_COM_TIMEOUT_MS exactly |
| Peripheries.TxTplNoSlaveCalls | Sources/bcc_s32k144/bcc_peripheries.c:101-129 | the TX half of a TPL exchange never polls or aborts the slave |
| Peripheries.TplArmsFirst | Sources/bcc_s32k144/bcc_peripheries.c:317-322 | the first call arms the slave for 8·recvTrCnt bytes and no later call re-arms it; a failed arm returns SPI_BUSY after that one call |
| Peripheries.TplAbortsOnFailure | Sources/bcc_s32k144/bcc_peripheries.c:325-344 | once armed, the slave is aborted exactly once, as the last call, iff the exchange fails; on success it is never aborted |
| Peripheries.TplTxFailure | Sources/bcc_s32k144/bcc_peripheries.c:325-330 | a failed transmission is returned as COM_TIMEOUT (SDK timeout) or SPI_BUSY, and the slave is never polled |
| Peripheries.TplWaitBound | Sources/bcc_s32k144/bcc_peripheries.c:333-344 | the slave is polled min(busy, budget)+1 ≤ budget+1 times; the result is COM_TIMEOUT iff busy ≥ budget, and success otherwise |
| Peripheries.TxTplDrivesCsb | Sources/bcc_s32k144/bcc_peripheries.c:101-129 | TPL_TRANSLT: CSB low, transfer, then CSB high once as the last call, after the 2 µs wait only on success; plain TPL never touches CSB |
| Peripheries.TransferTxTpl | Sources/bcc_s32k144/bcc_peripheries.c:88-133 | the block sent is Encode of the frame; the status is the SDK status mapped; the call sequence is TxTplTrace |
| Peripheries.TransferSpi | Sources/bcc_s32k144/bcc_peripheries.c:256-290 | sends Encode of the frame; on success `recvBuf` holds Decode of the received block and nothing else changes; on failure `recvBuf` is untouched and the SDK status is mapped |
| Peripheries.TransferTpl | Sources/bcc_s32k144/bcc_peripheries.c:299-357 | status is TplStatus and the call sequence TplTrace; on success `recvBuf` holds the blocks of the slave stream decoded in order; on failure `recvBuf` is untouched |
| Peripheries.WaitForSlave | Sources/bcc_s32k144/bcc_peripheries.c:332-337 | the loop polls min(busy, budget)+1 times and leaves budget − min(busy, budget); when budget is left, the buffer holds the received stream |
| Peripheries.StoreFrames | Sources/bcc_s32k144/bcc_peripheries.c:346-354 | the first 5·cnt bytes of `recvBuf` become DecodeBlocks of the received blocks; the rest are unchanged |
| Monitoring.CompTemp | Sources/monitoring.c:58-59 | the result minus the tenths is ten times (minimum temperature + slot) |
| Monitoring.CDiv | Sources/monitoring.c:188-189 | C division agrees with Euclidean division for a non-negative dividend and positive divisor |
| Monitoring.BracketUnique | Sources/monitoring.c:167-185 | in a descending table an in-range code has exactly one bracketing slot |
| Monitoring.LinearBracket | Sources/monitoring.c:167-181 | the reference linear scan returns a bracketing slot |
| Monitoring.Brackets | Sources/monitoring.c:167-186 | the exit condition of the bisection: the slot is not the last one, and the code lies between its entry and the next |
| Monitoring.Tenths | Sources/monitoring.c:188-189 | the as-written fraction (both divisions truncating) is in 0..19 for a code inside the slot |
| Monitoring.TenthsBounds | Sources/monitoring.c:188-189 | inside a bracket the fraction is in 0..19 and is 0 on the bracket's own entry |
| Monitoring.Celsius | Sources/monitoring.c:139-193 | success iff the code lies within the table's range; otherwise PARAM_RANGE |
| Monitoring.CelsiusTooHot | Sources/monitoring.c:152-156 | a code below the last entry reads as the maximum temperature with PARAM_RANGE |
| Monitoring.CelsiusTooCold | Sources/monitoring.c:157-161 | a code above the first entry reads as the minimum temperature with PARAM_RANGE |
| Monitoring.CelsiusInBracket | Sources/monitoring.c:167-190 | an in-range code in slot k reads with success between 10·(min+k) and 10·(min+k)+19 tenths |
| Monitoring.CelsiusFirstEntry | Sources/monitoring.c:157-190 | the first entry reads exactly as the minimum temperature |
| Monitoring.CelsiusAtEntry | Sources/monitoring.c:188-190 | entry i > 0 reads as its own temperature plus gap%10/(gap/10) tenths, which is at most 9 |
| Monitoring.NonMonotoneExample | Sources/monitoring.c:188-190 | with table [40, 21, 0], code 21 reads +19 tenths while the hotter code 20 reads +10 |
| Monitoring.CorrectedTenths | Sources/monitoring.c:188-189 | the corrected fraction is in 0..10, is 0 on the bracket's entry, and is 10 iff the code is the next entry |
| Monitoring.CorrectedCelsius | Sources/monitoring.c:139-193 | success iff the code lies within the table's range |
| Monitoring.CorrectedAtEntry | Sources/monitoring.c:188-190 | corrected, every entry reads back exactly as its own temperature |
| Monitoring.BracketOrder | Sources/monitoring.c:167-181 | a larger code lies in the same or an earlier bracket |
| Monitoring.CorrectedMonotone | Sources/monitoring.c:139-193 | corrected, a larger raw code never reads as a higher temperature, clamps included |
| Monitoring.NtcLayout | Sources/monitoring.c:396-404 | slot i holds the code of temperature minimum + i |
| Monitoring.LayoutIsNtcTable | Sources/monitoring.c:396-404 | a thermistor model with uint16 codes that drop by at least 10 per degree yields a table the conversion accepts |
| Monitoring.FillNtcTable | Sources/monitoring.c:390-405 | the filled table is NtcLayout from the minimum to the maximum temperature |
| Monitoring.GetNtcCelsius | Sources/monitoring.c:139-193 | the bisection returns exactly what Celsius (linear scan) specifies: the same status and temperature |

## Left out

- The SDK and board calls are scripted, not modelled. This covers LPSPI and GPIO
  configuration (`BCC_MCU_ConfigureLPSPI`), the CSB/RST/EN/INTB pin functions,
  `BCC_MCU_Assert`, `DEV_ASSERT` and the clock query.
  - The system clock frequency is the parameter `freq`.
  - Real time is not modelled. The budget counts polls, as in the code.
- Sdk.Lpspi.SlaveGetTransferStatus: a slave that ends with an error status counts as
  finished, as in the code (`BCC_MCU_TransferTpl` only compares the status with
  STATUS_BUSY). Partial reception and byte-level timing are not modelled.
- Peripheries.TransferTpl: requires `recvTrCnt <= 255`. The store loop counts with a
  `uint8_t`, so a larger count would never end.
- Peripheries.TransferTpl: the size of the local `rBuf` depends on `BCC_RX_BUF_SIZE_TPL`.
  That is defined in `bcc.h`, which is not part of this model, so the size becomes the
  parameter `rxFrames` with `recvTrCnt <= rxFrames`.
- The `SPI` and `TPL` build variants are chosen at compile time in the code. Here they
  are the `Variant` parameter.
- Monitoring.GetNtcCelsius: the line `regVal &= BCC_GET_MEAS_RAW(regVal)` is not
  modelled. The mask comes from `bcc.h`, which is not part of this model, and the model
  takes it to leave an in-range 16-bit code unchanged.
- Monitoring.GetNtcCelsius: `NTC_MINTEMP` and `NTC_MAXTEMP` come from a header that is
  not part of this model.
  - The minimum is the parameter `minTemp`.
  - The table size is the array length.
- Monitoring.GetNtcCelsius: the `int16_t` result is an unbounded integer, and the model
  does not prove that it fits in 16 bits. The `int8_t` fraction is proved to lie in
  0..19 (`Monitoring.Tenths`, `Monitoring.TenthsBounds`), so it always fits.
- Monitoring.GetNtcCelsius: requires a table with at least two entries, descending by at
  least 10 per slot. The code divides by `gap / 10`, which is zero for a smaller gap.
- Monitoring.FillNtcTable: the thermistor equation (`exp`, `round` on doubles) is the
  function parameter `code`. The model proves the index layout, not the numerics.
- The console output, measurement reading and fault handling of `monitoring.c` are not
  part of this model.

## Findings

| source | as written | input that shows it | evidently intended | confidence | as-written member | corrected member |
|---|---|---|---|---|---|---|
| Sources/monitoring.c:188-189 | degTenths = (t[left] − regVal) / ((t[left] − t[left+1]) / 10); the truncated divisor lets the fraction reach 10..19 tenths | table [40, 21, 0]: code 21 reads minimum + 1.9 °C while the hotter code 20 reads minimum + 1.0 °C, so the conversion is not monotone and an exact table entry is off by up to 0.9 °C | degTenths = (t[left] − regVal) · 10 / (t[left] − t[left+1]), in 0..10, exact on every entry and monotone | medium, not executed | Monitoring.NonMonotoneExample | Monitoring.CorrectedMonotone |

The corrected conversion is `Monitoring.CorrectedCelsius`. `Monitoring.CorrectedAtEntry`
proves that every table entry reads back exactly as its own temperature.
`Monitoring.GetNtcCelsius` still models the code as written.
