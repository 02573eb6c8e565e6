# Serial baud-rate stepping of the Septentrio GNSS driver, in Dafny

The driver reaches a GNSS receiver over one of four transports: TCP, a serial
line, a recorded SBF file or a recorded pcap file. This project models the one
algorithmic part of those transports. That part is the serial transport's
baud-rate stepping, `SerialIo::setBaudrate`, together with the fixed table of
baud rates it walks and the choice of flow-control flags that `SerialIo::connect`
makes before it.

- `baudrates.dfy` (module `Baudrates`): the 21-entry table as a sequence of
  `uint32` (a newtype for C++ `uint32_t`), and `uint8` for the loop index. It
  proves that the table is strictly increasing and that an 8-bit index covers it.
- `serial_port.dfy` (module `SerialPort`): the serial line as a class `Port`.
  It has a mutable `rate`, an operation counter `ops`, and a ghost history
  `calls` of every rate write (the rate in effect before the write, and the rate
  requested). `GetRate` and `SetRate` may fail. A `Device` decides their
  behaviour: `fails(n)` says whether operation number `n` raises an error, and
  `adopt(from, requested)` is the rate the line takes after a successful write.
  A failed write leaves the rate unchanged.
- `negotiation.dfy` (module `Negotiation`): `Negotiate` is the procedure as a
  function. It makes the initial read, then calls `Walk`, the table walk. `Walk`
  is defined over any table, and its properties are proved for any strictly
  increasing table. The driver's procedure is the walk over `Baudrates.Table`.
  The lemmas state which rates are written, that no skipped entry is written,
  how failures end the procedure, and what an ideal device reaches.
- `serial_io.dfy` (module `SerialIo`): the class `SerialIo`, with the requested
  rate and flow-control mode from the settings and its serial line. Its method
  `SetBaudrate` runs the source's loop with a `uint8` index and is proved equal
  to `Negotiate`. `SelectFlowControl` sets the `termios` flag words: CRTSCTS set
  for "RTS|CTS" and cleared otherwise, IXON and IXOFF always cleared.

The loop of `setBaudrate` is the method `SerialIo.WalkTable`, which takes the
table as a parameter. `SetBaudrate` calls it with `Baudrates.Table`. This keeps
the verifier from unfolding the 21-entry literal in every loop step. The
behaviour is the same as a loop that reads the global table directly.

Stepping up from 9600 to 115200 does not write 9600 itself. The skip test at
io.hpp:250-251 holds for that entry, because the line is already at 9600 and
the target is above it. `IdealStepUpFrom9600` proves that the writes are 19200,
38400, 57600 and 115200.

The loop stops only when the rate read back equals the requested rate
(io.hpp:246-249). Take an ideal device (no operation fails, and every write
is adopted as requested) and a start other than the requested rate. Then a
requested rate that is not in the table is never reached. Below 4000000, the
walk writes every entry it does not skip and ends at 4000000 (see
"## Findings"). Above 4000000, it ends at 4000000 or at the start, whichever is
higher. On other devices these conclusions need not hold:
- a device that adopts some other rate can land on the target;
- any failure makes the result false. `SetBaudrate` models the code as written. The corrected walk
`WalkToCeiling` stands beside it, with its own lemmas.

## Model

| member | source | states |
|---|---|---|
| Negotiation.Negotiate | include/septentrio_gnss_driver/communication/io.hpp:214-298 | The procedure: a failed first read returns false with no write, otherwise the table walk runs from position 0. It writes at most 21 rates, one per table entry |
| Negotiation.Walk | include/septentrio_gnss_driver/communication/io.hpp:244-298 | The walk from position i stops at the target or the end of the table, skips passed entries, and otherwise writes and re-reads. It makes at most one write per remaining table position |
| Baudrates.TableWellFormed | include/septentrio_gnss_driver/communication/io.hpp:50-53 | The table has 21 entries ending at 4000000, is strictly increasing, has no duplicates, and is shorter than 256, so the `uint8_t` index at line 244 cannot wrap |
| SerialPort.Port.GetRate | include/septentrio_gnss_driver/communication/io.hpp:216 | A read of the rate advances the operation counter, fails exactly when the device fails that operation, and otherwise returns the rate in effect without changing it |
| SerialPort.Port.SetRate | include/septentrio_gnss_driver/communication/io.hpp:258-259 | A write of the rate is recorded in the history. It fails exactly when the device fails that operation, and then the rate is unchanged. Otherwise the line takes the rate the device adopts |
| SerialIo.SerialIo.constructor | include/septentrio_gnss_driver/communication/io.hpp:121-126 | The transport keeps the configured flow-control mode, the requested rate and its serial line |
| SerialIo.SerialIo.SetBaudrate | include/septentrio_gnss_driver/communication/io.hpp:207-299 | The result, the final rate, the operation count and the writes appended to the history are exactly those of `Negotiate` on the starting rate |
| SerialIo.SerialIo.WalkTable | include/septentrio_gnss_driver/communication/io.hpp:244-294 | The `uint8_t`-indexed loop (stop at the target, skip passed entries, otherwise write and re-read, return false on any failure) ends with the result, rate, operation count and writes of `Walk` |
| Negotiation.Requested | include/septentrio_gnss_driver/communication/io.hpp:258-259 | Helper for stating the lemmas: the list of rates requested has one element per write, and element k is the rate of write k |
| Negotiation.WalkCallsWithinTable | include/septentrio_gnss_driver/communication/io.hpp:244-259 | The walk from index i writes only table entries at position i or later |
| Negotiation.AboveInTail | include/septentrio_gnss_driver/communication/io.hpp:50-53 | In a strictly increasing table, every entry after position i is above the entry at i |
| Negotiation.WalkCallsIncreasing | include/septentrio_gnss_driver/communication/io.hpp:244-259 | Over a strictly increasing table, the rates written are strictly increasing |
| Negotiation.CallsFromTable | include/septentrio_gnss_driver/communication/io.hpp:244-259 | Every rate `setBaudrate` writes is a table entry, the rates written are strictly increasing, and there are at most 21 of them |
| Negotiation.WalkRespectsSkip | include/septentrio_gnss_driver/communication/io.hpp:250-254 | Every write of the walk either goes above the rate in effect or goes to an entry at or above the target |
| Negotiation.CallsRespectSkip | include/septentrio_gnss_driver/communication/io.hpp:250-254 | An entry b is never written while the rate in effect is at or above b and the target is above b |
| Negotiation.WalkFailureIsFinal | include/septentrio_gnss_driver/communication/io.hpp:256-290 | The walk succeeds iff none of its operations fails. On failure, the failing operation is its last one and no earlier operation failed. On success it makes two operations per write. On failure the count is two per write or one fewer, the latter when the last write itself fails |
| Negotiation.FailureIsFinal | include/septentrio_gnss_driver/communication/io.hpp:214-298 | `setBaudrate` returns true iff no read or write it performs fails. A failed first read returns false with no write. Any failure is the last operation, so no write follows it |
| Negotiation.NoFailureMeansSuccess | include/septentrio_gnss_driver/communication/io.hpp:295-298 | On a device where nothing fails, the result is true whatever rate is reached |
| Negotiation.AlreadyAtTarget | include/septentrio_gnss_driver/communication/io.hpp:244-249 | When the first read already gives the requested rate, nothing is written, the rate is kept, and the result is that of the read |
| Negotiation.StepsUpAboveHigh | include/septentrio_gnss_driver/communication/io.hpp:50-53 | In a strictly increasing table, no entry after one at or above `high` lies at or below `high` |
| Negotiation.StepsUpLowIrrelevant | include/septentrio_gnss_driver/communication/io.hpp:50-53 | Entries after a position do not depend on any lower bound that lies below that position's entry |
| Negotiation.WalkIdealReachesTarget | include/septentrio_gnss_driver/communication/io.hpp:244-294 | On an ideal device with the target at table position t, the walk from i at most t succeeds and ends at the target. Going up, it writes every entry above the start up to the target. Going down, it makes a single write of the target |
| Negotiation.IdealReachesTarget | include/septentrio_gnss_driver/communication/io.hpp:238-294 | On an ideal device, a requested rate that is in the table is reached from above or below. Going up, the line steps through every table entry above its start up to the target. Going down, it jumps there in one write. Already there, it makes no write |
| Negotiation.WalkBestEffortAboveTable | include/septentrio_gnss_driver/communication/io.hpp:244-298 | On an ideal device with the target above the whole table, the walk succeeds. It ends at the last entry if the line was below it with entries left, and otherwise at the starting rate |
| Negotiation.BestEffortAboveTable | include/septentrio_gnss_driver/communication/io.hpp:295-298 | On an ideal device, from a start other than the requested rate, a requested rate above 4000000 is never reached, yet the result is true. The line ends at 4000000, or at its starting rate if that was higher |
| Negotiation.IdealStepUpFrom9600 | include/septentrio_gnss_driver/communication/io.hpp:244-294 | On an ideal device, going from 9600 to 115200 writes 19200, 38400, 57600 and 115200 and succeeds |
| Negotiation.WalkOvershoots | include/septentrio_gnss_driver/communication/io.hpp:244-294 | On an ideal device, with a target that is below the last entry, in no table position and different from the rate in effect, the walk from any position before the end succeeds and ends at the last entry |
| Negotiation.OvershootOffTable | include/septentrio_gnss_driver/communication/io.hpp:238-298 | On an ideal device, from a start other than the requested rate, a requested rate below 4000000 that is not in the table is never reached. The result is true and the line ends at 4000000 |
| Negotiation.OvershootFrom9600To100000 | include/septentrio_gnss_driver/communication/io.hpp:238-298 | On an ideal device, asking for 100000 from 9600 ends at 4000000 with result true |
| Negotiation.WalkToCeiling | include/septentrio_gnss_driver/communication/io.hpp:244-294 | Corrected walk, which also stops after writing an entry at or above the target. Like `Walk`, it makes at most one write per remaining table position |
| Negotiation.NegotiateToCeiling | include/septentrio_gnss_driver/communication/io.hpp:214-298 | The procedure with the corrected walk. It writes at most 21 rates |
| Negotiation.WalkToCeilingReachesCeiling | include/septentrio_gnss_driver/communication/io.hpp:238-240 | On an ideal device, if every entry before position i is below the target, the corrected walk succeeds and ends at a table entry that is at or above the target and at most every entry at or above it |
| Negotiation.ReachesCeiling | include/septentrio_gnss_driver/communication/io.hpp:238-240 | With the corrected walk, on an ideal device, any requested rate up to 4000000 ends at the smallest table entry at or above it, whether the line starts above or below |
| Negotiation.CeilingAgreesOnTableRates | include/septentrio_gnss_driver/communication/io.hpp:238-298 | For a requested rate in the table, the corrected procedure and `setBaudrate` both end at the requested rate |
| SerialIo.SelectFlowControl | include/septentrio_gnss_driver/communication/io.hpp:181-189 | CRTSCTS is set iff the mode is exactly "RTS|CTS". IXON and IXOFF are cleared. Every other bit of the input and control words, and the whole output and local words, are unchanged |
| SerialIo.SelectFlowControlIdempotent | include/septentrio_gnss_driver/communication/io.hpp:181-189 | Convenience lemma, not a promise of the source: applying the flow-control choice twice gives the same flags as applying it once |

## Findings

| source | as written | input that shows it | evidently intended | confidence | as-written member | corrected member |
|---|---|---|---|---|---|---|
| include/septentrio_gnss_driver/communication/io.hpp:238-298 | The loop stops only on an exact match with the requested rate, so a rate that is not in the table is never matched. The walk keeps writing up to 4000000 and returns true | `setBaudrate` called with the line at 9600 and a requested rate of 100000, on a device where every operation succeeds and every write is adopted: the line ends at 4000000. The same holds from 115200 with 600 requested: 1200 is written, then every entry up to 4000000. The only caller in the source, `connect`, writes the requested rate at io.hpp:165 before it calls `setBaudrate` at io.hpp:204. So the case needs another caller of the public `setBaudrate`, or a device that did not adopt that write | The comment at io.hpp:238-240 says the loop handles a requested rate below or above the current one. For a rate between two entries, the evident intent is to stop at the first entry at or above it | not executed; medium, because the settings may only ever supply table rates | Negotiation.OvershootOffTable | Negotiation.ReachesCeiling |

## Left out

- `TcpIo` (io.hpp:57-117): name resolution and socket connection over Boost.Asio. This is network I/O with nothing to prove beyond "return false on an exception".
- The open-retry loop of `SerialIo::connect` (io.hpp:139-162): it retries opening the device forever, with a one-second sleep between attempts. This is OS device I/O with no termination argument. It opens `port_`, which is never assigned from the settings (io.hpp:150, io.hpp:304).
- The line configuration in `SerialIo::connect` (io.hpp:165-172, io.hpp:174-178, io.hpp:190-202): `set_option` for the rate, parity, size, stop bits and flow control, then `tcgetattr`, `cfmakeraw`, `tcsetattr` and the low-latency `ioctl`. These are foreign OS calls whose effects are not visible in the source. They are not wrapped in `try`, so their exceptions leave `connect`. Line 165 writes the requested rate directly before `setBaudrate` runs. On a device that accepts that write, the first read of `setBaudrate` already sees the target, and `AlreadyAtTarget` says that nothing more is written.
- The 500 ms settle delay (io.hpp:270): timing only, modelled as nothing.
- All logging through `node_->log`: a side-effect sink with no behavioural content.
- `SbfFileIo` and `PcapFileIo` (io.hpp:312-401): file-descriptor and libpcap wrappers with nothing meaningful to prove.
- `close()` and the destructors of all four classes: direct calls into library close functions. Idempotence is not claimed, because `PcapFileIo::close` is not idempotent.
- The state of the line after a failed `set_option` is not visible in the source. The model (`SerialPort.Port.SetRate`) assumes the rate is unchanged; the procedure returns false at once in that case anyway.
