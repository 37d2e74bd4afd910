# picow-rssi: advertisement walker and send throttle

This project models the logic of `main.py` in picow-rssi, a MicroPython
program for the Raspberry Pi Pico W. The program listens for BLE scan results
and forwards each device's address, signal strength (RSSI) and advertised name
to an IFTTT webhook. It sends at most once per second per device.

The program has three parts:

- `parse_adv_data` walks the advertising payload. The payload is a run of AD
  structures, each laid out as `[length][AD type][length - 1 data bytes]`
  (Bluetooth Core Specification, Volume 3, Part C, section 11). The walk
  returns the first Local Name it can decode (AD type 0x08 Shortened or 0x09
  Complete). If every name it met failed to decode, it returns
  `"Decode Error"`. Otherwise, and for an empty name, it returns `"Unknown"`.
- `send_to_ifttt` is the throttle. Its state maps each address key to the
  `utime.time()` second of that address's last completed send. It posts only
  when the address has no entry or at least one second has passed. It records
  the time only after the POST completed.
- `bt_irq` is the interrupt handler. It acts only on event code 5, a scan
  result. For such an event it turns the address into its lowercase hex string
  with `hexlify`, walks the payload and hands both to the throttle.

Modules:

- `Wrappers` (wrappers.dfy) defines `Option`.
- `Bytes` (bytes.dfy) defines the `byte` type, integers 0..255.
- `AdvParser` (adv_parser.dfy) covers the walker. It has three layers: the
  cursor walk exactly as the loop is written (`Walk`, `ParseAdvData`,
  `ParseAdvDataLoop`), the framing of a payload into AD structures with its
  inverse (`SplitFrom`/`Split`, `Serialize`), and a declarative statement of which name a
  list of structures yields (`SpecName`). `ParseAdvDataMatchesSpec` proves the
  first layer agrees with the third.
- `Hex` (hex.dfy) covers `hexlify`. It includes an inverse, which proves that
  distinct addresses get distinct keys.
- `Throttle` (throttle.dfy) covers `send_to_ifttt` as a pure step from
  (map, address, clock reading, POST outcome) to (attempted request, new map).
- `ScanEvents` (scan_events.dfy) covers `bt_irq` and runs of it over a stream
  of deliveries, with the throttle's promise stated over whole runs.

The UTF-8 decoder is a parameter, `decode: seq<byte> -> Option<string>`.
`None` stands for a decode failure that the `except` clause at main.py:70
catches (see "Left out" for what this assumes).
The clock reading and the outcome of the HTTP POST come with each delivery.

A decode failure does not end the walk (main.py:67-72). It sets the name to
`"Decode Error"` and the loop goes on. A later name that decodes replaces it,
and a later empty name turns it into `"Unknown"`. `DecodeFailureContinues`
states this.

## Model

| member | source | states |
|---|---|---|
| AdvParser.ParseAdvData | main.py:55-73 | The result is never the empty string. A payload shorter than two bytes, or one whose first length byte is 0, yields "Unknown". |
| AdvParser.ParseAdvDataMatchesSpec | main.py:55-73 | For every payload and decoder, the cursor walk gives the declarative name of the framed structures: the first name structure that decodes gives its text ("Unknown" if that text is empty); otherwise "Decode Error" if any name structure was met; otherwise "Unknown". |
| AdvParser.WalkMatchesStructures | main.py:58-72 | The loop from any cursor, entered with an empty name or with "Decode Error", yields the first decodable name among the structures from that cursor on. If none decodes, it yields "Decode Error" when it entered with that name or a name structure remains, and the empty name otherwise. |
| AdvParser.ParseAdvDataLoop | main.py:55-73 | The while loop with its three early exits computes the declarative name of the framed structures, which equals the cursor model. |
| AdvParser.PySlice | main.py:65 | A Python slice with non-negative bounds never fails. Its length is the clamped range and element k is element lo + k of the payload. |
| AdvParser.SplitFrom | main.py:58-72 | From cursor i, a payload of n bytes frames into at most (n - i)/2 structures. Each step advances the cursor by length + 1 >= 2, so the walk terminates. |
| AdvParser.SplitFromBehind | main.py:58-72 | Framing from a cursor past a prefix never looks at the prefix: it equals framing the remaining bytes alone. |
| AdvParser.SplitStructuresBounded | main.py:61-65 | Every structure the walk visits has a non-zero length and carries fewer data bytes than its length: the data slice is cut short, never read past the payload. |
| AdvParser.OverrunIsTruncated | main.py:65 | A declared length that runs past the payload keeps only the bytes present and ends the framing. |
| AdvParser.SplitEncodePrefix | main.py:61-72 | A well-formed structure in front of any bytes is read back as itself, and the walk continues right after it. |
| AdvParser.SplitSerialize | main.py:58-72 | Framing undoes laying out well-formed structures back to back. |
| AdvParser.FirstDecodedCharacterization | main.py:66-69 | The first decoded name is s if and only if some name structure decodes to s and no earlier name structure decodes. |
| AdvParser.NonNameStructureIgnored | main.py:66-72 | A well-formed structure whose type is not 0x08 or 0x09, at the front of the payload, does not change the result; it only moves the cursor. |
| AdvParser.NonNameStructureIgnoredAnywhere | main.py:58-72 | A well-formed structure whose type is not 0x08 or 0x09, placed after any well-formed structures and before any bytes, does not change the result. |
| AdvParser.SerializePrefixSplit | main.py:58-72 | Well-formed structures laid out in front of any payload are framed back as themselves, followed by the framing of that payload. |
| AdvParser.FirstDecodedNameWins | main.py:66-69 | A leading name structure that decodes to s decides the result ("Unknown" if s is empty), whatever bytes follow. |
| AdvParser.DecodeFailureContinues | main.py:67-72 | A leading name structure that fails to decode does not stop the walk: the result is "Decode Error" only if no later name decodes; otherwise it is what the rest of the payload gives. |
| AdvParser.EmptyNameIsUnknown | main.py:68-73 | With a decoder that maps no bytes to "", a length-1 name structure at the front yields "Unknown". |
| Hex.Hexlify | main.py:79 | The key has two characters per address byte, all lowercase hex digits. |
| Hex.HexlifyAt | main.py:79 | Byte k of the address becomes characters 2k and 2k+1 of the key: high nibble, then low nibble. |
| Hex.UnhexlifyHexlify | main.py:79 | Reading the key back as hex pairs recovers the address. |
| Hex.HexlifyInjective | main.py:79 | Distinct addresses get distinct throttle keys. |
| Throttle.SendToIfttt | main.py:41-52 | A request is attempted if and only if the address has no entry or at least one second has passed. The request carries (address, RSSI, name). A completed send sets only that address's entry to now. A skip or failed POST leaves the map unchanged. Other addresses never change, and no entry ever decreases. |
| Throttle.SameSecondIsSkipped | main.py:42-52 | After a completed send, another call for the same address in the same second is skipped. |
| Throttle.FailedSendStaysDue | main.py:43-50 | After a failed POST the address is still due at any later reading, so the next scan result retries. |
| ScanEvents.BtIrq | main.py:76-81 | An event code other than 5 attempts nothing and leaves the map unchanged. For code 5, a request is attempted if and only if the hex key is due. Its payload is the hex key, the RSSI and the walked name, which is never empty. |
| ScanEvents.Run | main.py:76-81 | A run attempts at most one request per delivery, and no address's recorded time ever decreases. |
| ScanEvents.SendsAfterRecorded | main.py:43-50 | In any run, every completed send for an address comes at least one second after the time recorded for it when the run began. |
| ScanEvents.CompletedSendsAreSpaced | main.py:41-52 | In any run, two completed sends for the same address are at least one second apart. This needs no assumption that the clock is monotonic. |
| ScanEvents.OtherEventsIgnored | main.py:76-81 | Dropping every non-scan-result delivery from a run changes neither its requests nor its final map. |
| ScanEvents.UnsentAddressesUnchanged | main.py:43-52 | An address with no completed send in a run keeps its presence and its recorded time. |
| ScanEvents.ThrottleScenario | main.py:41-52 | Scan results for one address at seconds 0, 0 and 1 produce exactly two completed sends, at 0 and at 1. |

## Left out

- `connect_wifi` (main.py:25-34) is left out. It is hardware I/O with a busy-wait.
- BLE activation, IRQ registration and scan parameters (main.py:97-104) are left out. They are radio set-up.
- The HTTP POST, its URL and key formatting, headers and response printing (main.py:44-49) are an abstract dispatch. Each delivery says whether the POST completed. If it raises, line 50 is not reached and the map is unchanged.
- The `print` calls (main.py:48-49, 52) are left out. They are console output only.
- Loading the environment and the fail-fast configuration checks (main.py:8-21, 91-92) are left out. They are configuration glue.
- The idle `while True: sleep` loop (main.py:107-108) is left out.
- The UTF-8 decoder is a parameter and is not modelled. Properties that rely on `b"".decode()` giving `""` take it as a hypothesis.
- `utime.time()` is a parameter: each delivery carries its whole-second reading. The clock is not assumed to be monotonic.
- The model treats interrupts as processed one after another, each running to completion.
- The scan-result fields `addr_type` and `adv_type` are carried in `ScanResult` but unused, as in the source.
- `main.py` has no distance estimator, device registry, console table or timer-driven dispatch, so none is modelled.
- The model assumes that a failed `bytes(data).decode("utf-8")` is caught by the `except UnicodeDecodeError` clause (main.py:70). The program imports `utime`, `ubinascii` and `ubluetooth`, so it targets MicroPython. There a failed decode may raise `UnicodeError`, and the name `UnicodeDecodeError` may not exist. In that case line 70 raises instead of setting `"Decode Error"`, and `DecodeFailureContinues` describes a branch the runtime never takes.
- `Run` assumes that the runtime keeps calling the interrupt handler after a call in which the POST raised (`postOk` false). In the source that exception escapes `bt_irq`, and the model does not cover what MicroPython does with an uncaught exception in an IRQ callback.
