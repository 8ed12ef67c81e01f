# Ledger device SDK: APDU framing and dispatch engine, in Dafny

This project models the communication engine of the Ledger device SDK
(`ledger_device_sdk/src/io.rs`). The engine owns one 260-byte buffer.
That buffer holds the received command (APDU: a 4-byte header CLA, INS,
P1, P2, then an optional length-delimited data field). It is then reused
for the answer, which ends with a 2-byte status word.

The model has these parts:

- `Bytes`: the `u8`/`u16`/`u32` machine integers, the big-endian split of a
  status word, the little-endian join of the extended length, and `len as u8`
  truncation.
- `Status`: the `StatusWords` and `SyscallError` enumerations, `From<u32>`, and
  the three conversions into `Reply`.
- `Apdu`: the header view of bytes 0..3, and `get_data`, the length-field
  parser. It covers the short encoding and the non-conforming extended
  encoding (little-endian 16-bit length at bytes 5..6), including the `(0, 5)`
  and `(0, 6)` special cases. `get_data` recovers the header and data of every
  command a host-side encoder produces.
- `Dispatch`: the order of checks `decode_event` applies to a complete
  command, as a pure function `Decide`. The order is: length, data field, the
  built-in CLA 0xB0 system commands, the CLA filter, and last the
  application's decoder.
- `Io`: the `Comm` class, which holds the buffer as an `array<u8>`, the `rx`
  and `tx` cursors, the button state and `expected_cla`. It also has
  `Transport`, an object standing for the system's global `G_io_app`: the
  transport state, the announced length, and a ghost log of every answer
  handed to a transport. The methods `Reply`, `ReplyOk`, `Append`,
  `IndexMut`, `ApduSend` and `DecodeEvent` update these in place.
- `Scenarios`: two client runs of a fresh engine, one delivering a command and
  one rejecting a wrong CLA.

Collaborators the engine calls are parameters of `DecodeEvent`:

- the classification of packet tags (`seph::Events::from`);
- the button-edge decoder (`get_button_event`, with its state as the class's
  type parameter `B`);
- what the seph handler for the packet leaves behind (buffer contents,
  transport state, announced length);
- the app registry (`os_registry_get_current_app_tag`), which copies at most
  the room it is given;
- the application's header decoder, `ApduHeader -> Result<T, Reply>`.

`exit_app` becomes the outcome `Exited`. A Rust bounds-check panic inside
`decode_event` becomes the outcome `Panicked`: a reply with no room for its
status word, or an app-info write past the buffer.

Two behaviours of the code that the model keeps:

- The app-info command writes its marker at byte 0 and then does `tx += 1`.
  It does not append at `tx`, so a stale `tx` shifts the rest of the answer.
- `rx` and `tx` are not reset when a receive cycle starts. They are reset only
  when an answer is sent.

## Model

| member | source | states |
|---|---|---|
| `Bytes.Truncate` | ledger_device_sdk/src/io.rs:347 | `len as u8` keeps a count below 256 unchanged |
| `Bytes.BigEndianRoundTrip` | ledger_device_sdk/src/io.rs:451-452 | the high byte `sw >> 8` and the low byte `sw as u8` rejoin to `sw` |
| `Bytes.BigEndianSplit` | ledger_device_sdk/src/io.rs:278 | joining two bytes big-endian and splitting again gives back both bytes |
| `Status.StatusWordCodes` | ledger_device_sdk/src/io.rs:15-25 | each status word converts to its listed code, and no two share one |
| `Status.FromInfallible` | ledger_device_sdk/src/io.rs:80-84 | the infallible marker converts to the same reply as `Ok`, 0x9000 |
| `Status.SyscallReplyRange` | ledger_device_sdk/src/io.rs:71-75 | a system-call error converts to 0x6800 plus its code (2 to 11), inside 0x6802..0x680B; `Security` gives 0x6804 |
| `Status.SyscallRepliesDistinct` | ledger_device_sdk/src/io.rs:27-40 | distinct system-call errors give distinct replies, none equal to a named status word |
| `Status.FromU32Spec` | ledger_device_sdk/src/io.rs:42-57 | `from(u32)` maps 2..10 to the variant with that code and every other value to `Unspecified` |
| `Status.FromU32RoundTrip` | ledger_device_sdk/src/io.rs:29-57 | converting a variant to its code and back with `from` yields the variant |
| `Apdu.HeaderRoundTrip` | ledger_device_sdk/src/io.rs:117-128 | the header read back from its four bytes is the same header |
| `Apdu.GetData` | ledger_device_sdk/src/io.rs:471-494 | every accepted data field lies inside the first `rx` bytes, non-empty data starts at offset 5 or later, and every error is BadLen |
| `Apdu.GetDataNoData` | ledger_device_sdk/src/io.rs:472-473 | `rx == 4` gives empty data, whatever byte 4 holds |
| `Apdu.GetDataTooShort` | ledger_device_sdk/src/io.rs:471-492 | fewer than 4 received bytes always give BadLen |
| `Apdu.GetDataZeroFirstByte` | ledger_device_sdk/src/io.rs:483-485 | with byte 4 zero, `rx == 5` gives empty data and `rx == 6` gives BadLen |
| `Apdu.GetDataExtended` | ledger_device_sdk/src/io.rs:476-490 | with byte 4 zero and `rx >= 7`, L = byte 5 + 256 * byte 6; through the `get_data_from_buffer` check, BadLen exactly when L == 0 or 7 + L > rx, otherwise the data is bytes 7..7+L |
| `Apdu.GetDataShort` | ledger_device_sdk/src/io.rs:476-491 | with byte 4 = L non-zero (and `rx != 4`), through the `get_data_from_buffer` check, BadLen exactly when 5 + L > rx, otherwise the data is bytes 5..5+L |
| `Apdu.ExtendedEmptyRejected` | ledger_device_sdk/src/io.rs:476-478 | an extended length of zero is rejected with BadLen |
| `Apdu.GetDataRoundTrip` | ledger_device_sdk/src/io.rs:471-494 | for a buffer starting with a command encoded short or extended and received in full, the parser returns that header and exactly that data |
| `Apdu.Overwrite` | ledger_device_sdk/src/io.rs:500-505 | writing `m` at `at` changes exactly bytes `at..at+|m|` to `m` and keeps the length |
| `Apdu.OverwriteConcat` | ledger_device_sdk/src/io.rs:500-505 | appending `a` and then `b` gives the same buffer as appending `a + b` |
| `Apdu.AppendEachIsAppendConcat` | ledger_device_sdk/src/io.rs:500-505 | any number of successive `append` calls give the same buffer as one `append` of the chunks concatenated |
| `Apdu.AppendEach` | ledger_device_sdk/src/io.rs:500-505 | one `append` per chunk from `at` on keeps the buffer length; `AppendEachIsAppendConcat` gives its contents |
| `Dispatch.DeliverExactly` | ledger_device_sdk/src/io.rs:319-393 | a command reaches the application if and only if it has at least 4 bytes, a valid data field, is not a system command, passes the CLA filter and is decoded; it is then the decoder's value |
| `Dispatch.TooShortRejected` | ledger_device_sdk/src/io.rs:322-326 | fewer than 4 bytes are answered 0x6E03 before anything else is looked at |
| `Dispatch.BadDataRejected` | ledger_device_sdk/src/io.rs:328-332 | a malformed data field is answered with the parser's error, whatever the header |
| `Dispatch.SystemCommandIntercepted` | ledger_device_sdk/src/io.rs:334-370 | CLA 0xB0 with P1 = P2 = 0 is decided independently of the CLA filter and the decoder: INS 0x01 is app info, INS 0xA7 is exit, any other INS is answered 0x6E01 |
| `Dispatch.ClaMismatchRejected` | ledger_device_sdk/src/io.rs:372-378 | a non-system command whose CLA differs from the expected one is answered 0x6E00, independently of the decoder |
| `Dispatch.DecoderDecides` | ledger_device_sdk/src/io.rs:380-391 | past the earlier checks, a decoder error becomes the reply and a decoder success is delivered |
| `Io.Answered` | ledger_device_sdk/src/io.rs:451-452 | the status word goes big-endian into bytes `tx` and `tx+1`, and every other byte is kept |
| `Io.AnsweredReadsBack` | ledger_device_sdk/src/io.rs:449-452 | the two bytes written read back as the status word |
| `Io.AppInfoWrite` | ledger_device_sdk/src/io.rs:338-357 | when no bounds check panics, the app-info answer leaves room for the status word in the 260-byte buffer |
| `Io.AppInfoLayout` | ledger_device_sdk/src/io.rs:338-359 | from `tx = 0` the app-info answer fits exactly when name and version total at most 255 bytes, and then the bytes sent are `[0x01, nameLen] + name + [verLen] + ver + [0x90, 0x00]` |
| `Io.Transport.constructor` | src/c/src.c:280-287 | the transport state starts idle, with nothing announced and nothing sent |
| `Io.Comm.constructor` | ledger_device_sdk/src/io.rs:132-140 | zeroed buffer, `rx = tx = 0`, every CLA accepted |
| `Io.Comm.SetExpectedCla` | ledger_device_sdk/src/io.rs:156-159 | sets the expected CLA; cursors and button state unchanged |
| `Io.Comm.ApduSend` | ledger_device_sdk/src/io.rs:164-204 | the first `tx` bytes are handed over as one transmission when the state names USB-HID, raw, CCID or BLE, to that transport, and as none otherwise; then `tx`, `rx` and the transport state are reset |
| `Io.Comm.Reply` | ledger_device_sdk/src/io.rs:448-456 | with `tx + 2 <= 260`, writes `sw >> 8` at `tx` and `sw & 0xFF` at `tx+1`, sends exactly the first `tx + 2` bytes, and leaves `tx = rx = 0` |
| `Io.Comm.ReplyOk` | ledger_device_sdk/src/io.rs:460-462 | `reply` with 0x9000; from `tx = 0` it sends exactly `[0x90, 0x00]` |
| `Io.Comm.GetApduMetadata` | ledger_device_sdk/src/io.rs:465-469 | the header is buffer bytes 0..3 |
| `Io.Comm.GetData` | ledger_device_sdk/src/io.rs:471-494 | succeeds exactly when the parser does, and then returns the bytes of the parsed span; its only error is BadLen |
| `Io.Comm.Get` | ledger_device_sdk/src/io.rs:496-498 | returns the `end - start` bytes of the buffer from `start` on |
| `Io.Comm.Append` | ledger_device_sdk/src/io.rs:500-505 | writes `m` into bytes `tx..tx+|m|`, advances `tx` by `|m|`, and leaves every other byte unchanged |
| `Io.Comm.Index` | ledger_device_sdk/src/io.rs:508-513 | returns byte `idx` |
| `Io.Comm.IndexMut` | ledger_device_sdk/src/io.rs:515-520 | changes only byte `idx` and sets `tx` to `max(idx, tx)`, not `idx + 1` |
| `Io.Comm.Store` | ledger_device_sdk/src/io.rs:342-346 | the registry's copy into the buffer: bytes `at..at+|m|` become `m` and every other byte is kept |
| `Io.Comm.RunHandler` | ledger_device_sdk/src/io.rs:293-317 | only the USB-transfer (length at least 3), CAPDU and BLE handlers replace the buffer with their effect; these and the USB-event handler (length 1) set the transport state and length; other packets change nothing; nothing is sent |
| `Io.EntryWrite` | ledger_device_sdk/src/io.rs:342-356 | one registry entry at `t`: `None` exactly when `t + 1` is past the buffer; otherwise bytes before `t` are kept, byte `t` holds the entry's length as `len as u8`, and the next position is at most 260 |
| `Io.Comm.StoreEntry` | ledger_device_sdk/src/io.rs:342-356 | carries out `EntryWrite` on the buffer and `tx`, or reports the index panic |
| `Io.Comm.WriteAppInfo` | ledger_device_sdk/src/io.rs:340-356 | carries out `AppInfoWrite` on the buffer and `tx`, or reports that a bounds check panics |
| `Io.Comm.ReplyOrPanic` | ledger_device_sdk/src/io.rs:449-455 | `reply` inside `decode_event`: with `tx + 2 <= 260` the status word is answered as `Reply` states; otherwise the step ends `Panicked` with nothing sent |
| `Io.Comm.AnswerAppInfo` | ledger_device_sdk/src/io.rs:338-360 | carries out `AppInfoWrite` and replies Ok, or ends `Panicked` with nothing sent |
| `Io.Comm.Serve` | ledger_device_sdk/src/io.rs:319-393 | with no command ready, nothing changes and nothing is returned; otherwise `rx` takes the announced length and the action `Decide` picks is carried out: a reply with its status word, app info, Ok then exit, or the decoded command returned with the buffer untouched; from any `tx`, a reply with no room for the status word ends `Panicked`, while the paths that never reply need none |
| `Io.Comm.DecodeEvent` | ledger_device_sdk/src/io.rs:271-394 | a ticker packet returns `Ticker` and changes nothing; a button packet updates the button state and returns `Button` when the decoder yields an event; otherwise the handler's effect is applied and the command check runs as `Serve` states; nothing is required of `tx` on entry |
| `Scenarios.CommandThenReplyOk` | ledger_device_sdk/src/io.rs:319-393 | command 01 02 00 00 with no filter is delivered as INS 0x02, and `reply_ok` then sends `[0x90, 0x00]` over USB-HID |
| `Scenarios.WrongClaRejected` | ledger_device_sdk/src/io.rs:372-378 | with expected CLA 0xE0, a command of CLA 0xD0 is answered `[0x6E, 0x00]` and nothing reaches the application |

## Left out

- The transport side of `apdu_send` is not modelled. This covers the
  status-sent handshake, the loop that drains packets through
  `seph::handle_event` (assumed here to leave the buffer alone), and the
  HID, raw, CCID and BLE send calls with the raw transport's 3-byte frame
  header. All of this is reduced to at most one entry in the ghost `sent` log: none
  when the state names no transport. The
  reset of `apdu_media` is not modelled.
- The seph handlers and `ble::receive` are not part of this model. Their
  effect is an input to `DecodeEvent`: new buffer contents, transport state
  and announced length. The model assumes the handlers never announce more
  than the 260 bytes the buffer holds.
- The tag values of `seph::Events` are not part of this model. The tag
  classification is a parameter.
- `get_button_event` and `ButtonsState` are not part of this model. The edge
  decoder is a parameter and its state is the type parameter `B`.
- `os_registry_get_current_app_tag` is modelled as a parameter that returns
  at most the room it is given; it writes those bytes into the buffer.
- `exit_app` never returns, so it is modelled as the outcome `Exited`.
- `next_event` and `next_command` are unbounded blocking loops and are not
  modelled. The single step `decode_event` is. The reset of the transport
  state at the start of `next_event` is not modelled.
- The `unsafe` raw-address cast of `get_apdu_metadata` is modelled as a read of
  bytes 0..3. Its `assert!(len >= 4)` always holds.
- The commented-out length consistency check (io.rs lines 280-287) is not
  modelled.
- `src/c/src.c` (boot, relocation, flash writes, TRY/CATCH) is not modelled,
  apart from the initial state of `G_io_app` (src.c lines 280-287), which the
  constructor of `Io.Transport` takes.
- The `ccid` and `nanox` build options are not modelled: the CCID and BLE
  branches are always present.
- Out-of-bounds panics of the public methods called directly by the
  application are preconditions of `Reply`,
  `ReplyOk`, `Append`, `IndexMut`, `Index` and `Get`. The model does not
  describe what happens when they are violated.
- Io.Comm.ReplyOrPanic: with `tx = 259` the source writes the high byte at
  index 259 before the panic; the model's `Panicked` state does not describe
  that byte. `Io.Comm.Serve` and `Io.Comm.DecodeEvent` inherit this.
- Io.Comm.AnswerAppInfo: on `Panicked`, the contract states only that nothing
  was sent and the cursors stay in bounds (`Io.Comm.WriteAppInfo` and
  `Io.Comm.StoreEntry` likewise, on `false`). It does not describe the partly
  written buffer, because the device halts there. `Io.Comm.Serve` and
  `Io.Comm.DecodeEvent` inherit this.
