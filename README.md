# euphonium firmware core, modelled in Dafny

This project models three parts of the euphonium audio firmware and proves
properties of them.

- **Storage accessor** (`src/core/main/app/StorageAccessor.cpp`). A worker task
  owns the file system and serves one operation at a time through a shared
  operation slot. Reads go to a string, to a byte vector, or, for HTTP, to a
  network connection. An HTTP read sends an HTTP/1.1 response head and then the
  file in chunks of `HTTP_CHUNK_SIZE` bytes. A `.gz` variant is used when the
  plain file is missing; it is announced with `Content-Encoding: gzip` and typed
  by the plain name. Writes replace a file's contents.
  - Files: `basics.dfy`, `format.dfy` (the `printf` subset), `negotiation.dfy`
    (suffix test, MIME type, response head), `chunk_stream.dfy` (the chunk loop
    and `size_t` arithmetic), `storage_accessor.dfy` (the slot, one worker turn,
    the API).
- **Rotary encoder** (`targets/esp32/app/main/driver/Rotary.cpp`, `rotary.dfy`).
  A table-driven quadrature decoder. The full-step table emits once per detent.
  The half-step table (the `HALF_STEP` compile switch, here a constructor flag)
  emits twice.
- **WiFi driver** (`targets/esp32/app/main/driver/WiFiDriver.cpp`,
  `wifi_driver.dfy`). The connection state `isConnecting`, `reconnectCount`,
  `connected` and `fromAp`. The event handler's state machine with its bounded
  retry counter. The entry points `tryToConnect`, `setupAP` and `startFastScan`.
  The MAC-address text.

State that the source changes in place is modelled imperatively:

- The accessor is a class with the operation slot, the files and the chunk
  buffer `mgBuffer` as an array. `Step` is one turn of the `runTask` loop; its
  chunk loop is the method `StreamBody`.
- The encoder is a class with `state` and `inverter`.
- The WiFi globals are a class with the flags and the scan buffer `ap_info` as
  an array.

Each of these methods is proved against a pure specification function:
`RunCycle`, `Next` and `React`. The properties are then proved about those
functions.

Inputs from outside the model become parameters:

- the levels `gpio_get_level` reports;
- the successive return values of `mg_write`;
- the scan records;
- the IP address;
- the MAC bytes;
- whether a file opens for writing.

ESP-IDF calls and event-bus posts are returned as a sequence of `Effect` values.

Constants defined in headers that are not part of this model are fixed when an
object is built:

- `HTTP_CHUNK_SIZE`;
- `MAX_RECONNECT_COUNT`;
- `DEFAULT_SCAN_LIST_SIZE`.

The direction codes `DIR_CW` and `DIR_CCW` also come from a header that is not
part of this model. They are module constants of `Rotary`, assumed to be 0x10
and 0x20; they are not constructor parameters.

`size_t` and `int` are 32 bits wide, as on the ESP32.

Where the code and its documentation disagree, the model follows the code:

- **Short writes.** The chunk loop never treats a short `mg_write` as a failure.
  A short write leaves bytes owed, so with a well-behaved connection the loop
  never finishes (`HttpReadAnswersOnlyIfAllWritten`).
- **The failure branch is dead.** The loop's failure branch tests
  `writtenBytes < 0` on a `size_t`, which can never be negative. An `mg_write`
  error of -1 therefore makes the bytes owed grow by one
  (`ErrorReplyGrowsBytesLeft`). An HTTP read of an existing file always ends in
  `SUCCESS`.
- **Where the full-step table emits.** The comment above the full-step table
  says it emits at 00. The table emits on contact pair 11 (`FullStepEmissions`).

## Model

| member | source | states |
|---|---|---|
| Negotiation.StrEndsWith | src/core/main/app/StorageAccessor.cpp:115-123 | true exactly when the string is some prefix followed by the ending; false whenever the ending is longer |
| Negotiation.ContentType | src/core/main/app/StorageAccessor.cpp:189-196 | the MIME type is one of html, javascript, css and plain; plain only when neither `.html` nor `.js` matched |
| Negotiation.Negotiate | src/core/main/app/StorageAccessor.cpp:183-196 | the gzip header is added exactly when the resolved path ends with `.gz`, otherwise the extra headers are empty; the type is one of the four |
| Negotiation.ExtensionsExclusive | src/core/main/app/StorageAccessor.cpp:189-196 | no path ends with two of `.html`, `.js`, `.css` |
| Negotiation.ContentTypeByExtension | src/core/main/app/StorageAccessor.cpp:180-196 | each MIME type is chosen exactly when the path has its extension; `text/plain` exactly when it has none |
| Negotiation.ContentTypeExamples | src/core/main/app/StorageAccessor.cpp:189-196 | `index.html`, `app.js`, `style.css`, `data.bin` get html, javascript, css, plain |
| Negotiation.NegotiateGzipVariant | src/core/main/app/StorageAccessor.cpp:183-196 | `p.gz` is served with `Content-Encoding: gzip` and the MIME type of `p` |
| Negotiation.NegotiatePlain | src/core/main/app/StorageAccessor.cpp:181-187 | a path without `.gz` gets no extra header |
| Negotiation.Int32 | src/core/main/app/StorageAccessor.cpp:202 | the `(int)` cast yields a 32-bit value congruent to the size modulo 2^32 |
| Negotiation.ResponseHead | src/core/main/app/StorageAccessor.cpp:198-202 | the head starts with `HTTP/1.1 ` and ends with `Connection: close` and the empty line |
| Negotiation.StatusCodeDigits | src/core/main/app/StorageAccessor.cpp:198-201 | status 200 prints as `200` |
| Negotiation.HeadShape | src/core/main/app/StorageAccessor.cpp:198-202 | the head format renders as its literal runs interleaved with the four rendered arguments |
| Negotiation.ResponseHeadLayout | src/core/main/app/StorageAccessor.cpp:198-202 | the head is the status line, Content-Type, the optional encoding line, Content-Length, Connection: close and the empty line |
| Negotiation.ContentLengthExact | src/core/main/app/StorageAccessor.cpp:202 | below 2^31 bytes Content-Length is the size's decimal digits and reads back as the size |
| Negotiation.ContentLengthWrapsNegative | src/core/main/app/StorageAccessor.cpp:202 | from 2^31 to 2^32-1 bytes Content-Length is printed negative |
| Format.Digits | src/core/main/app/StorageAccessor.cpp:198-202 | digits of the base, no leading zero, one digit exactly below the base |
| Format.DigitsRoundTrip | src/core/main/app/StorageAccessor.cpp:198-202 | parsing the printed digits gives the number back |
| Format.Decimal | src/core/main/app/StorageAccessor.cpp:198-202 | `%d` prints a minus sign exactly for negatives, then decimal digits that parse back to the magnitude |
| Format.Hex2 | targets/esp32/app/main/driver/WiFiDriver.cpp:172-173 | `%02x` prints at least two hex digits, exactly two below 256, that parse back to the value |
| Format.Sprintf | src/core/main/app/StorageAccessor.cpp:198-202 | the rendered text is at least as long as the format's literal runs together |
| Format.SprintfStartsWith | src/core/main/app/StorageAccessor.cpp:198-202 | the text starts with the format's leading literal run |
| Format.SprintfEndsWith | src/core/main/app/StorageAccessor.cpp:198-202 | the text ends with the format's trailing literal run |
| Format.Hex2OfByte | targets/esp32/app/main/driver/WiFiDriver.cpp:172-173 | `%02x` of a byte is its high and low hex digits, which parse back to the byte |
| ChunkStream.SizeT | src/core/main/app/StorageAccessor.cpp:141 | conversion to `size_t` is below 2^32, identity on its range, adds 2^32 to negatives of one range |
| ChunkStream.IntToSize | src/core/main/app/StorageAccessor.cpp:216-217 | the `int` reply of `mg_write` as `size_t`: unchanged when non-negative, below 2^32 |
| ChunkStream.SizeSub | src/core/main/app/StorageAccessor.cpp:225 | `mgBytesLeft -= writtenBytes` stays below 2^32 and is the plain difference when no wrap occurs |
| ChunkStream.SizeArithmeticIsModular | src/core/main/app/StorageAccessor.cpp:216-225 | both conversions agree with reduction modulo 2^32 |
| ChunkStream.CeilDiv | src/core/main/app/StorageAccessor.cpp:205-207 | the least `k` with `a <= k * b`, zero exactly for zero |
| ChunkStream.ChunksFlatten | src/core/main/app/StorageAccessor.cpp:204-227 | the reference pieces concatenate to the rest of the file |
| ChunkStream.ChunkCount | src/core/main/app/StorageAccessor.cpp:204-227 | there are `ceil(S / HTTP_CHUNK_SIZE)` pieces |
| ChunkStream.ChunkSizes | src/core/main/app/StorageAccessor.cpp:206-207 | every piece holds the chunk size, except the last, which holds 1 to the chunk size |
| ChunkStream.ReadSize | src/core/main/app/StorageAccessor.cpp:206-213 | bytes read per turn are at most the bytes owed, the chunk size and the rest of the file, and equal one of them |
| ChunkStream.Pump | src/core/main/app/StorageAccessor.cpp:205-227 | the loop's counters stay in range; it takes at most one turn per reply |
| ChunkStream.Sent | src/core/main/app/StorageAccessor.cpp:204-227 | at most one buffer per reply |
| ChunkStream.SentTurns | src/core/main/app/StorageAccessor.cpp:205-227 | one buffer is written per turn of the loop |
| ChunkStream.PumpStops | src/core/main/app/StorageAccessor.cpp:205 | the loop ends owing nothing or with every reply used |
| ChunkStream.WellBehavedPointwise | src/core/main/app/StorageAccessor.cpp:216-226 | "never more than given" holds exactly when every reply lies between 0 and its buffer's size |
| ChunkStream.WellBehavedToPointwise | src/core/main/app/StorageAccessor.cpp:216-226 | the recursive reading implies the per-buffer reading |
| ChunkStream.WellBehavedFromPointwise | src/core/main/app/StorageAccessor.cpp:216-226 | the per-buffer reading implies the recursive reading |
| ChunkStream.AllAcceptedPointwise | src/core/main/app/StorageAccessor.cpp:216-226 | "every buffer taken whole" holds exactly when every reply equals its buffer's size |
| ChunkStream.AllAcceptedToPointwise | src/core/main/app/StorageAccessor.cpp:216-226 | the recursive reading implies the per-buffer reading |
| ChunkStream.AllAcceptedFromPointwise | src/core/main/app/StorageAccessor.cpp:216-226 | the per-buffer reading implies the recursive reading |
| ChunkStream.PumpAllAccepted | src/core/main/app/StorageAccessor.cpp:204-227 | if every buffer is taken whole, the loop sends exactly the reference pieces, owes nothing and reaches the end of the file |
| ChunkStream.PumpOvershoot | src/core/main/app/StorageAccessor.cpp:219-226 | once more bytes are owed than the file has left, a well-behaved connection never ends the loop |
| ChunkStream.PumpFinishedOnlyIfAllAccepted | src/core/main/app/StorageAccessor.cpp:205-227 | with a well-behaved connection, the loop finishes only if every buffer was taken whole |
| ChunkStream.ErrorReplyGrowsBytesLeft | src/core/main/app/StorageAccessor.cpp:216-226 | an `mg_write` error (-1) makes the bytes owed grow by one instead of failing |
| StorageAccessor.Resolve | src/core/main/app/StorageAccessor.cpp:136-154 | a file is found exactly when the path or its `.gz` variant exists; the path itself wins; what is found is one of the two and exists |
| StorageAccessor.RunCycle | src/core/main/app/StorageAccessor.cpp:133-255 | reads leave the files alone; the connection gets a head exactly for a successful HTTP read; only such a read can leave the caller unanswered |
| StorageAccessor.ReadBack | src/core/main/app/StorageAccessor.cpp:139-172 | a read delivers a prefix of the file: the whole file below 4 GiB |
| StorageAccessor.CycleSettlesStatus | src/core/main/app/StorageAccessor.cpp:133-255 | a worker turn never leaves the status pending; kind, format, path and connection stay |
| StorageAccessor.ReadSucceedsIffFound | src/core/main/app/StorageAccessor.cpp:135-234 | a read succeeds exactly when the path or its `.gz` variant exists; files unchanged; a memory read answers and sends nothing |
| StorageAccessor.ReadDeliversContents | src/core/main/app/StorageAccessor.cpp:144-173 | a text or binary read delivers the file, the plain path taking precedence over `.gz`, and leaves the other data field alone |
| StorageAccessor.WriteReplacesFile | src/core/main/app/StorageAccessor.cpp:237-255 | a write succeeds exactly when the file opens, and then replaces that file's contents and no other file |
| StorageAccessor.WriteThenReadRoundTrip | src/core/main/app/StorageAccessor.cpp:28-62 | writing a text and reading it back, as text or bytes, gives the text |
| StorageAccessor.HttpReadHead | src/core/main/app/StorageAccessor.cpp:176-202 | an HTTP read of an existing file succeeds and first sends the head negotiated from the opened file |
| StorageAccessor.HttpReadMissing | src/core/main/app/StorageAccessor.cpp:231-234 | a missing file fails, answers the caller and sends nothing |
| StorageAccessor.HttpReadEmptyFile | src/core/main/app/StorageAccessor.cpp:144-205 | an empty file, found under the path or under its `.gz` fallback, is the head for that file with length 0 alone, and the caller is answered |
| StorageAccessor.HttpReadStreamsFile | src/core/main/app/StorageAccessor.cpp:204-227 | with every buffer taken whole, the body is the file's reference pieces, concatenates to the file, and the caller is answered |
| StorageAccessor.HttpReadAnswersOnlyIfAllWritten | src/core/main/app/StorageAccessor.cpp:205-227 | with a well-behaved connection, the caller is answered only if every buffer was written whole |
| StorageAccessor.Accessor.constructor | src/core/main/app/StorageAccessor.cpp:7-24 | the slot starts as a successful text read of no path, with no connection; a fresh chunk buffer |
| StorageAccessor.Accessor.StreamBody | src/core/main/app/StorageAccessor.cpp:204-227 | the chunk loop writes exactly `Sent` and ends owing `Pump`'s bytes left |
| StorageAccessor.Accessor.ReadChunk | src/core/main/app/StorageAccessor.cpp:209-213 | the buffer then holds the `n` file bytes at the position |
| StorageAccessor.Accessor.Step | src/core/main/app/StorageAccessor.cpp:125-257 | one worker turn leaves slot, files and connection as `RunCycle` says, and counts a response exactly when it answers |
| StorageAccessor.Accessor.ReadFile | src/core/main/app/StorageAccessor.cpp:28-45 | returns the file's text, or fails exactly when neither the path nor `.gz` exists; files unchanged, nothing on the connection, the slot as the worker's turn leaves it, one answer |
| StorageAccessor.Accessor.ReadFileBinary | src/core/main/app/StorageAccessor.cpp:64-79 | returns the file's bytes, or fails exactly when neither the path nor `.gz` exists; files unchanged, nothing on the connection, the slot as the worker's turn leaves it, one answer |
| StorageAccessor.Accessor.WriteFile | src/core/main/app/StorageAccessor.cpp:47-62 | fails exactly when the file cannot be opened; otherwise the file holds the body; nothing on the connection, the slot as the worker's turn leaves it, one answer |
| StorageAccessor.Accessor.ReadFileToSocket | src/core/main/app/StorageAccessor.cpp:98-113 | throws exactly when neither file exists; otherwise returns once all bytes are written, or is still waiting and no answer was given; the connection and the slot as the worker's turn leaves them |
| Rotary.FullStepTable | targets/esp32/app/main/driver/Rotary.cpp:46-61 | the full-step table has seven rows of four columns |
| Rotary.HalfStepTable | targets/esp32/app/main/driver/Rotary.cpp:23-36 | the half-step table has six rows of four columns |
| Rotary.Table | targets/esp32/app/main/driver/Rotary.cpp:16-61 | the compiled table: six or seven rows of four columns, and `R_START` stays put on contacts 11 |
| Rotary.NextIgnoresEmitBits | targets/esp32/app/main/driver/Rotary.cpp:97 | the direction bits a state carries do not change the next transition: only `state & 0xf` selects the row |
| Rotary.PinState | targets/esp32/app/main/driver/Rotary.cpp:93-95 | the contact pair is a column index 0..3 |
| Rotary.PinStateInversion | targets/esp32/app/main/driver/Rotary.cpp:93-95 | without inversion the column is `2*level2 + level1`; with inversion it is its complement `3 - (...)` |
| Rotary.Next | targets/esp32/app/main/driver/Rotary.cpp:97 | the next state names a row of the table and emits none, CW or CCW |
| Rotary.TableClosed | targets/esp32/app/main/driver/Rotary.cpp:16-61 | every table row has four entries; each names a row of its table and carries at most one direction |
| Rotary.FullStepEmissions | targets/esp32/app/main/driver/Rotary.cpp:46-61 | full step: CW exactly from `R_CW_FINAL` on 11, CCW exactly from `R_CCW_FINAL` on 11, back at `R_START` |
| Rotary.HalfStepEmissions | targets/esp32/app/main/driver/Rotary.cpp:23-36 | half step: CW/CCW exactly from a first-half begin state on 00 or a second-half begin state on 11 |
| Rotary.Run | targets/esp32/app/main/driver/Rotary.cpp:91-100 | one code per contact pair read |
| Rotary.After | targets/esp32/app/main/driver/Rotary.cpp:97 | the state after a run of contact pairs stays within the table |
| Rotary.FullStepDetents | targets/esp32/app/main/driver/Rotary.cpp:46-61 | a clockwise detent emits one CW at its end; a counter-clockwise detent emits one CCW |
| Rotary.FullStepClockwiseEndsAtRest | targets/esp32/app/main/driver/Rotary.cpp:46-61 | after a clockwise detent the state number is `R_START` |
| Rotary.FullStepCounterClockwiseEndsAtRest | targets/esp32/app/main/driver/Rotary.cpp:46-61 | after a counter-clockwise detent the state number is `R_START` |
| Rotary.FullStepBounce | targets/esp32/app/main/driver/Rotary.cpp:46-61 | contact bounce before a detent completes emits nothing |
| Rotary.HalfStepDetents | targets/esp32/app/main/driver/Rotary.cpp:16-36 | the half-step table emits at the half detent and again at the full detent |
| Rotary.RestIsQuiet | targets/esp32/app/main/driver/Rotary.cpp:23-61 | resting on 11 from `R_START` emits nothing and ends in `R_START`, in either table |
| Rotary.FullStepRestAtZero | targets/esp32/app/main/driver/Rotary.cpp:46-48 | in the full-step table, resting on 00 from `R_START` emits nothing and ends in `R_START` |
| Rotary.Rotary.constructor | targets/esp32/app/main/driver/Rotary.cpp:67-75 | records the pins; state `R_START`; no inversion |
| Rotary.Rotary.Begin | targets/esp32/app/main/driver/Rotary.cpp:77-89 | inverts exactly when asked to flip the logic; state and pins unchanged |
| Rotary.Rotary.Process | targets/esp32/app/main/driver/Rotary.cpp:91-100 | moves to `Next` of the state and the column of the levels; returns its direction, which is none, CW or CCW |
| WiFiDriver.ScanTable | targets/esp32/app/main/driver/WiFiDriver.cpp:30-34 | `ap_info` has `DEFAULT_SCAN_LIST_SIZE` entries after the scan records are copied in |
| WiFiDriver.NetworksKeys | targets/esp32/app/main/driver/WiFiDriver.cpp:40-47 | the scan map's keys are exactly the SSIDs of the records visited |
| WiFiDriver.NetworksFirstRecord | targets/esp32/app/main/driver/WiFiDriver.cpp:40-47 | each SSID carries the rssi and openness of its first record |
| WiFiDriver.Networks | targets/esp32/app/main/driver/WiFiDriver.cpp:38-47 | the map has at most as many entries as records visited |
| WiFiDriver.React | targets/esp32/app/main/driver/WiFiDriver.cpp:14-83 | no event starts connecting; `fromAp` is set only by AP_START while not connecting and never cleared; unhandled events do nothing |
| WiFiDriver.DisconnectRetries | targets/esp32/app/main/driver/WiFiDriver.cpp:52-58 | below the maximum, a disconnect while connecting adds one retry and issues exactly one reconnect |
| WiFiDriver.DisconnectGivesUp | targets/esp32/app/main/driver/WiFiDriver.cpp:59-64 | at the maximum it stops connecting, resets the count and publishes `no_ap` once |
| WiFiDriver.DisconnectWhileIdle | targets/esp32/app/main/driver/WiFiDriver.cpp:49-65 | a disconnect while not connecting changes nothing and does nothing |
| WiFiDriver.StationStart | targets/esp32/app/main/driver/WiFiDriver.cpp:16-21 | STA_START changes no state; it connects and publishes `connecting` exactly when connecting |
| WiFiDriver.AccessPointStart | targets/esp32/app/main/driver/WiFiDriver.cpp:22-28 | AP_START sets `fromAp` and publishes `ap_ready` exactly when not connecting, and changes nothing else |
| WiFiDriver.ScanDoneBound | targets/esp32/app/main/driver/WiFiDriver.cpp:29-48 | SCAN_DONE changes no state and publishes one map of at most `min(DEFAULT_SCAN_LIST_SIZE, ap_count)` networks from the records |
| WiFiDriver.ReactKeepsBound | targets/esp32/app/main/driver/WiFiDriver.cpp:14-83 | every event keeps `0 <= reconnectCount <= MAX_RECONNECT_COUNT` |
| WiFiDriver.ConnectedOnlyByGotIp | targets/esp32/app/main/driver/WiFiDriver.cpp:66-68 | `connected` afterwards is its old value or GOT_IP: only GOT_IP sets it, nothing clears it |
| WiFiDriver.RestartOnlyFromAccessPoint | targets/esp32/app/main/driver/WiFiDriver.cpp:77-80 | a restart is requested exactly on GOT_IP after a start from the access point |
| WiFiDriver.ReplayInvariants | targets/esp32/app/main/driver/WiFiDriver.cpp:14-83 | over any event sequence the count stays bounded and `connected` stays set |
| WiFiDriver.DisconnectsUntilGiveUp | targets/esp32/app/main/driver/WiFiDriver.cpp:49-65 | from count `k`, `max-k+1` disconnects give `max-k` reconnects, then one `no_ap`, then idle with count 0 |
| WiFiDriver.RetriesThenNoAp | targets/esp32/app/main/driver/WiFiDriver.cpp:52-63 | after `tryToConnect`, exactly `MAX_RECONNECT_COUNT` reconnects precede `no_ap` |
| WiFiDriver.SprintfHexPairs | targets/esp32/app/main/driver/WiFiDriver.cpp:172-173 | colon-separated `%02x` directives render the colon-joined byte pairs |
| WiFiDriver.ColonsLayout | targets/esp32/app/main/driver/WiFiDriver.cpp:172-173 | the joined text has `3n-1` characters: pair `i` at offset `3i`, a colon after every pair but the last |
| WiFiDriver.MacAddress | targets/esp32/app/main/driver/WiFiDriver.cpp:168-175 | the MAC text is the six bytes' `%02x` pairs joined by colons |
| WiFiDriver.ColonsDigits | targets/esp32/app/main/driver/WiFiDriver.cpp:172-173 | each pair is two lower-case hex digits that read back as the byte |
| WiFiDriver.MacAddressLayout | targets/esp32/app/main/driver/WiFiDriver.cpp:168-175 | the MAC text has 17 characters, fitting `macStr[18]`, with hex pairs, colons between them, and it parses back to the six bytes |
| WiFiDriver.Driver.constructor | targets/esp32/app/main/driver/WiFiDriver.cpp:4-5 | static storage: flags false, count 0, `ap_info` cleared |
| WiFiDriver.Driver.CollectNetworks | targets/esp32/app/main/driver/WiFiDriver.cpp:30-47 | `ap_info` is cleared and filled with the records; the loop builds `Networks` over `min(DEFAULT_SCAN_LIST_SIZE, ap_count)` entries |
| WiFiDriver.Driver.EventHandler | targets/esp32/app/main/driver/WiFiDriver.cpp:14-83 | the state and effects are `React`'s; the count stays bounded; `ap_info` changes only on SCAN_DONE |
| WiFiDriver.Driver.TryToConnect | targets/esp32/app/main/driver/WiFiDriver.cpp:119-141 | count 0 and connecting, nothing else changed; radio restarted in station mode, or from the access point reconfigured and connected |
| WiFiDriver.Driver.StartFastScan | targets/esp32/app/main/driver/WiFiDriver.cpp:143-148 | a scan is started exactly when neither connected nor connecting, and nothing else happens |
| WiFiDriver.Driver.SetupAP | targets/esp32/app/main/driver/WiFiDriver.cpp:150-166 | `isConnecting` cleared, nothing else changed; radio restarted as AP+STA with `ssid_len` the SSID's length |
| WiFiDriver.ConnectThenStationStart | targets/esp32/app/main/driver/WiFiDriver.cpp:119-136 | after `tryToConnect`, the STA_START its radio start raises connects and publishes `connecting` |
| WiFiDriver.SetupThenAccessPointStart | targets/esp32/app/main/driver/WiFiDriver.cpp:150-166 | after `setupAP`, AP_START publishes `ap_ready`, starts the captive DNS server and sets `fromAp` |

## Left out

- `listFiles` (`StorageAccessor.cpp:81-96`) is not modelled. It is directory enumeration through `opendir`/`readdir` and has no logic beyond collecting names.
- Concurrency is left out. This covers the worker task, the two semaphores and the `std::scoped_lock` mutexes. The handshake is one sequential call: the API method fills the slot and calls `Step`, one worker turn. Races between the API and the worker, and between `tryToConnect` (which takes no lock) and the event handler, are not captured.
- Real I/O is left out.
  - Streams, files and `mg_write` become values: a map from path to contents, a predicate for whether a file opens for writing, and the replies of `mg_write`.
  - `exists in the map` stands for "a read stream opens".
  - `std::ofstream` truncation and the fallback open in `std::ios::out` mode are folded into that predicate.
- GPIO configuration in `Rotary::begin` is left out (`gpio_set_direction`, `gpio_set_pull_mode`). So is the `gpio_get_level` call; the levels are inputs of `Process`.
- ESP-IDF calls are not performed; they are returned as `Effect` values. This covers connect, start, stop, mode, configuration, scan start, `captdnsInit` and `esp_restart` with its one-second sleep.
- The following are not modelled: `initializeWiFiStack`, `setHostname`, `exportWiFiDriver` (interpreter bindings) and `setWiFiConfigBase` (a constant structure fill). The event bus is not modelled either: `publishWiFiEvent` becomes a `Publish` effect.
- Logging (`EUPH_LOG`, `BELL_LOG`) is left out.
- `src/frontend/src/redux/store.ts` is not part of this model.
- `tryToConnect` and `setupAP` copy strings with `strcpy` into fixed-size fields of `wifi_config_t`. The bound of those fields is not modelled, so an over-long SSID or password is carried whole.
- The network map uses the key order of `std::map`, with `insert` keeping an SSID's first entry. `berry::map` is assumed to behave that way; its definition is not part of this model.
- `WiFiDriver.Driver.constructor`: the initial flags are those of static zero-initialisation. `WiFiDriver.h` is not part of this model, so default member initialisers are not known.
- `StorageAccessor.Accessor.ReadFileToSocket`: the connection is a finite list of `mg_write` replies. When it runs out while bytes are still owed, the model stops the loop and reports `StillStreaming`. The real worker would still be inside the loop and never answer.
- `StorageAccessor.Accessor.Step` requires a connection for HTTP reads. The source dereferences `dataCon` unconditionally, so a null connection is undefined behaviour and is not modelled.
- `StorageAccessor.Accessor.constructor`: the null `path` of the initial slot is modelled as the empty path.
- `readFileBinary` and `readFileToSocket` do not set the status in their initialisers. Here the status is set to `Pending`; the worker overwrites it first anyway.
- `StorageAccessor.ReadBack` models a file of 4 GiB or more as delivering `tellg` modulo 2^32 bytes. The truncation of `std::streamoff` itself is not modelled further.
- Strings are byte strings. Paths, SSIDs, passwords and IP texts are `string`s that hold one byte per `char`, and they are assumed to contain no NUL byte. The source passes them on as C strings (`path.data()` to the stream constructors, `strcpy` into `wifi_config_t`, `std::string` of the scanned `ssid` array), which stop at the first NUL; the model carries them whole. `ssid_len` is `|ssid|`, the byte count, under the same reading.
- `Format.Sprintf` models only `%d`, `%s` and `%02x` with matching arguments. A mismatched or missing argument prints nothing, where C's behaviour is undefined.
