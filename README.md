# ESP32 Web Bluetooth: stream reassembly and variable table

This project models the two pieces of logic at the ends of the ESP32 Web
Bluetooth link. It proves properties of both.

- **The web client's stream reassembler** (`EWBclient.js`, module `EwbClient` in
  `client.dfy`).
  - BLE notifications carry arbitrary slices of a byte stream of 16-byte
    packets.
  - `_handleStreamDataEvent` appends each notification to `_partialBuffer`. It
    then cuts up to 1000 whole packets off the front.
  - Each packet holds six little-endian uint16 readings and a little-endian
    uint32 timestamp.
  - A packet whose timestamp equals the previous packet's (`_lastTime`) is
    dropped.
  - The leftover tail is kept, or thrown away when it is longer than 32 bytes.
  - The loop method `Reassemble` is proved against the recursive function
    `ConsumeFrom`. The lemma `ConsumeFromSuffix` ties `ConsumeFrom` to
    `Consume`.
  - The class `Client` holds the fields. Its method `HandleStreamDataEvent` is
    proved against `Deliver`, which is one notification.
  - The reference definitions `Packets`, `Tail` and `Dedup` describe the whole
    stream. `Run` feeds a sequence of notifications. Lemmas relate
    `Consume`, `Deliver` and `Run` to these definitions.
- **The device's variable table and write handlers**
  (`EWBServer/EWBServer.cpp`, module `EwbServer` in `server.dfy`).
  - `handleJsonSet` patches a fixed array of typed variables in place. It
    clamps integers, truncates strings to their buffer and NUL-terminates them.
    It calls the change callback for each variable that changed.
  - `generateJsonState` projects the table back into a JSON object.
  - The JSON characteristic's write handler gives `get` precedence over `set`.
  - The stream-control handler acts only on a single byte.
  - The class `Server` holds the table as an `array`. `HandleJsonSet` and
    `OnJsonWrite` are proved against `ApplySet` (with `Dispatch`), and
    `GenerateJsonState` against `StateOf`.
- **The link** (module `EwbLink` in `link.dfy`): the start and stop commands the
  client writes are the bytes the device's stream-control handler acts on.

JSON documents are maps from member names to values. C strings are character
buffers whose value ends at the first NUL. The consumer callback and the change
callback are represented by what the methods return: the packets passed to the
consumer and the names passed to the callback, in call order.

Two properties one might expect do not hold of the code. The model follows the
code in both cases:

- Fifty bytes of garbage from an empty buffer do not clear the residue. Three
  "packets" are decoded and the last 2 bytes are kept (`EwbClient.FiftyBytes`).
- The residue is shorter than one packet only while the 1000-packet guard is not
  hit. When the guard is hit, up to 32 bytes are kept, which may include two
  whole packets (`EwbClient.DeliverGuarded`).

## Model

| member | source | states |
|---|---|---|
| EwbClient.U16 | EWBclient.js:222-227 | a little-endian uint16 reading is below 2^16 |
| EwbClient.U32 | EWBclient.js:217 | the little-endian uint32 timestamp is below 2^32 |
| EwbClient.Decode | EWBclient.js:213-228 | every decoded reading is below 2^16, the time is below 2^32, and the time never equals the sentinel -1 |
| EwbClient.DecodeLayout | EWBclient.js:217-228 | reading k+1 is b[2k] + 256·b[2k+1], and the time is b[12] + 2^8·b[13] + 2^16·b[14] + 2^24·b[15] |
| EwbClient.DecodeEncode | EWBclient.js:213-228 | for every packet whose fields fit the wire format, decoding its 16-byte encoding gives the same packet back |
| EwbClient.EncodeDecode | EWBclient.js:213-228 | every 16-byte block is the wire image of its decoding, so decoding is a bijection |
| EwbClient.PacketsCount | EWBclient.js:212-234 | a buffer holds exactly len/16 whole packets |
| EwbClient.TailIsLastBytes | EWBclient.js:238 | the bytes after the last whole packet are the last len mod 16 bytes, fewer than 16 |
| EwbClient.PacketsSplit | EWBclient.js:212-234 | cutting a whole number of packets off the front splits the packet list and leaves the tail alone |
| EwbClient.DedupAppend | EWBclient.js:220-233 | duplicate suppression over a concatenation continues from the last timestamp of the first part, emitted or not |
| EwbClient.DedupLength | EWBclient.js:220-232 | suppression never emits more packets than it is given |
| EwbClient.DedupDistinct | EWBclient.js:220-232 | when consecutive timestamps all differ, every packet is emitted, in order |
| EwbClient.PacketsOfEncoded | EWBclient.js:212-234 | the stream of encoded records splits back into exactly those records, with no tail |
| EwbClient.Consume | EWBclient.js:207-235 | the reassembly loop as a recursion over the buffer: at most budget packets are emitted, and no more than the buffer holds whole packets |
| EwbClient.ConsumeAll | EWBclient.js:207-238 | with fewer whole packets than the budget, the loop emits the deduplicated list of all packets, ends on the last packet's time, and leaves the tail |
| EwbClient.ConsumeGuarded | EWBclient.js:207-238 | with at least budget packets, the loop processes exactly the first budget packets and leaves everything behind them |
| EwbClient.ConsumeFromSuffix | EWBclient.js:212-235 | `ConsumeFrom`, the loop read from an offset into the combined buffer without copying, consumes exactly what `Consume` consumes from the suffix starting at that offset |
| EwbClient.Reassemble | EWBclient.js:207-238 | the while loop over offset and iterations computes exactly the reference consumption of the combined buffer |
| EwbClient.Deliver | EWBclient.js:238-244 | after any notification the stored residue is at most 32 bytes |
| EwbClient.DeliverUnguarded | EWBclient.js:203-238 | below the guard, all whole packets are decoded in byte order, repeats are dropped, and the residue is the last len mod 16 bytes |
| EwbClient.DeliverGuarded | EWBclient.js:207-244 | at the guard, exactly 1000 packets are processed, and the remainder is kept only if it is at most 32 bytes |
| EwbClient.EmittedBound | EWBclient.js:207-234 | at most 1000 packets are emitted, and no more than the combined buffer's whole packets |
| EwbClient.ResyncOnlyWhenGuardHit | EWBclient.js:238-244 | the resynchronisation reset cannot fire unless more than 16032 bytes are combined |
| EwbClient.FirstPacketAfterReset | EWBclient.js:220-233 | from the reset state, the first whole packet is always emitted |
| EwbClient.RepeatedRecordSuppressed | EWBclient.js:220-233 | from an empty residue, the same record delivered twice in a row is emitted at most once |
| EwbClient.FiftyBytes | EWBclient.js:212-244 | 50 bytes from an empty buffer leave the last 2 bytes as residue and emit at most 3 packets |
| EwbClient.PartitionInvariance | EWBclient.js:202-238 | from a residue shorter than one packet, any cut of a stream into notifications of at most 16000 bytes each, empty ones included, emits the packets and leaves the residue of the whole stream; no residue can push such a notification to the guard |
| EwbClient.SplitEqualsWhole | EWBclient.js:202-238 | below the guard, many notifications behave exactly like their concatenation delivered at once |
| EwbClient.RecordStream | EWBclient.js:202-238 | a stream of encoded records, cut anywhere, yields the records with immediate repeats removed and no residue |
| EwbClient.Client.constructor | EWBclient.js:33-35 | a new client has an empty buffer, `_lastTime` -1 and no consumer |
| EwbClient.Client.SetOnStreamData | EWBclient.js:146-148 | registers or clears the consumer |
| EwbClient.Client.CharacteristicsFound | EWBclient.js:63-65 | after connect the stream characteristics are available |
| EwbClient.Client.StartStream | EWBclient.js:153-170 | with the characteristic, the buffer is emptied, `_lastTime` is -1 and 0x01 is written; without it nothing changes and nothing is written |
| EwbClient.Client.StopStream | EWBclient.js:175-190 | writes 0x00 when the characteristics exist, nothing otherwise |
| EwbClient.Client.OnDisconnect | EWBclient.js:93-105 | the consumer is cleared, the buffer is emptied and `_lastTime` is -1 |
| EwbClient.Client.HandleStreamDataEvent | EWBclient.js:197-245 | without a consumer, nothing changes and nothing is emitted; otherwise the new fields and the emitted packets are those of one delivery of the notification |
| EwbServer.Constrain | EWBServer/EWBServer.cpp:110-112 | the result lies in [lo, hi] when lo ≤ hi, equals x when x is already in range, and is always x, lo or hi |
| EwbServer.AsInt | EWBServer/EWBServer.cpp:109 | an integer JSON value reads as itself and any other value as 0 |
| EwbServer.CStr | EWBServer/EWBServer.cpp:156 | a buffer's C string is its NUL-free prefix that stops at the first NUL |
| EwbServer.CStrUnique | EWBServer/EWBServer.cpp:156 | any NUL-free prefix followed by a NUL is the buffer's C string |
| EwbServer.Strncpy | EWBServer/EWBServer.cpp:126 | strncpy keeps the size and leaves the slots from n onwards untouched |
| EwbServer.StrnEqual | EWBServer/EWBServer.cpp:125 | `strncmp(a, b, n) == 0`: the first n characters of the two C strings agree, so equal C strings, or n = 0, always compare equal |
| EwbServer.StoreString | EWBServer/EWBServer.cpp:126-127 | storing keeps the buffer size, ends it with NUL, and leaves as C string the first size-1 characters of the new value |
| EwbServer.StringChangedAsWritten | EWBServer/EWBServer.cpp:125 | the change test as written, over the whole buffer size: it reports every change of the stored string, and may report more |
| EwbServer.StringChangedMeans | EWBServer/EWBServer.cpp:125 | the corrected change test `StringChanged`: on a NUL-terminated buffer it holds exactly when storing the value would change the buffer's C string |
| EwbServer.AsWrittenFiresWithoutChange | EWBServer/EWBServer.cpp:125-128 | the comparison as written reports a change for buffer "abc" (size 4) and value "abcd", although the stored string stays "abc" |
| EwbServer.AsWrittenStoresSame | EWBServer/EWBServer.cpp:125-127 | on a NUL-terminated buffer, the code as written leaves exactly the bytes the corrected test leaves, so only the callback differs |
| EwbServer.ApplyVar | EWBServer/EWBServer.cpp:100-131 | one loop turn on the corrected comparison: name and type are kept, an unraised flag means the entry is untouched, and an unnamed or float variable is left alone |
| EwbServer.ApplyObject | EWBServer/EWBServer.cpp:99-142 | the loop over the table: the table keeps its length, and there are no more callbacks than variables |
| EwbServer.HasSetObject | EWBServer/EWBServer.cpp:95-96 | `doc["set"]` converts to a non-null object, which requires a `set` member |
| EwbServer.ApplySet | EWBServer/EWBServer.cpp:94-96 | without a `set` object the table is returned unchanged and nothing fires; otherwise the table keeps its length and there are no more callbacks than variables |
| EwbServer.ApplyVarChanged | EWBServer/EWBServer.cpp:100-140 | the change flag is raised exactly when the variable's reported value changes; name, type and NUL termination are kept |
| EwbServer.UpdateVariable | EWBServer/EWBServer.cpp:100-131 | the switch over the variable type computes exactly the per-variable update and flag |
| EwbServer.SetLeavesOthersAlone | EWBServer/EWBServer.cpp:95-121 | without a `set` object, for a name not in it, or for a float variable, the entry is unchanged |
| EwbServer.SetIntClamped | EWBServer/EWBServer.cpp:107-117 | a named int variable takes the value, constrained to [min, max] when it uses limits, and so lies in that range when min ≤ max |
| EwbServer.SetStringTruncated | EWBServer/EWBServer.cpp:122-131 | a named string variable holds the first size-1 characters of the value, its size is kept and its last slot is NUL |
| EwbServer.SetPreservesWellFormed | EWBServer/EWBServer.cpp:126-127 | after a set every string buffer is still NUL-terminated |
| EwbServer.ValueOf | EWBServer/EWBServer.cpp:148-158 | the value a variable reports, by its type: an integer for an int variable, and for a string variable its C string, which holds no NUL and fits its buffer |
| EwbServer.FiredExactlyChanged | EWBServer/EWBServer.cpp:134-139 | the callback receives exactly the names whose value changed, once each, in table order |
| EwbServer.SetIdempotent | EWBServer/EWBServer.cpp:94-143 | applying the same patch again changes nothing and fires no callback |
| EwbServer.ApplyVarTwice | EWBServer/EWBServer.cpp:107-131 | a variable just updated by a patch is left alone by the same patch |
| EwbServer.NoChangeIsIdentity | EWBServer/EWBServer.cpp:99-142 | when no entry would change, the loop returns the table as it was and fires nothing |
| EwbServer.StateOf | EWBServer/EWBServer.cpp:145-159 | the generated state has a member for every variable name, and no more members than variables |
| EwbServer.StateOfKeys | EWBServer/EWBServer.cpp:145-159 | the generated state has exactly the table's variable names as keys |
| EwbServer.StateOfLookup | EWBServer/EWBServer.cpp:145-159 | each name maps to the current int or string value of the last variable with that name |
| EwbServer.SetOwnStateIsNoOp | EWBServer/EWBServer.cpp:94-159 | writing back the state just generated, as a `set` patch, changes nothing and fires no callback |
| EwbServer.Dispatch | EWBServer/EWBServer.cpp:180-201 | only a non-empty write that parses acts, and a set request carries the parsed document, which has `set` and no `get` |
| EwbServer.DispatchSpec | EWBServer/EWBServer.cpp:180-201 | the set handler runs, on the parsed document, exactly for a non-empty write that parses and has `set` but no `get`; a parsed non-empty write with `get` is a get request even when `set` is present |
| EwbServer.StreamControl | EWBServer/EWBServer.cpp:221-232 | start happens only for the single byte 0x01 with a start callback, and stop only for the single byte 0x00 with a stop callback |
| EwbServer.StreamControlSpec | EWBServer/EWBServer.cpp:221-232 | start happens exactly for the single byte 0x01 with a start callback, stop exactly for 0x00 with a stop callback |
| EwbServer.Server.Begin | EWBServer/EWBServer.cpp:11-15 | the server adopts the application's table, with no change callback yet |
| EwbServer.Server.SetOnVariableChangeCallback | EWBServer/EWBServer.cpp:72-74 | registers or clears the change callback |
| EwbServer.Server.HandleJsonSet | EWBServer/EWBServer.cpp:94-143 | the in-place loop leaves the table of the reference set, calls back the changed names in order when a callback is registered, and keeps every string variable's buffer NUL-terminated |
| EwbServer.Server.PatchTable | EWBServer/EWBServer.cpp:99-142 | the loop over the table, run for a `set` object, replaces the table by the reference result for that object and reports its changed names in order when a callback is registered |
| EwbServer.Server.PatchEntry | EWBServer/EWBServer.cpp:100-141 | one turn of the loop writes entry i to its reference value, leaves every other entry alone, and appends the entry's name to the callback list exactly when the reference marks it changed |
| EwbServer.UpdateEntry | EWBServer/EWBServer.cpp:100-131 | updating one entry of the table yields that entry of the reference result, and contributes its name to the changed list exactly when the update reports a change |
| EwbServer.Server.GenerateJsonState | EWBServer/EWBServer.cpp:145-160 | the loop builds, from an empty document, exactly the reference projection of the current table |
| EwbServer.Server.OnJsonWrite | EWBServer/EWBServer.cpp:180-201 | a write applies the set exactly when dispatch selects it; otherwise the table is unchanged and no callback fires |
| EwbLink.CommandsUnderstood | EWBServer/EWBServer.cpp:221-232 | the client's start command starts streaming and its stop command stops it, each exactly when the matching callback is registered |

## Left out

- BLE and Web Bluetooth transport are not modelled. This covers `connect`, `disconnect`, notifications, event listeners, advertising, `begin`'s service setup, `MyServerCallbacks` and `sendStreamData`. They are calls into foreign APIs; a successful connect is the method `CharacteristicsFound`.
- Async sequencing is not modelled. This covers the awaits in `startStream`/`stopStream` and the order of the control write and the notification calls.
- Logging (`console.*`, `Serial.*`) is left out.
- `main.js` is left out. It is user-interface wiring.
- JSON text parsing and serialisation are left out. `handleJsonGet`, `onRead` and the JSON library are calls into code outside this model. A document is the map of its top-level members. A parse failure is the `None` given to `Dispatch`.
- `setStreamCallbacks` is represented only by the two flags given to `StreamControl`.
- `EWBServer.h` is not part of this model. The fields of a variable entry are inferred from their use in `EWBServer.cpp`, and a string buffer's size is the length of `stringValue`.
- EwbServer.AsInt: a non-integer JSON value reads as 0. The JSON library's conversions from floats, strings and booleans are not modelled.
- EwbServer.ApplyVar: a non-string value for a string variable counts as no change. In that case the source passes NULL to `strncmp`, whose behaviour is then undefined.
- Float variables: a set leaves them alone, as the source does. `generateJsonState` reports their raw bits, because floating point is not modelled.
- EwbServer.Server.HandleJsonSet: requires the buffer of every string variable to end with NUL. The source relies on the application initialising its string buffers that way, and the method preserves it. The buffers of integer and float variables are unconstrained.
- The consumer callback and the change callback are the returned sequences. A callback that re-enters the client or the server, for example by clearing `onStreamData` mid-loop, is not modelled.
- EwbClient.Client.HandleStreamDataEvent: a consumer that throws is not modelled. In the source the exception skips the `_lastTime` update for that packet. It also skips the residue assignment, so `_partialBuffer` keeps its old value and the notification's bytes are lost. The old residue is then joined to the next notification, so the stream can stay misaligned until the guard is hit or the state is reset.
- EwbClient.Client.StartStream: a connect that fails part-way is not modelled. One flag stands for both characteristics in `StartStream` and `StopStream`. If the control characteristic alone were missing, the source would clear the buffer and `_lastTime` and then throw at the write. With the flag false the model changes nothing.
- EwbClient.Client.StopStream: the same single flag stands for its two checks.
- EwbClient.Reassemble: the loop counter is incremented inside the body rather than by `iterations++` in the condition. This gives the same number of iterations; the counter's final value is not observable.
- Integer widths are explicit only where they matter: int32 for server integers, and decoded fields bounded by their wire width. JSON integers outside int32 are not modelled.

## Findings

| source | as written | input that shows it | evidently intended | confidence | as-written member | corrected member |
|---|---|---|---|---|---|---|
| EWBServer/EWBServer.cpp:125-126 | the change test compares `sizeof(stringValue)` characters, but only `sizeof - 1` are copied | buffer of size 4 holding "abc", set value "abcd": the callback fires, yet the stored string stays "abc", and every re-application fires again | compare the first `sizeof - 1` characters, the ones that are stored, so that the flag means "the value changed" | not executed | EwbServer.AsWrittenFiresWithoutChange | EwbServer.StringChangedMeans, EwbServer.ApplyVarChanged |

The rest of the model uses the corrected comparison (`StringChanged`). `SetIdempotent` and `FiredExactlyChanged` depend on it. Only the callback differs from the code as written. `AsWrittenStoresSame` shows that both tests leave the same bytes, so the table that `HandleJsonSet` promises is also that of the code as written.
