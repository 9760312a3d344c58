# RemoteDeviceManager: a verified model

The RemoteDeviceManager lets a controller (a Python program) and a car's communication unit (an
ESP32 running C++) exchange commands, files and firmware over MQTT. Both sides implement the
same protocol by hand: framing, payload envelopes, signatures, chunked file transfer and
checksums. This project models both implementations in Dafny and proves that they agree, and
what a whole exchange guarantees.

The model follows the code's own form. What the code does to fields, buffers and arrays is a
method on a class or an array, proved against a function; what is proved about whole runs is
proved about those functions.

| file | models |
|---|---|
| `Bytes`, `Words`, `Text`, `Decimal`, `Utf8`, `Hex` | bytes, 32-bit words, Arduino `String`, number and character encodings |
| `Crc32` | the CRC-32 loop, its algebra and what it detects |
| `Base64Url`, `Cbor`, `CborJson`, `DeviceReadsCbor`, `DeviceBounds` | the CBOR envelope: encoder, both decoders, the device's text of a value, and where its bounds check fails |
| `JsonLookup`, `Collisions`, `DeviceJson` | the device's field lookup, in any flat object and in those the device renders |
| `Envelope`, `SignedFields`, `FieldReadings`, `SignedMessages`, `CleanMessages`, `SignedTexts`, `Authentication` | payloads in every format, the text both sides sign, what a signature pins down, and which messages are accepted |
| `Paths`, `PathNames` | the path normaliser and the path filter |
| `FileReceiver`, `ReceiverHistory`, `ReceiverOutcomes`, `Chunks`, `UploadProtocol`, `UploadOutcome`, `UploadMessages`, `UploadAcks` | uploads: the receiver, the distributed protocol, which uploads succeed, the messages themselves |
| `Download`, `DownloadOutcomes` | downloads in pieces |
| `MqttFraming`, `MqttStream` | MQTT packets on a byte stream, written and read by both sides |
| `ChunkedBody`, `Ota`, `Sidecar`, `UrlOta` | firmware updates and their commit guards |
| `Standby`, `Listening` | the power state machine over a wrapping clock, and the commands it hears |
| `ControllerLog`, `LinkAccounting` | the controller's log, index and byte counts |

## How to read it

- The network of `UploadProtocol` keeps every message ever sent and may deliver any of them at
  any time, any number of times or never. This covers MQTT at QoS 0, where messages arrive in
  order at most once, and more. Acknowledgements are seen in the same way. Job identifiers are
  fresh, as `uuid4` makes them.
- What comes from outside is a parameter: whether the file system opens and writes, when
  transport or flash give up, which bytes arrive in time, what the clock shows, HMAC and SHA-256.
- `SignedMessages.Intact` is what a payload must satisfy for its signature to be recomputed;
  `CleanValue` is a condition on the values alone that implies it. Where a value does not
  satisfy it the two sides really differ, and the lemmas say exactly when.
- Ghost fields are histories: the accepted chunks of a transfer, the sleeps of the device.

## Where the code and its promises part

- docs/mqtt-file-transfer-standard.md says signatures are calculated over the same logical
  fields in JSON and CBOR. They are not for strings with tabs or other control characters, for
  non-ASCII strings or None in JSON, for -2^64 or for upper-case hexadecimal data in CBOR:
  `SignedFields.JsonFieldAgrees` and `SignedFields.CborFieldAgrees` give the exact conditions.
- The device's lookup finds a key inside a string value that ends in a quote and that key:
  `JsonLookup.CollisionMisleads` is an example, `JsonLookup.LookupReadsHit` the whole behaviour.
- The bounds check of the device's CBOR decoder adds position and declared length in 64 bits. A
  length near 2^64 wraps the sum and passes, and the decoder reads past its buffer, before the
  signature is checked. `DeviceBounds.OverrunIff` and `Envelope.EnvelopeOverrunsIff` say exactly
  when, `Envelope.EnvelopeOverruns` gives a payload.
- Line feeds in signed values make two messages with different fields sign alike:
  `SignedTexts.LineFeedMergesFields`; without them the signed text determines every signed
  field: `SignedTexts.BaseDeterminesFields`.
- docs/mqtt-file-transfer-standard.md says MQTT commands are signed. The text of a console
  command is not among the signed fields: `Authentication.HandledFieldsAreSigned`,
  `Authentication.CommandKeepsTag`.
- A file whose CRC-32 is zero cannot be uploaded: `UploadOutcome.ZeroChecksumIsRefused`.
- The device subtracts a topic's length from the remaining length of a PUBLISH without checking
  it: a packet that is too short for its own topic makes the difference wrap, and what has
  arrived is lost: `MqttStream.UndersizedPublishIsLost`.
- CONNECT may carry a password without a user name, which section 3.1 of MQTT Version 3.1.1
  forbids: `MqttStream.ConnectIsUnderstood`.
- `parseExpectedCrc` finds nothing when a shorter run of hexadecimal digits comes first, as in
  `0x1234abcd`: `Sidecar.SidecarReadsIff`, `Sidecar.LiteralIsNotFound`.

## Model

| member | source | states |
|---|---|---|
| UploadProtocol.EveryVouchIsGrounded | tools/remote_device_manager/server.py:568-607 | In every run of any number of uploads, with messages lost, delayed, reordered or delivered twice and with storage faults: each `ok` acknowledgement was published by an action that left the open file holding exactly the upload's bytes up to that chunk, and each completion report by one that left exactly the upload |
| UploadProtocol.FinishedUploadWasStored | tools/remote_device_manager/server.py:568-607 | When `publish_file_upload` returns, at some earlier moment the device's file was exactly the data, the device had reported it, and the upload was one the device can take |
| UploadProtocol.EveryRunKeepsInv | tools/remote_device_manager/server.py:568-607 | Every reachable state: every packet ever sent is the right job or chunk, the open file is a whole number of chunks of the active upload, every uploader's phase is backed by an acknowledgement |
| UploadProtocol.DeviceIsReceiver | lib/RemoteDeviceManager/src/RemoteDeviceManager.cpp:1005-1070 | In every run of the whole system the device's state is that of the receiver run on exactly the packets and deletions that reached it, so all that holds of the receiver's runs holds there |
| UploadProtocol.NextKeeps | tools/remote_device_manager/server.py:585-603 | One action of any kind keeps that invariant and makes the device vouch for nothing its file does not hold |
| UploadProtocol.ChunkKeeps | lib/RemoteDeviceManager/src/RemoteDeviceManager.cpp:1028-1070 | A genuine chunk arriving at any time, any number of times, is either stored in its place and acknowledged, or nothing is vouched for |
| UploadProtocol.BeginKeeps | lib/RemoteDeviceManager/src/RemoteDeviceManager.cpp:1213-1243 | A job message, fresh or repeated, opens an empty file for its own upload, whose announced size and parsed checksum are the upload's |
| UploadOutcome.UploadFinishesIff | lib/RemoteDeviceManager/src/RemoteDeviceManager.cpp:1213-1243 | From every reachable state a new upload can still finish if and only if its path is allowed, it has at most 16384 bytes in chunks of at most 384, and its CRC-32 is not zero |
| UploadOutcome.ScriptRuns | tools/remote_device_manager/server.py:585-604 | The lossless exchange, chunk by chunk: after `k` chunks the device waits for chunk `k`, after the last the call returns with the file stored |
| UploadOutcome.ZeroChecksumIsRefused | lib/RemoteDeviceManager/src/RemoteDeviceManager.cpp:1220-1223 | Every file can be extended by four bytes to one whose checksum is zero, which the device cannot take |
| UploadOutcome.DamageIsRemoved | lib/RemoteDeviceManager/src/RemoteDeviceManager.cpp:1326-1345 | Had the stored bytes become the announced data damaged by a burst of up to 32 bits, the device removes the file and reports no success |
| UploadMessages.ChunkMessageArrives | tools/remote_device_manager/server.py:590-602 | The signed message of a chunk, in JSON, CBOR or the shorter of the two, passes the device's signature check and gives `handleFileData` exactly the job, the number and the data of the protocol's packet |
| UploadMessages.JobMessageArrives | tools/remote_device_manager/server.py:577-584 | The signed job message likewise gives `beginMqttPut` the job, path, size and checksum |
| UploadMessages.NumberIsRead | lib/RemoteDeviceManager/src/RemoteDeviceManager.cpp:1035-1035 | The 32-bit number the device takes for any integer in a field, negative ones and those out of range included |
| UploadMessages.ChunkNamesItsPlace | tools/remote_device_manager/server.py:588-598 | The offset in a chunk's message is its number times the chunk size the job announced, and its data are what the file holds there |
| UploadMessages.OtherOperationIsIgnored | lib/RemoteDeviceManager/src/RemoteDeviceManager.cpp:1030-1033 | A clean message of another operation reaches neither handler |
| UploadAcks.AckPassesIff | tools/remote_device_manager/server.py:548-566 | Looking at an acknowledgement the device published, the controller accepts it if and only if job, number and status are those it waits for |
| UploadAcks.ReadyIsFoundIff | tools/remote_device_manager/server.py:585-585 | With the device's acknowledgements in the log, the wait for `ready` finds one if and only if the protocol's step is enabled by one that is among the last 200 messages |
| UploadAcks.OkIsFoundIff | tools/remote_device_manager/server.py:603-603 | Likewise the wait for the `ok` of the chunk that was sent |
| FileReceiver.Manager.BeginMqttPut | lib/RemoteDeviceManager/src/RemoteDeviceManager.cpp:1213-1243 | The whole new state: refused without effect, superseding the active transfer, failing to open, or active on an empty file |
| FileReceiver.Manager.HandleFileData | lib/RemoteDeviceManager/src/RemoteDeviceManager.cpp:1028-1070 | The whole new state for every message, sequence number, text and storage fault, acknowledgement and finish included |
| FileReceiver.Manager.FinishMqttPut | lib/RemoteDeviceManager/src/RemoteDeviceManager.cpp:1326-1365 | The whole new state; true exactly when an active transfer completes and its result is taken by the transport |
| FileReceiver.Manager.DeletePath | lib/RemoteDeviceManager/src/RemoteDeviceManager.cpp:1387-1397 | The whole new state, whether or not the file system removes the file |
| FileReceiver.FinishOutcome | lib/RemoteDeviceManager/src/RemoteDeviceManager.cpp:1326-1365 | An active transfer is closed by one result for its own job: success leaves the file, failure leaves its path absent |
| ReceiverOutcomes.BadDataOutcome | lib/RemoteDeviceManager/src/RemoteDeviceManager.cpp:1039-1063 | A data message for the active transfer with another number, with text that is not at most 384 digit pairs, with a size that does not fit, or that cannot be written: the transfer is over, its file removed, and exactly one failed result and one acknowledgement with that cause are published |
| ReceiverOutcomes.GoodDataOutcome | lib/RemoteDeviceManager/src/RemoteDeviceManager.cpp:1064-1070 | Any other appends its bytes and is acknowledged; the transfer ends exactly when the announced size is reached, and its file stands if and only if it has the announced checksum |
| ReceiverOutcomes.DataTakenIff | lib/RemoteDeviceManager/src/RemoteDeviceManager.cpp:1028-1070 | Either a message is acknowledged as `ok`, or it ends the transfer |
| ReceiverOutcomes.StrayDataOutcome | lib/RemoteDeviceManager/src/RemoteDeviceManager.cpp:1036-1039 | A message for no active transfer is answered by one rejection and changes nothing |
| ReceiverOutcomes.RejectedBeginOutcome | lib/RemoteDeviceManager/src/RemoteDeviceManager.cpp:1216-1223 | A job with a path, size or checksum that is not allowed is rejected and leaves the active transfer alone |
| ReceiverOutcomes.BeginOutcome | lib/RemoteDeviceManager/src/RemoteDeviceManager.cpp:1224-1243 | Any other ends the active transfer, removes its file and begins on an empty one, or fails to open |
| ReceiverOutcomes.DeleteOutcome | lib/RemoteDeviceManager/src/RemoteDeviceManager.cpp:1387-1397 | `ok` is reported if and only if the path is allowed and the file was there and could be removed, and then exactly that file is gone |
| FileReceiver.AppendExtends | lib/RemoteDeviceManager/src/RemoteDeviceManager.cpp:1058-1067 | A stored chunk keeps file, size, running CRC, chunk count and sequence number in agreement |
| FileReceiver.StepKeepsInv | lib/RemoteDeviceManager/src/RemoteDeviceManager.cpp:1005-1070 | Each event keeps the receiver invariant |
| FileReceiver.RunKeepsInv | lib/RemoteDeviceManager/src/RemoteDeviceManager.cpp:1005-1070 | Over every event sequence: while active the file is the concatenation of the accepted chunks, shorter than announced, with size, CRC-32 and sequence number to match, and every `ready` has been closed by exactly one result but the active transfer's |
| ReceiverHistory.EveryResultSettles | lib/RemoteDeviceManager/src/RemoteDeviceManager.cpp:1326-1365 | In every run each finishing result settles a transfer begun by an earlier job of the same identifier and active until then: after a failed put its path is absent, or holds the empty file of the put to the same path that superseded it; after a completed one it holds the reported size and checksum |
| ReceiverHistory.StepSettles | lib/RemoteDeviceManager/src/RemoteDeviceManager.cpp:1005-1070 | The same for one event |
| SignedMessages.BasesAgree | tools/remote_device_manager/server.py:311-324 | In every format, the device rebuilds byte for byte the text the controller signed, if every signed field survives its form and no string disturbs its lookup |
| SignedMessages.FieldAgrees | lib/RemoteDeviceManager/src/RemoteDeviceManager.cpp:360-380 | In every format, when no string disturbs the lookup, the device reads for a field the text the controller signed if and only if the value survives its form |
| SignedMessages.CleanPayloadIsTransparent | tools/remote_device_manager/server.py:268-276 | Envelope transparency for every flat payload of booleans, integers above -2^64 and printable strings that do not collide with a field name, file data in lower-case hexadecimal |
| SignedMessages.SignatureVerifiesIff | lib/RemoteDeviceManager/src/RemoteDeviceManager.cpp:872-893 | Of the messages whose fields arrive intact, `verifyIncomingAuth` accepts exactly those that carry the MAC of their own signed text under a secret that is not empty, in every format |
| SignedMessages.SignatureVerifies | lib/RemoteDeviceManager/src/RemoteDeviceManager.cpp:872-893 | In particular a message the controller signed, whatever the secret, format and MAC |
| Authentication.VerifyIncomingAuth | lib/RemoteDeviceManager/src/RemoteDeviceManager.cpp:872-893 | The check on any text: the loop of `authBase` and the lookup of `auth` together give the specified answer |
| Authentication.AcceptedIff | lib/RemoteDeviceManager/src/RemoteDeviceManager.cpp:872-893 | For every clean message and every clean tag, hexadecimal or not: accepted if and only if the secret is not empty and the tag is the MAC of the message's own signed text |
| Authentication.UntaggedIsRefused | lib/RemoteDeviceManager/src/RemoteDeviceManager.cpp:881-886 | A clean message without a tag is refused |
| Authentication.TamperingIsRefused | lib/RemoteDeviceManager/src/RemoteDeviceManager.cpp:872-893 | Unless the MAC collides on the two signed texts, the tag of one message is accepted on another if and only if no signed field differs in its text |
| Authentication.HandledFieldsAreSigned | lib/RemoteDeviceManager/src/RemoteDeviceManager.cpp:360-366 | Of the fields the device's handlers act on all are signed, but for the text of a console command |
| Authentication.CommandKeepsTag | lib/RemoteDeviceManager/src/RemoteDeviceManager.cpp:989-1003 | A console message keeps its tag whatever its command is changed to |
| Envelope.FieldListsAgree | tools/remote_device_manager/server.py:304-308 | The controller's list of signed fields is the device's, in the same order |
| Envelope.FormatIsChosen | tools/remote_device_manager/server.py:268-276 | The automatic form is the shorter of the two, JSON on a tie; JSON begins with a brace and an envelope with a tilde |
| Envelope.PlainOrBad | lib/RemoteDeviceManager/src/RemoteDeviceManager.cpp:339-350 | What is no envelope is passed on unchanged, and an envelope with a character outside the alphabet gives nothing |
| SignedTexts.BaseDeterminesFields | tools/remote_device_manager/server.py:311-324 | Between messages in which no signed value has a line feed, the signed texts are equal if and only if every signed field's text is |
| SignedTexts.LineFeedMergesFields | tools/remote_device_manager/server.py:311-324 | With line feeds they are not: a path that holds a second line has the same signed text as a path and a size |
| SignedMessages.JsonArrives | tools/remote_device_manager/server.py:269-271 | A JSON payload is ASCII, is no envelope, and reaches the lookup unchanged |
| SignedMessages.CborArrives | tools/remote_device_manager/server.py:272-273 | A CBOR envelope reaches the lookup as the JSON text of its fields |
| SignedFields.JsonFieldAgrees | lib/RemoteDeviceManager/src/RemoteDeviceManager.cpp:401-453 | Sent as JSON, a field is read as signed if and only if it is not None and, if a string, is printable ASCII with LF and CR |
| SignedFields.CborFieldAgrees | lib/RemoteDeviceManager/src/RemoteDeviceManager.cpp:272-330 | Sent as CBOR, a field is read as signed if and only if a string has no other control characters, packed data is lower-case hexadecimal, and an integer is not -2^64 |
| FieldReadings.FieldReads | lib/RemoteDeviceManager/src/RemoteDeviceManager.cpp:401-453 | In every format and for every value, exactly what the device reads for a field |
| FieldReadings.JsonStringIsHeard | tools/remote_device_manager/server.py:269-269 | What the device reads of any string in `json.dumps` output: escapes other than of quote, backslash, LF and CR lose only their backslash |
| FieldReadings.CborStringIsHeard | lib/RemoteDeviceManager/src/RemoteDeviceManager.cpp:234-259 | What the device reads of any string in a CBOR envelope: its UTF-8 with tabs read as `t` and other control characters dropped, LF and CR excepted |
| SignedFields.DumpStringReads | tools/remote_device_manager/server.py:269-269 | The device reads the string's UTF-8 from `json.dumps` output if and only if it is clean |
| SignedFields.CborStringReads | lib/RemoteDeviceManager/src/RemoteDeviceManager.cpp:234-259 | The device reads the string's UTF-8 from its own rendering of a CBOR text if and only if it has no other control characters |
| SignedFields.PackedDataAgrees | tools/remote_device_manager/server.py:255-258 | File data packed to bytes is read back as it was signed if and only if it is lower-case hexadecimal without spaces |
| SignedMessages.PackedIs | tools/remote_device_manager/server.py:251-265 | Exactly the file data of a message whose own encoding is `hex`, where they are hexadecimal, are packed to bytes; nothing else is touched |
| Envelope.DecodePayloadEnvelope | lib/RemoteDeviceManager/src/RemoteDeviceManager.cpp:339-358 | The buffer, the base64url decoder and the CBOR decoder together yield the specified text, or the report that the decoder left its buffer, for every payload |
| Envelope.EnvelopeOverrunsIff | lib/RemoteDeviceManager/src/RemoteDeviceManager.cpp:339-358 | An envelope makes the decoder leave its buffer if and only if a string head it reaches declares at least 2^64 less its position |
| Envelope.EnvelopeOverruns | lib/RemoteDeviceManager/src/RemoteDeviceManager.cpp:339-358 | A payload of thirteen characters does |
| Envelope.AuthBase | lib/RemoteDeviceManager/src/RemoteDeviceManager.cpp:360-380 | The loop builds one line for each non-empty field, in the fixed order |
| Cbor.RoundTrip | tools/remote_device_manager/server.py:173-248 | Decoding any encodable nested value followed by anything returns the value without its dropped entries and exactly the bytes that follow |
| Cbor.HeadIsShortest | tools/remote_device_manager/server.py:161-170 | Every head is the shortest that reads as its value, and the only one of that length |
| Cbor.EncodingIsUnambiguous | tools/remote_device_manager/server.py:173-194 | No encoding is a prefix of another value's encoding |
| Cbor.Examples | tools/remote_device_manager/server.py:173-194 | Examples of appendix A of RFC 8949 |
| Cbor.FirstByteDecides | tools/remote_device_manager/server.py:236-248 | Of simple values and floats the controller takes false, true, null, undefined and a whole double; tags and lengths that are indefinite or reserved it refuses |
| Cbor.StoreReplaces | tools/remote_device_manager/server.py:231-238 | A key that comes again keeps its place and takes the new value; nothing else changes |
| Cbor.CutShortIsRefused | tools/remote_device_manager/server.py:197-248 | An encoding that is cut short is refused, wherever it is cut |
| CborJson.CborJsonDecoder.ReadUint | lib/RemoteDeviceManager/src/RemoteDeviceManager.cpp:214-232 | Reads the specified number and advances the position by its width, or fails |
| CborJson.CborJsonDecoder.DecodeText | lib/RemoteDeviceManager/src/RemoteDeviceManager.cpp:250-259 | Appends the escaped text and stops at its end; fails where the bound check refuses; reports OutOfBounds exactly where the 64-bit sum wraps and the code would read past the buffer |
| CborJson.CborJsonDecoder.DecodeBytesAsHexString | lib/RemoteDeviceManager/src/RemoteDeviceManager.cpp:261-270 | Appends the quoted hexadecimal text and stops at its end; fails where the bound check refuses; reports OutOfBounds exactly where the 64-bit sum wraps and the code would read past the buffer |
| CborJson.CborJsonDecoder.DecodeValue | lib/RemoteDeviceManager/src/RemoteDeviceManager.cpp:272-330 | On any bytes, terminates with the specified text and a position inside the buffer, or reports OutOfBounds where the code would read past it |
| CborJson.FirstByteDecides | lib/RemoteDeviceManager/src/RemoteDeviceManager.cpp:272-330 | Of simple values only false, true, null and undefined are taken; tags, floats and lengths that are indefinite or reserved are rejected |
| DeviceReadsCbor.DeviceScans | lib/RemoteDeviceManager/src/RemoteDeviceManager.cpp:272-330 | On every value the controller encodes, with anything after it: the device's text of that value and a stop at its last byte, or rejection exactly when there is a float inside |
| DeviceReadsCbor.DeviceTextIsExact | lib/RemoteDeviceManager/src/RemoteDeviceManager.cpp:284-288 | That text is the reference JSON text if and only if -2^64 does not occur |
| DeviceBounds.OverrunIff | lib/RemoteDeviceManager/src/RemoteDeviceManager.cpp:250-270 | On any bytes: the decoder reads past its buffer if and only if one of the text or byte heads it reaches declares at least 2^64 less its position |
| DeviceBounds.HeadsStand | lib/RemoteDeviceManager/src/RemoteDeviceManager.cpp:272-330 | Every such head stands in the buffer at its position with the length it declares; what lies inside a string is not one |
| DeviceBounds.OverrunNeedsHugeLength | lib/RemoteDeviceManager/src/RemoteDeviceManager.cpp:250-270 | With declared lengths below 2^63 in the heads reached, a buffer below 2^63 bytes is never left, whatever the strings hold |
| DeviceBounds.StringOverrunsIff | lib/RemoteDeviceManager/src/RemoteDeviceManager.cpp:250-270 | For a lone text or byte string with anything after it, the exact lengths |
| DeviceBounds.HugeTextOverruns | lib/RemoteDeviceManager/src/RemoteDeviceManager.cpp:250-259 | Nine bytes with which the decoder does leave its buffer |
| DeviceBounds.HugeTextInsideIsHarmless | lib/RemoteDeviceManager/src/RemoteDeviceManager.cpp:261-270 | The same nine bytes inside a byte string are data |
| DeviceBounds.ScanLeavesSuffix | lib/RemoteDeviceManager/src/RemoteDeviceManager.cpp:195-333 | On any bytes, what a scan leaves is the end of what it was given |
| JsonLookup.JsonValue | lib/RemoteDeviceManager/src/RemoteDeviceManager.cpp:401-453 | The scan returns the specified value for every text and key |
| JsonLookup.LookupReadsHit | lib/RemoteDeviceManager/src/RemoteDeviceManager.cpp:401-453 | For any flat object and any key, which token the scan reads, strings with any mix of quotes and backslashes included |
| JsonLookup.LookupFindsValueIff | lib/RemoteDeviceManager/src/RemoteDeviceManager.cpp:401-453 | The lookup returns the key's own value, or nothing for an absent key, if and only if no string before the key's field collides with it, or what follows the first such string has the same value |
| JsonLookup.LookupFindsValue | lib/RemoteDeviceManager/src/RemoteDeviceManager.cpp:401-453 | In particular if no string collides with the key |
| JsonLookup.CollisionIsContainment | lib/RemoteDeviceManager/src/RemoteDeviceManager.cpp:403-408 | A rendered string contains the marker of a key if and only if it is the key or ends in a quote and the key |
| JsonLookup.BareReads | lib/RemoteDeviceManager/src/RemoteDeviceManager.cpp:446-452 | A value that is not a string ends before the first comma or brace, and is trimmed |
| JsonLookup.LookupSkipsSpaces | lib/RemoteDeviceManager/src/RemoteDeviceManager.cpp:408-418 | Between marker and value there may be anything without a colon, a colon, and spaces |
| DeviceJson.EscapeJson | lib/RemoteDeviceManager/src/RemoteDeviceManager.cpp:25-43 | The loop writes the specified text |
| DeviceJson.EscapeJsonReads | lib/RemoteDeviceManager/src/RemoteDeviceManager.cpp:25-43 | For every string the text is well formed between quotes and stands for the string without control characters other than LF and CR |
| DeviceJson.CollidesIff | lib/RemoteDeviceManager/src/RemoteDeviceManager.cpp:25-43 | The text collides with a key if and only if what it stands for does |
| DeviceJson.DeviceLookupIff | lib/RemoteDeviceManager/src/RemoteDeviceManager.cpp:401-453 | In any flat object rendered with `escapeJson`, the lookup of any key returns the value without its dropped characters, or nothing for an absent key, if and only if no earlier string disturbs it |
| DeviceJson.DeviceLookup | lib/RemoteDeviceManager/src/RemoteDeviceManager.cpp:401-453 | In particular if no string in it is the key or ends in a quote and the key |
| JsonLookup.CollisionMisleads | lib/RemoteDeviceManager/src/RemoteDeviceManager.cpp:401-408 | A concrete object in which the lookup of one field answers with another's value |
| Utf8.DecodeOfEncode | tools/remote_device_manager/server.py:269-269 | UTF-8 decoding inverts encoding for every text |
| Utf8.DecodesIff | tools/remote_device_manager/server.py:219-223 | Bytes are taken for a text if and only if they are its encoding: no other form is accepted |
| Base64Url.DecodeBase64Url | lib/RemoteDeviceManager/src/RemoteDeviceManager.cpp:172-193 | The 32-bit accumulator loop yields the specified bytes if they fit, else fails |
| Base64Url.DecodeOfEncode | lib/RemoteDeviceManager/src/RemoteDeviceManager.cpp:172-193 | It inverts unpadded base64url for every byte string |
| Base64Url.AccumulatorWraps | lib/RemoteDeviceManager/src/RemoteDeviceManager.cpp:181-187 | The wrapping accumulator has the low bits an unbounded one would have |
| Base64Url.CapacitySuffices | lib/RemoteDeviceManager/src/RemoteDeviceManager.cpp:345-353 | With the capacity the caller allocates, the overflow exit is never taken |
| Base64Url.DecodesIff | lib/RemoteDeviceManager/src/RemoteDeviceManager.cpp:172-193 | Exactly the texts of the alphabet are decoded |
| Base64Url.Examples | tools/remote_device_manager/server.py:272-273 | The examples of section 10 of RFC 4648 |
| Hex.HexEncode | lib/RemoteDeviceManager/src/RemoteDeviceManager.cpp:133-148 | The loop prints the specified digits |
| Hex.DecodeHexBytes | lib/RemoteDeviceManager/src/RemoteDeviceManager.cpp:116-131 | Decodes exactly pairs of digits that fit the buffer |
| Hex.DecodeOfEncode | lib/RemoteDeviceManager/src/RemoteDeviceManager.cpp:116-131 | Decoding inverts encoding if and only if the bytes fit |
| Hex.PackingIsExact | tools/remote_device_manager/server.py:255-258 | `bytes.fromhex` then printing gives the text back if and only if it is lower-case without spaces |
| Hex.FromHexOfEncode | tools/remote_device_manager/server.py:623-623 | The controller reads back what the device prints |
| Hex.FromHexSkipsSpace | tools/remote_device_manager/server.py:257-257 | A space between pairs of digits changes nothing |
| Hex.ParseHex32 | lib/RemoteDeviceManager/src/RemoteDeviceManager.cpp:59-84 | The loop finds the first run of eight digits, else zero |
| Hex.ParseOfChecksum | lib/RemoteDeviceManager/src/RemoteDeviceManager.cpp:59-84 | It reads back every checksum the controller prints |
| Hex.ParseFindsEight | lib/RemoteDeviceManager/src/RemoteDeviceManager.cpp:59-84 | On any text: the first eight digits in a row, of either case, or zero where there are none |
| Hex.NibbleValues | lib/RemoteDeviceManager/src/RemoteDeviceManager.cpp:108-114 | The sixteen digits of either case have their values and nothing else has one |
| Hex.PairsIff | lib/RemoteDeviceManager/src/RemoteDeviceManager.cpp:116-131 | Exactly the texts of digit pairs are decoded |
| Hex.PairAt | lib/RemoteDeviceManager/src/RemoteDeviceManager.cpp:116-131 | Each pair to its byte |
| Decimal.ToIntOfInteger | lib/RemoteDeviceManager/src/RemoteDeviceManager.cpp:1035-1035 | `toInt` reads an integer the controller prints as the nearest 32-bit number, so reads it back if and only if 32 bits hold it |
| Decimal.ToIntReads | lib/RemoteDeviceManager/src/RemoteDeviceManager.cpp:1035-1035 | `toInt` with spaces, a sign and anything after the digits: the nearest 32-bit number |
| Crc32.Crc32Update | lib/RemoteDeviceManager/src/RemoteDeviceManager.cpp:455-465 | The byte-and-mask loop is absorption of the message bits one by one, from any starting value |
| Crc32.CrcIsPolynomialDivision | lib/RemoteDeviceManager/src/RemoteDeviceManager.cpp:455-465 | That is the remainder of polynomial division over GF(2) by the generator of RFC 1952, complemented |
| Crc32.PolynomialIsGenerator | lib/RemoteDeviceManager/src/RemoteDeviceManager.cpp:461-461 | The constant is the generator, reflected |
| Crc32.UpdateComposes | lib/RemoteDeviceManager/src/RemoteDeviceManager.cpp:1063-1063 | Updating over two pieces is updating over their concatenation, from any starting value |
| Crc32.BurstDetected | lib/RemoteDeviceManager/src/RemoteDeviceManager.cpp:455-465 | Two byte strings of equal length that differ only within 32 consecutive bits have different checksums |
| Crc32.FourByteDamageDetected | lib/RemoteDeviceManager/src/RemoteDeviceManager.cpp:455-465 | In particular if they differ only within four consecutive bytes |
| Crc32.GeneratorBurstMissed | lib/RemoteDeviceManager/src/RemoteDeviceManager.cpp:455-465 | The bound is sharp: a 33-bit burst in the shape of the generator is never seen |
| Crc32.EveryChecksumIsReached | lib/RemoteDeviceManager/src/RemoteDeviceManager.cpp:1220-1220 | Four more bytes bring the checksum of any data to any value, zero included |
| Download.FileSender.SendMqttFile | lib/RemoteDeviceManager/src/RemoteDeviceManager.cpp:1245-1324 | What is published, piece by piece, for every path, file, chunk size and transport failure; true exactly on a success whose result the transport takes |
| DownloadOutcomes.RefusedTransmission | lib/RemoteDeviceManager/src/RemoteDeviceManager.cpp:1248-1265 | Each cause for which a file is not sent is answered by one result that names it |
| DownloadOutcomes.FileTransmission | lib/RemoteDeviceManager/src/RemoteDeviceManager.cpp:1266-1324 | Any other job: the pieces in order, each with its number, place and bytes, as many as the transport takes, then the size, number and checksum if they are all, else a failure |
| Download.FileDownloads.RecordFileTransfer | tools/remote_device_manager/server.py:609-641 | The whole new table of downloads |
| Download.FileDownloads.JoinSorted | tools/remote_device_manager/server.py:631-632 | The join of the chunks in the order of their numbers |
| Download.SavedFileIsFaithful | tools/remote_device_manager/server.py:609-636 | Whatever the order, losses and repetitions, the saved file is the device's file if and only if every piece had arrived |
| Download.OkMeansChecksum | tools/remote_device_manager/server.py:633-641 | With an announced checksum the status is `ok` if and only if the saved bytes have it |
| DownloadOutcomes.PieceOutcome | tools/remote_device_manager/server.py:609-625 | A piece with a number and hexadecimal data is kept under its number; any other only marks the download |
| DownloadOutcomes.IdleReports | tools/remote_device_manager/server.py:609-630 | Results that are not `ok` or are for unknown downloads, and pieces without a job, change nothing |
| DownloadOutcomes.RecordLeavesOthers | tools/remote_device_manager/server.py:609-641 | No message changes another job's download |
| DownloadOutcomes.ResultOutcome | tools/remote_device_manager/server.py:626-641 | An `ok` result saves the join of the pieces, records its checksum, and is found correct if it carries that checksum or none |
| Download.DownloadRoundTrip | lib/RemoteDeviceManager/src/RemoteDeviceManager.cpp:1262-1323 | What the device sends for an allowed file, once every piece has arrived, is saved as that file with status `ok` |
| MqttFraming.EncLen | tools/remote_device_manager/server.py:119-128 | The loop writes the base-128 digits, least significant first |
| MqttFraming.LengthRoundTrip | tools/remote_device_manager/server.py:141-151 | Both readers undo the encoding whatever follows, the device's for every 32-bit length |
| MqttFraming.WrappedReaderAgrees | lib/RemoteDeviceManager/src/RemoteDeviceManager.cpp:582-591 | On every input the 32-bit reader stops where the unbounded one does, with its result modulo 2^32 |
| MqttFraming.LengthIsMinimal | tools/remote_device_manager/server.py:119-128 | Nothing shorter is read as the same length |
| MqttFraming.LengthIsPrefixFree | tools/remote_device_manager/server.py:119-128 | No encoding is a prefix of another |
| MqttFraming.LengthSizes | tools/remote_device_manager/server.py:119-128 | The sizes of the table in section 2.2.3 of MQTT Version 3.1.1 |
| MqttStream.WiFiMqttTransport.ReadNext | lib/RemoteDeviceManager/src/RemoteDeviceManager.cpp:574-629 | `readPacket` on any bytes, wrapping lengths included |
| MqttStream.WiFiMqttTransport.Publish | lib/RemoteDeviceManager/src/RemoteDeviceManager.cpp:525-537 | Emits one PUBLISH with as many bytes as it announces |
| MqttStream.WiFiMqttTransport.Subscribe | lib/RemoteDeviceManager/src/RemoteDeviceManager.cpp:539-553 | Emits one SUBSCRIBE with as many bytes as it announces, and the 16-bit identifier advances |
| MqttStream.WiFiMqttTransport.Connect | lib/RemoteDeviceManager/src/RemoteDeviceManager.cpp:469-518 | Emits one CONNECT with as many bytes as it announces; true exactly on the accepting answer |
| MqttStream.ConnectIsUnderstood | lib/RemoteDeviceManager/src/RemoteDeviceManager.cpp:484-506 | A server by section 3.1 reads back the client, user and password, if and only if there is no password without a user |
| MqttStream.AcceptedIff | lib/RemoteDeviceManager/src/RemoteDeviceManager.cpp:508-517 | Of all packets a server may answer with, exactly the CONNACK with return code 0 is taken for its acceptance |
| MqttStream.SubscribeIsUnderstood | lib/RemoteDeviceManager/src/RemoteDeviceManager.cpp:539-553 | A server by section 3.8 reads the identifier, the filter and quality of service 0 |
| MqttStream.RetainArrives | lib/RemoteDeviceManager/src/RemoteDeviceManager.cpp:525-537 | The retain flag arrives as it was set |
| MqttStream.PublishReadsBackIff | lib/RemoteDeviceManager/src/RemoteDeviceManager.cpp:525-537 | A PUBLISH is read back if and only if its topic is shorter than 65536 bytes; the stream stays in step either way |
| MqttStream.DeviceStaysInStep | lib/RemoteDeviceManager/src/RemoteDeviceManager.cpp:574-629 | On any packets followed by anything, the device delivers exactly the published messages in order and stops at the last packet's end |
| MqttStream.ControllerStaysInStep | tools/remote_device_manager/server.py:131-158 | The controller delivers the same messages and stops at the same place |
| MqttStream.UndersizedPublishIsLost | lib/RemoteDeviceManager/src/RemoteDeviceManager.cpp:593-619 | A PUBLISH that announces fewer bytes than its own topic takes wraps the remaining length: nothing is delivered and all that has arrived is lost |
| MqttStream.CutPacketIsNotReceived | tools/remote_device_manager/server.py:131-151 | A packet cut short is not received |
| MqttStream.ShortPublishParses | tools/remote_device_manager/server.py:154-158 | The controller refuses a PUBLISH too short for a topic's length, and takes one too short for its topic as all topic |
| MqttStream.MqttClient.RecvNext | tools/remote_device_manager/server.py:141-151 | `recv_packet` on any bytes |
| MqttStream.MqttClient.Publish | tools/remote_device_manager/server.py:383-389 | Emits one PUBLISH, or raises when the topic's length does not fit |
| Ota.Updater.DownloadFirmware | src/GitHubOtaDemo.cpp:554-632 | What reaches the flash and when it is committed, for every stream, framing, length and fault |
| Ota.Updater.DownloadChunked | src/GitHubOtaDemo.cpp:554-581 | The nested loops write what the specification says, in blocks of at most 512 bytes |
| Ota.Updater.DownloadRaw | src/GitHubOtaDemo.cpp:585-600 | The plain body's loop, for every arrival pattern |
| Ota.Updater.ReadChunkedString | src/GitHubOtaDemo.cpp:330-355 | The loop returns the specified body or fails |
| Ota.FirmwareIsPayload | src/GitHubOtaDemo.cpp:554-581 | On every stream, well-formed or not, the chunked branch succeeds if and only if the stream has a payload that fits, and the flash and the running CRC have received exactly that |
| Ota.NegativeSizeIsSkipped | src/GitHubOtaDemo.cpp:554-581 | A chunk of negative size carries nothing and the stream goes on |
| Ota.ReadersAgree | src/GitHubOtaDemo.cpp:330-355 | On every stream both chunked readers see the same payload; the text reader refuses it exactly when it is empty or too long |
| Ota.CommittedImageIsSound | src/GitHubOtaDemo.cpp:602-618 | A committed image has the expected checksum and any announced length, and is the payload of the chunks or a prefix of the plain body |
| Ota.DamagedImageIsNotCommitted | src/GitHubOtaDemo.cpp:610-616 | No image that differs from the released one by a burst of up to 32 bits is committed |
| Ota.ChunkedDownloadCommitsIff | src/GitHubOtaDemo.cpp:533-618 | For every split of a body into chunks: committed as it is, if and only if checksum, announced length and room agree |
| Ota.RawTakes | src/GitHubOtaDemo.cpp:585-600 | A plain body, whatever its bursts: exactly the bytes of the turns up to the one that reaches the announced length or is the last are handed over; they are stored if and only if they fit, else the flash is filled with the first of them |
| Ota.PlainDownloadCommitsIff | src/GitHubOtaDemo.cpp:585-618 | What those turns take is committed if and only if it fits, is as long as announced and has the checksum, and the update ends well |
| Ota.WholeDownloadCommitsIff | src/GitHubOtaDemo.cpp:585-618 | When the bursts cover an answer that fits and has the announced length, if any, the flash holds exactly the answer, committed if and only if it has the checksum and the update ends well |
| Ota.PayloadOfStream | src/GitHubOtaDemo.cpp:330-355 | Every split of a body into chunks, with extensions and any trailer, carries that body |
| Ota.WrittenSizeLine | src/GitHubOtaDemo.cpp:315-328 | Hexadecimal sizes below 2^31, with or without extensions, are read as written |
| Ota.Updater.NextLine | src/GitHubOtaDemo.cpp:224-244 | `readLine` with its limit of 300 characters |
| ChunkedBody.SizeLineReads | src/GitHubOtaDemo.cpp:322-327 | `SizeOf` after trimming, cutting at a semicolon and `strtol` gives the number written |
| ChunkedBody.LineIsReadIff | src/GitHubOtaDemo.cpp:224-244 | On any bytes: a line is read if and only if it ends among the first 301, and then is what comes before, trimmed |
| ChunkedBody.StrtolReads | src/GitHubOtaDemo.cpp:326-327 | `strtol` with spaces, a sign, a prefix and anything after the digits: the nearest 32-bit number |
| Sidecar.ParseExpectedCrc | src/GitHubOtaDemo.cpp:195-222 | The loop finds the specified checksum or none |
| Sidecar.SidecarReadsIff | src/GitHubOtaDemo.cpp:195-222 | A checksum is found if and only if the first run of hexadecimal digits has at least eight |
| Sidecar.SidecarReads | src/GitHubOtaDemo.cpp:195-222 | It is the one printed, whatever follows, if no digit comes before |
| Sidecar.LiteralIsNotFound | src/GitHubOtaDemo.cpp:195-222 | In `0x1234abcd` nothing is found |
| UrlOta.ConstantTimeEquals | lib/RemoteDeviceManager/src/RemoteDeviceManager.cpp:150-160 | Equality, although every byte is looked at |
| UrlOta.HttpDownloadToOta | lib/RemoteDeviceManager/src/RemoteDeviceManager.cpp:1457-1494 | What reaches the flash and when it is committed; nothing without both checksums |
| UrlOta.UrlImageIsSound | lib/RemoteDeviceManager/src/RemoteDeviceManager.cpp:1484-1494 | A committed image has both checksums and is a prefix of the answer, of the announced length if any |
| UrlOta.UrlDownloadCommitsIff | lib/RemoteDeviceManager/src/RemoteDeviceManager.cpp:1457-1494 | For any answer, bursts, length and room, exactly when the image is committed: both checksums named and met by what the turns take, which fits and is as long as announced |
| UrlOta.WholeUrlDownloadCommitsIff | lib/RemoteDeviceManager/src/RemoteDeviceManager.cpp:1457-1494 | An answer that arrives whole and fits is committed if and only if it has both checksums |
| Paths.NormalizePath | lib/RemoteDeviceManager/src/RemoteDeviceManager.cpp:1517-1533 | The replace-until-stable loop ends, with every run of slashes collapsed |
| Text.TrimTakesSpaces | lib/RemoteDeviceManager/src/RemoteDeviceManager.cpp:1520-1520 | Trimming takes away spaces at both ends and leaves none there |
| Paths.PassShortens | lib/RemoteDeviceManager/src/RemoteDeviceManager.cpp:1522-1524 | Each pass of the loop shortens the text while two slashes meet |
| Paths.PassKeepsCollapse | lib/RemoteDeviceManager/src/RemoteDeviceManager.cpp:1522-1524 | A pass does not change what the text collapses to |
| Paths.HasSegmentIsMember | lib/RemoteDeviceManager/src/RemoteDeviceManager.cpp:1528-1531 | The four substring tests find a segment if and only if it is one of the parts between slashes |
| Paths.NormalizeGivesNormalForm | lib/RemoteDeviceManager/src/RemoteDeviceManager.cpp:1517-1533 | A path that is not refused is rooted, without backslash, empty inner segment, `.` or `..`; it is refused exactly when `.` or `..` is a segment |
| Paths.NormalizeIsIdempotent | lib/RemoteDeviceManager/src/RemoteDeviceManager.cpp:1517-1533 | Normalising again changes nothing |
| PathNames.NormalizeIsPathOfNames | lib/RemoteDeviceManager/src/RemoteDeviceManager.cpp:1517-1533 | The normalised path is the path of the names between slashes of either kind, with one slash before each and the one at the end kept; it is refused exactly when a name is `.` or `..` |
| PathNames.AllowedIff | lib/RemoteDeviceManager/src/RemoteDeviceManager.cpp:1535-1539 | For every spelling of a path: exactly the paths with a name, no two dots in a row, no first name that begins with `device-secret`, and nothing below `certs` pass |
| Standby.PowerMachine.HandleRemotePowerState | src/main.cpp:1656-1689 | The whole new state |
| Standby.PowerMachine.NoteRemoteActivity | src/main.cpp:1239-1249 | The whole new state |
| Standby.PowerMachine.EnterTimedStandby | src/main.cpp:1632-1654 | The whole new state, with the sleep recorded |
| Standby.PowerMachine.PrepareNetworksForStandbyProbe | src/main.cpp:1611-1630 | The whole new state, with the preparation counted |
| Standby.PowerMachine.RunLoop | src/main.cpp:1755-1769 | The whole new state of a turn, its second poll included |
| Standby.RunKeepsInv | src/main.cpp:1656-1689 | Over every run with a wrapping clock: awake means networks not prepared; prepared at most once per probe; every sleep at least 60000 ms after the last activity; between sleeps activity that woke the device, or a whole probe window without any |
| Standby.SleepDecisionIff | src/main.cpp:1662-1667 | For gaps of any length the decision to sleep goes by the idle time modulo 2^32 |
| Standby.EveryTurnIsOnTime | src/main.cpp:1656-1689 | When turns are shorter than twelve days every decision is the one real time would give |
| Standby.LongPauseKeepsAwake | src/main.cpp:1662-1667 | A pause of 2^32 ms passes for no pause |
| Listening.ActivityIsHeard | src/main.cpp:1656-1689 | Over every timely run the last activity is the time of the last command in the polls the device takes, and the latest of all: the second poll of a turn that begins awake and does not decide to sleep, or both of one woken in its first |
| Listening.SleepIsRested | src/main.cpp:1662-1667 | Whenever a turn decides to sleep, every command heard in the run was at least 60000 ms ago, however often the clock wrapped |
| Listening.TurnsMeetDeadlines | src/main.cpp:1656-1689 | When turns are shorter than twelve days: an awake device sleeps at the first turn 60000 ms after the last command it heard, and a probing one is woken by any command or sleeps again 7000 ms after it woke |
| Listening.ProbePreparesOnce | src/main.cpp:1611-1630 | Each sleep is followed by exactly one preparation of the networks, in the first turn that probes |
| ControllerLog.AppState.RecordMessage | tools/remote_device_manager/server.py:462-479 | The whole new state |
| ControllerLog.AppState.InferLinkOf | tools/remote_device_manager/server.py:510-532 | The link named by the payload, else by the first state topic that names one, else wifi |
| ControllerLog.AppState.LatestPayload | tools/remote_device_manager/server.py:643-649 | The payload of the newest message on the topic |
| ControllerLog.AppState.FindFileAck | tools/remote_device_manager/server.py:552-564 | The newest message that passes every test of `wait_for_file_ack`: a dictionary on the topic with this job, this number and one of these statuses |
| ControllerLog.NewestAckIs | tools/remote_device_manager/server.py:552-564 | What is found is on the topic, is a dictionary with this job as text, this number and one of these statuses; no later message is; and something is found whenever there is such a message |
| ControllerLog.AckIsSeenIff | tools/remote_device_manager/server.py:548-566 | A look for an acknowledgement succeeds if and only if it was received and fewer than 200 messages have come after it |
| ControllerLog.LinkIsKnown | tools/remote_device_manager/server.py:510-532 | Inference never leaves the two links |
| LinkAccounting.OwnTopicsAre | tools/remote_device_manager/server.py:476-476 | Under any prefix the controller's own topics are the five it publishes commands on |
| LinkAccounting.ForeignTopic | tools/remote_device_manager/server.py:467-468 | A topic that is not under the prefix is compared whole |
| LinkAccounting.TopicIs | tools/remote_device_manager/server.py:433-434 | A topic has one slash between prefix and suffix, however many the prefix ends in |
| LinkAccounting.PayloadLinkIs | tools/remote_device_manager/server.py:510-532 | Which link the fields of a message or a retained state name |
| LinkAccounting.TransportNames | tools/remote_device_manager/server.py:516-519 | The names of the device's two transports name their links |
| LinkAccounting.InferLinkIs | tools/remote_device_manager/server.py:510-532 | The message itself decides, else the first of the three retained states that names a link, else it is WiFi |
| LinkAccounting.ReceivedIsCounted | tools/remote_device_manager/server.py:476-479 | A message received is counted on its own link and on no other |
| LinkAccounting.SentIsCounted | tools/remote_device_manager/server.py:443-450 | Likewise a message sent |
| ControllerLog.IndexesAgree | tools/remote_device_manager/server.py:462-479 | After any traffic: the log is the last 200 messages, each topic is indexed with its newest payload ever, and the two links' counts add up to all bytes received outside the controller's own topics and all bytes sent |
| ControllerLog.LatestIsRetainedIff | tools/remote_device_manager/server.py:643-649 | `latest_payload` is the indexed payload if and only if it is among the last 200 messages, otherwise None |

## Left out

- Floating-point numbers: a CBOR float is one opaque value, which the controller encodes in nine bytes and the device rejects; GPS arithmetic is not modelled.
- HMAC-SHA256 and SHA-256: functions about which only the length and alphabet of the result is assumed.
- UploadMessages.ChunkMessageArrives: assumes that the payload can be encoded at all and that its CBOR form is shorter than 2^64 bytes, and takes numbers below 2^31, where a 32-bit `toInt` is exact.
- UploadProtocol.EveryRunKeepsInv: a delete job may not name the file being received, and the device does not restart in mid-transfer; the removal of a failed put's file always succeeds.
- FileReceiver.RunKeepsInv: the same assumptions.
- ReceiverHistory.EveryResultSettles: the same assumptions.
- FileReceiver.Manager.FinishMqttPut: the removal of a failed put's file always succeeds.
- Download.FileSender.SendMqttFile: a read returns as many bytes as there are, up to the chunk size; a directory is a path without a file.
- Ota.Updater.DownloadFirmware: begins after `Update.begin` has succeeded; redirects and headers are not modelled.
- UrlOta.HttpDownloadToOta: begins after `Update.begin` has succeeded; the request and the headers are not modelled, and SHA-256 is taken of the whole image at once.
- CborJson.CborJsonDecoder.DecodeText: where the 64-bit sum `pos_ + length` wraps and passes the check, the model stops with a status instead of reading beyond the buffer, since what lies there is unknown.
- CborJson.CborJsonDecoder.DecodeBytesAsHexString: the same.
- CborJson.CborJsonDecoder.DecodeValue: the same; and the depth of the C++ stack is not bounded.
- Envelope.DecodePayloadEnvelope: `malloc` always succeeds; of a decoder that left its buffer only the text written before is given.
- Authentication.AcceptedIff: for clean messages and tags; what is read of any other value is in `FieldReadings`.
- SignedMessages.SignatureVerifiesIff: the payload has no "auth" entry of its own before it is signed; nested dictionaries and lists are never signed and are not in the flat payloads considered.
- Cbor.RoundTrip: dictionary keys that are not text are turned into text by a parameter standing for Python's `str`, and the decoder's limits on recursion are not modelled.
- Standby.RunKeepsInv: standby is enabled and the manager configured; what waking does to modem, WiFi and GNSS is not modelled.
- ControllerLog.AppState.RecordMessage: payloads arrive decoded, their values as text; lower-casing is for ASCII, and the rewriting of `rdm/alive` payloads is not modelled.
- UploadAcks.AckPassesIff: the acknowledgement's JSON is taken as decoded, and job identifiers as coming back unchanged, as those of the controller do.
- Download.FileDownloads.RecordFileTransfer: the local file's name is not modelled, only its content; a sequence number that is neither a number nor text is not considered.
- MqttStream.MqttClient.RecvNext: topics stay bytes; the controller's decoding of them with replacement characters is not modelled.
- Timeouts: bytes that do not arrive in time are bytes that never arrive; `wait_for_file_ack` giving up is an uploader that takes no further step, and so is one that never looks in time.
- What the controller decodes: `json.loads`, the padding of base64 on its side, and the text of the device's own acknowledgements and results, which the protocol models as values.
- The HTTP requests and headers before a firmware body, redirects, and which URL is chosen.
- The list job, console commands, telemetry, the cellular transport, the web interface, authentication of HTTP clients, DuckDNS and socket proxying: input and output without protocol state.
- The README's future architecture (CAN codec, control unit state machine): not implemented in the repository.
