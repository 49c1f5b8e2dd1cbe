# u2fhost.net in Dafny

A model of the host side of u2fhost.net. That library talks to a FIDO U2F security token
over USB HID. It has four layers, each modelled here with the contracts that tie it to the
C# code:

- **`Builder`** (`byte_array_builder.dfy`) is `ByteArrayBuilder`, the growable byte buffer
  every other layer assembles its messages in. It is a class whose `stream` field is a
  sequence.
- **`HidFrames`**, **`HidTransport`** and **`HidDevice`** (`hid_frames.dfy`,
  `hid_port.dfy`, `hid_device.dfy`) are `U2FHidDevice`. It implements the U2FHID framing of
  the FIDO U2F HID Protocol ("Message and packet structure").
  - A message goes out as one 64-byte INIT report and as many 64-byte CONTINUATION reports
    as it needs.
  - A response is read back the same way: stray reports are skipped, the STAT_ERR header
    fails the read, and the channel id and sequence number of every continuation are checked.
  - The INIT handshake binds the device to a channel of its own.
  - The packet layouts and reassembly are pure functions. The class `U2FHidDevice` runs them
    step by step against a scripted transport (`HidPort`), and every method is proved equal
    to its specification function.
- **`ApduDevice`** (`apdu.dfy`) is the APDU layer. Commands use the extended-length
  encoding of ISO/IEC 7816-4 as FIDO U2F Raw Message Formats profile it
  (`00 INS P1 P2 L2 L1 L0 data 04 00`). A response is split into data and a big-endian
  status word, and any status other than 0x9000 is raised. `GetSupportedVersionsAsync`
  maps the answer to GET_VERSION to a version list.
- **`U2Fv2`** (`u2f_v2.dfy`) holds the registration and authentication request messages of
  FIDO U2F Raw Message Formats. It checks the protocol version, then sends the digest of the
  client data and the digest of the application id, plus the key handle for authentication,
  with the right instruction and P1.
- **`U2FHost`** (`u2f_host.dfy`) holds the ceremonies: refuse a missing or disconnected
  device, open it, start with the U2F library, wait for the user's touch, and finish with the
  library. The touch wait retries only while the token answers 0x6985 and checks
  cancellation before every attempt.

`Bytes` and `Outcomes` (`bytes.dfy`) hold the byte type, LINQ's `Take`/`Skip`, ASCII
conversion, the error kinds the code raises, and the `Result` type that carries them.

Exceptions are modelled as `Err` values, one error kind per exception the code throws.
`ShortBuffer` stands for the IndexOutOfRange and ArgumentException that indexing or
`BitConverter.ToUInt16` raise on a buffer that is too short.

The transport is a script. `HidPort` logs every report written, takes the outcome of each
write from `accept`, and returns the reports of `inbox` one per read. A script that has
run out stands for a failed write or a read that timed out. Every spec function returns the
result together with the port state after it (`Outcome`).

## Model

| member | source | states |
|---|---|---|
| Bytes.AsciiBytes | u2fhost/U2Fv2.cs:41 | ASCII encoding writes one 7-bit byte per UTF-16 code unit: its length is the string's UTF-16 length, between the number of characters and twice it |
| Bytes.Utf16Length | u2fhost/U2Fv2.cs:41 | a string has at least one and at most two UTF-16 code units per character |
| Bytes.AsciiBytesPlain | u2fhost/U2Fv2.cs:41 | on text within the Basic Multilingual Plane the encoding has one byte per character: the character itself when it is 7-bit, '?' otherwise |
| Bytes.AsciiSurrogatePair | u2fhost/U2Fv2.cs:41 | a character outside the Basic Multilingual Plane (a surrogate pair) becomes two '?' bytes |
| Bytes.AsciiRoundTrip | u2fhost/ApduDevice.cs:16 | decoding the ASCII encoding of 7-bit text gives the text back |
| Bytes.AsciiString | u2fhost/ApduDevice.cs:16 | ASCII decoding keeps the length and yields only 7-bit characters (the body maps each byte above 0x7f to '?') |
| Builder.ByteArrayBuilder.constructor | u2fhost/ByteArrayBuilder.cs:9-12 | a new builder is empty, with Length 0 |
| Builder.ByteArrayBuilder.Append | u2fhost/ByteArrayBuilder.cs:14-17 | the contents grow by exactly v at the end, earlier bytes unchanged, Length up by one |
| Builder.ByteArrayBuilder.AppendBytes | u2fhost/ByteArrayBuilder.cs:19-22 | all of vs is appended in order; Length grows by its length |
| Builder.ByteArrayBuilder.GetBytes | u2fhost/ByteArrayBuilder.cs:24-27 | returns the contents in append order, of length Length, and changes nothing |
| Builder.ByteArrayBuilder.Length | u2fhost/ByteArrayBuilder.cs:29 | Length is always the size of the contents |
| Builder.ByteArrayBuilder.Clear | u2fhost/ByteArrayBuilder.cs:31-34 | the builder is empty again |
| HidFrames.LengthHigh | u2fhost/U2FHidDevice.cs:121 | for n < 65536 the high length byte is n / 256 |
| HidFrames.LengthLow | u2fhost/U2FHidDevice.cs:120 | the high and low length bytes, read big-endian, are n mod 65536 |
| HidFrames.Header | u2fhost/U2FHidDevice.cs:126-152 | a header starts with the packet's cid, and the byte after it has the top bit set exactly for an INIT packet (0x80 or cmd, against 0x7f and seq) |
| HidFrames.InitType | u2fhost/U2FHidDevice.cs:128 | 0x80 or cmd has the top bit set and keeps the low seven bits of cmd |
| HidFrames.Pad | u2fhost/U2FHidDevice.cs:132-135 | the padding loop fills a report to exactly 64 bytes |
| HidFrames.Serialize | u2fhost/U2FHidDevice.cs:126-137 | every written report is exactly 64 bytes |
| HidFrames.SerializeLayout | u2fhost/U2FHidDevice.cs:126-156 | a report is its header (cid, 0x80 or cmd, length high, length low; or cid, seq and 0x7f), its data, then zeros to 64 bytes |
| HidFrames.Chunks | u2fhost/U2FHidDevice.cs:144-166 | the continuation loop takes non-empty slices of at most 59 bytes |
| HidFrames.ContPackets | u2fhost/U2FHidDevice.cs:142-168 | every CONTINUATION packet fits a report |
| HidFrames.Packets | u2fhost/U2FHidDevice.cs:117-168 | a message is at least one packet (the INIT one) and every packet fits |
| HidFrames.Wire | u2fhost/U2FHidDevice.cs:137-160 | one 64-byte report per packet |
| HidFrames.ChunksFlatten | u2fhost/U2FHidDevice.cs:142-166 | the continuation slices, concatenated, are the remaining data: no byte dropped or repeated |
| HidFrames.ChunksCount | u2fhost/U2FHidDevice.cs:144-166 | there are ceil(r/59) continuation slices for r remaining bytes |
| HidFrames.ContPacketsChunks | u2fhost/U2FHidDevice.cs:143-167 | continuation packet j carries slice j under sequence number seq+j, one packet per slice |
| HidFrames.PacketsCount | u2fhost/U2FHidDevice.cs:117-168 | an n-byte message takes 1 + ceil(max(0, n-57)/59) reports, each of 64 bytes |
| HidFrames.PacketsCarryData | u2fhost/U2FHidDevice.cs:119-168 | the INIT packet carries n and the first min(n,57) bytes, CONTINUATION j carries slice j with seq j, and all the data slices concatenated are the message |
| HidFrames.AwaitInit | u2fhost/U2FHidDevice.cs:180-207 | the header loop consumes at least the matching report on success, returns a report starting with cid and 0x80 or cmd, and never fails with a status word |
| HidFrames.Collect | u2fhost/U2FHidDevice.cs:218-242 | a successful continuation loop keeps what it had and ends with exactly the declared remaining length appended |
| HidFrames.CollectTurn | u2fhost/U2FHidDevice.cs:219-242 | a continuation report that passes both checks contributes its next min(remaining,64) data bytes and advances seq |
| HidFrames.DeclaredLength | u2fhost/U2FHidDevice.cs:209 | the length read from bytes 5-6 is below 65536 |
| HidFrames.FromInit | u2fhost/U2FHidDevice.cs:209-242 | after the INIT report, the read consumes no more than the inbox and fails only with transport errors |
| HidFrames.ReadSpec | u2fhost/U2FHidDevice.cs:171-247 | a read consumes reports from the inbox, at least one when it succeeds |
| HidFrames.ReadLength | u2fhost/U2FHidDevice.cs:209-246 | a successful read returns exactly the length given big-endian in bytes 5-6 of the first matching report |
| HidFrames.StraysSkipped | u2fhost/U2FHidDevice.cs:188-207 | reports that match neither cid and STAT_ERR nor cid and 0x80 or cmd are skipped |
| HidFrames.ErrorHeaderFails | u2fhost/U2FHidDevice.cs:199-206 | the first report starting with cid and STAT_ERR fails the read with "Error in response header", even after strays |
| HidFrames.ContinuationChecked | u2fhost/U2FHidDevice.cs:228-235 | a continuation on another channel fails with "Wrong CID"; one with the wrong seq fails with "Wrong SEQ" |
| HidFrames.ContFrameFields | u2fhost/U2FHidDevice.cs:228-237 | the reader finds the channel, seq and 7 bits and exactly the chunk in a CONTINUATION report |
| HidFrames.CollectStep | u2fhost/U2FHidDevice.cs:219-242 | one continuation turn consumes one CONTINUATION report and appends its chunk |
| HidFrames.CollectRoundTrip | u2fhost/U2FHidDevice.cs:219-242 | the continuation loop reads back the CONTINUATION reports of the remaining data and appends exactly that data |
| HidFrames.InitFrameFields | u2fhost/U2FHidDevice.cs:209-211 | the reader finds cid and 0x80 or cmd, the length and the first data bytes in an INIT report of a message under 65536 bytes |
| HidFrames.ReadAccepts | u2fhost/U2FHidDevice.cs:188-216 | a report starting with cid and 0x80 or cmd is taken as the INIT report at once |
| HidFrames.ReadInitFrame | u2fhost/U2FHidDevice.cs:188-216 | an INIT report of a message is accepted and the rest is collected from the reports after it |
| HidFrames.FramesRoundTrip | u2fhost/U2FHidDevice.cs:105-247 | reading back the reports written for (cmd, data) on a 4-byte channel returns data when n < 65536 and the command's INIT header is not STAT_ERR (cmd 0x3f or 0xbf give cid and 0xbf, which the reader takes for an error header) |
| HidTransport.Wrote | u2fhost/U2FHidDevice.cs:140 | a write attempt is logged whether or not it succeeds and uses up one scripted outcome |
| HidTransport.NextReport | u2fhost/U2FHidDevice.cs:190-195 | a read with nothing left to deliver fails |
| HidTransport.Consumed | u2fhost/U2FHidDevice.cs:221 | a read consumes one report and writes nothing |
| HidTransport.HidPort.WriteReport | u2fhost/U2FHidDevice.cs:161 | a write reports the scripted outcome and is logged |
| HidTransport.HidPort.ReadReport | u2fhost/U2FHidDevice.cs:190 | a read returns the next scripted report, or a failed read when none is left |
| HidDevice.SendCont | u2fhost/U2FHidDevice.cs:142-168 | the continuation loop reads nothing and fails only with "Error writing to device" |
| HidDevice.SendSpec | u2fhost/U2FHidDevice.cs:105-169 | a send reads nothing and fails only with "Error writing to device" |
| HidDevice.ReadOutcome | u2fhost/U2FHidDevice.cs:171-247 | a read writes nothing and consumes at least one report on success |
| HidDevice.CallSpec | u2fhost/U2FHidDevice.cs:99-103 | a call consumes at least one report on success and never fails with a status word |
| HidDevice.InitSpec | u2fhost/U2FHidDevice.cs:59-77 | the handshake leaves a channel id of at most 4 bytes, and on failure the old one |
| HidDevice.WriteAll | u2fhost/U2FHidDevice.cs:144-168 | checked writes read nothing |
| HidDevice.SendContWriteAll | u2fhost/U2FHidDevice.cs:142-168 | the continuation loop writes exactly the CONTINUATION reports, stopping at the first refused write |
| HidDevice.WriteAllPrefix | u2fhost/U2FHidDevice.cs:144-168 | checked writes put a prefix of the reports on the wire and nothing else |
| HidDevice.WriteAllOk | u2fhost/U2FHidDevice.cs:161-164 | checked writes succeed exactly when every one of them is accepted |
| HidDevice.WriteAllComplete | u2fhost/U2FHidDevice.cs:144-168 | after checked writes succeed, every report is on the wire and that many outcomes are used up |
| HidDevice.FirstUnchecked | u2fhost/U2FHidDevice.cs:140-168 | one unchecked write then checked writes: what is written is a prefix that always holds the first report |
| HidDevice.FirstUncheckedOk | u2fhost/U2FHidDevice.cs:140-168 | that send succeeds exactly when the writes after the first are accepted, and then all reports are written |
| HidDevice.SendWrites | u2fhost/U2FHidDevice.cs:105-169 | a send writes a prefix of the message's reports that holds the INIT report, reads nothing, succeeds exactly when every CONTINUATION write is accepted (the INIT write is not checked), and then writes them all |
| HidDevice.CallDelivers | u2fhost/U2FHidDevice.cs:99-103 | a call whose response reports arrive on the channel returns the response, consumes exactly those reports and uses up one write outcome per request report (the ping echo, with response equal to request) |
| HidDevice.InitBinds | u2fhost/U2FHidDevice.cs:63-74 | a response starting with the nonce binds the channel to response bytes 8..11 |
| HidDevice.InitRetries | u2fhost/U2FHidDevice.cs:67-72 | a response not starting with the nonce leaves the channel unchanged and the INIT call is repeated |
| HidDevice.U2FHidDevice.constructor | u2fhost/U2FHidDevice.cs:46-50 | a new device is on the broadcast channel ff ff ff ff |
| HidDevice.U2FHidDevice.SendRequest | u2fhost/U2FHidDevice.cs:105-169 | the send loop does to the port exactly what SendSpec says |
| HidDevice.U2FHidDevice.ReadResponse | u2fhost/U2FHidDevice.cs:171-247 | the read returns and consumes exactly what ReadSpec says, and writes nothing |
| HidDevice.U2FHidDevice.AwaitInitReport | u2fhost/U2FHidDevice.cs:178-207 | the header loop returns and consumes exactly what AwaitInit says |
| HidDevice.U2FHidDevice.ReadPayload | u2fhost/U2FHidDevice.cs:209-246 | the length and continuation loop return and consume exactly what FromInit says |
| HidDevice.U2FHidDevice.Call | u2fhost/U2FHidDevice.cs:99-103 | a call does to the port exactly what CallSpec says |
| HidDevice.U2FHidDevice.Init | u2fhost/U2FHidDevice.cs:59-77 | the handshake loop ends with the result, channel and port InitSpec gives |
| HidDevice.PadReport | u2fhost/U2FHidDevice.cs:132-137 | the padding loop turns header and data into the serialised packet |
| HidDevice.BuildInitReport | u2fhost/U2FHidDevice.cs:126-137 | the builder assembles exactly the serialised INIT packet |
| HidDevice.BuildContReport | u2fhost/U2FHidDevice.cs:149-158 | the builder assembles exactly the serialised CONTINUATION packet |
| HidDevice.Open | u2fhost/U2FHidDevice.cs:52-57 | a new device on the broadcast channel that then runs the handshake |
| ApduDevice.OrEmpty | u2fhost/ApduDevice.cs:32-35 | omitted data is empty data |
| ApduDevice.LengthTop | u2fhost/ApduDevice.cs:37 | for n < 2^24 the top length byte is n / 65536 |
| ApduDevice.EncodeApdu | u2fhost/ApduDevice.cs:36-46 | the request is n + 9 bytes long |
| ApduDevice.LengthBytes | u2fhost/ApduDevice.cs:37-39 | the three length bytes, read big-endian, are n mod 2^24 |
| ApduDevice.EncodedLength | u2fhost/ApduDevice.cs:36-46 | the request is 00 ins p1 p2, the length mod 2^24, the data, then 04 00 |
| ApduDevice.ApduRoundTrip | u2fhost/ApduDevice.cs:36-46 | for n < 2^24 the token reads back exactly (ins, p1, p2, data) |
| ApduDevice.ApduLengthWraps | u2fhost/ApduDevice.cs:37-39 | at n = 2^24 the length wraps and the request cannot be read back |
| ApduDevice.NoDataApdu | u2fhost/ApduDevice.cs:30-46 | omitted data gives the 9-byte request 00 ins p1 p2 00 00 00 04 00 |
| ApduDevice.UInt16LittleEndian | u2fhost/ApduDevice.cs:53 | ToUInt16 succeeds exactly on two or more bytes, with a value below 65536 |
| ApduDevice.StatusWord | u2fhost/ApduDevice.cs:51-53 | the status word exists exactly when the response has at least two bytes, and is below 65536 |
| ApduDevice.DecodeResponse | u2fhost/ApduDevice.cs:50-60 | success returns the response without its last two bytes; failure is a short buffer or a status other than 0x9000 |
| ApduDevice.StatusWordValue | u2fhost/ApduDevice.cs:50-53 | the status code is resp[len-2]*256 + resp[len-1]; a response under two bytes fails |
| ApduDevice.DecodeCases | u2fhost/ApduDevice.cs:50-60 | a response is accepted exactly when it ends in 90 00, and then gives everything before that; otherwise the status code is raised |
| ApduDevice.ResponseRoundTrip | u2fhost/ApduDevice.cs:50-60 | decoding data plus 90 00 gives the data back; any other status comes back as an ApduException carrying it |
| ApduDevice.ApduSpec | u2fhost/ApduDevice.cs:30-61 | an APDU exchange never consumes more than the inbox, and a status error consumes at least one report |
| ApduDevice.BuildApdu | u2fhost/ApduDevice.cs:36-46 | the builder assembles exactly the encoded request |
| ApduDevice.SendApdu | u2fhost/ApduDevice.cs:30-61 | the method does to the port exactly what ApduSpec says |
| ApduDevice.ApduExchange | u2fhost/ApduDevice.cs:30-61 | a token answering data and status gives back the data for 0x9000 and the status as an error otherwise, consuming exactly its reports and one write outcome per request report |
| ApduDevice.VersionsOf | u2fhost/ApduDevice.cs:12-21 | the list has at most one entry, and an error is passed on exactly when the exchange failed with something other than a status word |
| ApduDevice.VersionsCases | u2fhost/ApduDevice.cs:10-23 | success gives the one-entry list of the ASCII answer; status 0x6d00 gives ["v0"]; any other status gives the empty list, and only those; a failure that is not a status word is passed on unchanged |
| ApduDevice.VersionsExchange | u2fhost/ApduDevice.cs:10-23 | a token answering GET_VERSION with payload and status gives [ascii(payload)] for 0x9000, ["v0"] for 0x6d00 and [] otherwise, consuming exactly its reports |
| ApduDevice.GetSupportedVersions | u2fhost/ApduDevice.cs:10-23 | the method maps the GET_VERSION exchange's outcome through the status-to-list mapping |
| U2Fv2.ValidateVersion | u2fhost/U2Fv2.cs:106-120 | a request is accepted exactly when its version is U2F_V2, otherwise it is refused naming the version |
| U2Fv2.ApplicationParameter | u2fhost/U2Fv2.cs:38-42 | the application parameter is a SHA-256 digest: 32 bytes when digests are 32 bytes |
| U2Fv2.ChallengeParameter | u2fhost/U2Fv2.cs:56-60 | the challenge parameter is a SHA-256 digest: 32 bytes when digests are 32 bytes |
| U2Fv2.RegistrationClientData | u2fhost/U2Fv2.cs:44-54 | the client data is typed navigator.id.finishEnrollment and carries the challenge and the facet as origin |
| U2Fv2.AuthenticationClientData | u2fhost/U2Fv2.cs:94-104 | the client data is typed navigator.id.getAssertion, carries the challenge and the facet as origin, and differs from the registration's |
| U2Fv2.RegisterCommand | u2fhost/U2Fv2.cs:15-28 | registration sends ENROLL with P1 0x03 and P2 0x00, and 64 bytes of data when digests are 32 bytes |
| U2Fv2.SignData | u2fhost/U2Fv2.cs:74-80 | the authentication data is client parameter, application parameter, one length byte and the key handle |
| U2Fv2.SignDataRoundTrip | u2fhost/U2Fv2.cs:74-80 | with 32-byte digests and a key handle under 256 bytes the token reads all three fields back |
| U2Fv2.SignDataLengthWraps | u2fhost/U2Fv2.cs:77 | a 256-byte key handle wraps the length byte to 0 and cannot be read back |
| U2Fv2.AuthenticateCommand | u2fhost/U2Fv2.cs:62-84 | authentication sends SIGN with P2 0x00 |
| U2Fv2.CheckOnlyChangesP1 | u2fhost/U2Fv2.cs:81 | check-only sets P1 to 0x07 instead of 0x03 and changes nothing else |
| U2Fv2.RegisterSpec | u2fhost/U2Fv2.cs:15-36 | a status error from the token consumes at least one report |
| U2Fv2.AuthenticateSpec | u2fhost/U2Fv2.cs:62-92 | a status error from the token consumes at least one report |
| U2Fv2.VersionCheckedFirst | u2fhost/U2Fv2.cs:17 | a wrong version fails both ceremonies before anything is hashed or sent: the port is untouched |
| U2Fv2.RegisterExchange | u2fhost/U2Fv2.cs:15-36 | the token reads ENROLL 03 00 with data H(ascii(client data)) followed by H(ascii(appId)), the client data typed finishEnrollment with the request's challenge and the facet as origin; on 0x9000 the response is base64 of the token's data and of the client data, on any other status word (0x6985 included) the registration fails with an ApduException carrying it; exactly the answer's reports are consumed |
| U2Fv2.AuthenticateExchange | u2fhost/U2Fv2.cs:62-92 | the token reads SIGN with P1 0x07 or 0x03 and gets back H(client data), H(appId) and the decoded key handle, the client data typed getAssertion; on 0x9000 the response carries base64 client data, base64 token data and the key handle unchanged, on any other status word the authentication fails with an ApduException carrying it; exactly the answer's reports are consumed |
| U2Fv2.Register | u2fhost/U2Fv2.cs:15-36 | the method does to the port exactly what RegisterSpec says |
| U2Fv2.BuildSignData | u2fhost/U2Fv2.cs:74-80 | the builder assembles exactly the authentication data |
| U2Fv2.Authenticate | u2fhost/U2Fv2.cs:62-92 | the method does to the port exactly what AuthenticateSpec says |
| U2FHost.Busy | u2fhost/U2FHost.cs:67 | only an ApduException with status 0x6985 counts as busy |
| U2FHost.CancelledBefore | u2fhost/U2FHost.cs:61 | without a cancellation token nothing is ever cancelled |
| U2FHost.StaysCancelled | u2fhost/U2FHost.cs:61 | once cancellation is requested it stays requested for every later attempt |
| U2FHost.TokenWait | u2fhost/U2FHost.cs:56-76 | the loop never makes more attempts than there are outcomes |
| U2FHost.LeadingBusy | u2fhost/U2FHost.cs:67-71 | counts exactly the 0x6985 outcomes before the first other one |
| U2FHost.AttemptsUntilSettled | u2fhost/U2FHost.cs:59-73 | without cancellation the attempts are 1 + the leading 0x6985 outcomes, and the first other outcome is returned |
| U2FHost.AllBusyWaits | u2fhost/U2FHost.cs:67-71 | while every outcome is 0x6985 the loop keeps trying |
| U2FHost.CancelStops | u2fhost/U2FHost.cs:59-61 | cancellation requested before an attempt ends the loop at once, after exactly the attempts before it |
| U2FHost.AttemptsUntilSettledStep | u2fhost/U2FHost.cs:67-71 | a 0x6985 outcome before cancellation makes the loop go on with the next attempt |
| U2FHost.NoAttemptAfterCancel | u2fhost/U2FHost.cs:59-61 | no attempt starts once cancellation has been requested |
| U2FHost.LaterOutcomesIgnored | u2fhost/U2FHost.cs:72-75 | once the loop has a result, later outcomes are never looked at |
| U2FHost.AttemptSpec | u2fhost/U2FHost.cs:26 | a 0x6985 answer consumes a report; a registration attempt answers with a registration, an authentication attempt with an assertion |
| U2FHost.WaitSpec | u2fhost/U2FHost.cs:56-76 | the loop's result is of the kind of its attempt |
| U2FHost.WaitFollowsOutcomes | u2fhost/U2FHost.cs:56-76 | the loop on the port is the retry loop over the outcomes its attempts had, ending after exactly those attempts |
| U2FHost.WaitSettles | u2fhost/U2FHost.cs:59-75 | without cancellation the loop on the port ends with its first outcome that is not 0x6985, after exactly the 0x6985 outcomes before it |
| U2FHost.DoneSettled | u2fhost/U2FHost.cs:59-75 | a finished uncancelled loop made one attempt more than its leading 0x6985 outcomes and returns the last, which is not 0x6985 |
| U2FHost.WaitCancelled | u2fhost/U2FHost.cs:59-61 | with cancellation after k attempts the loop on the port makes at most k |
| U2FHost.EnrollAnswered | u2fhost/U2FHost.cs:26 | a registration attempt is Busy exactly when the token answers 0x6985 and succeeds exactly on 0x9000, with the registration response of the token's data |
| U2FHost.SignAnswered | u2fhost/U2FHost.cs:49 | an authentication attempt is Busy exactly when the token answers 0x6985 and succeeds exactly on 0x9000, with the authentication response of the token's data |
| U2FHost.WaitAfterBusy | u2fhost/U2FHost.cs:59-71 | without cancellation a Busy attempt is followed by the rest of the wait on the port it left, with one outcome more |
| U2FHost.WaitAfterSettled | u2fhost/U2FHost.cs:63-75 | without cancellation an attempt that is not Busy ends the wait with its own result and port |
| U2FHost.RunAttempt | u2fhost/U2FHost.cs:26 | one attempt does to the port exactly what AttemptSpec says |
| U2FHost.WaitForTokenInput | u2fhost/U2FHost.cs:56-76 | the loop returns and leaves the port as WaitSpec says |
| U2FHost.RegisterCeremony | u2fhost/U2FHost.cs:12-33 | a disconnected device fails with the port untouched |
| U2FHost.AuthenticateCeremony | u2fhost/U2FHost.cs:35-54 | a disconnected device fails with the port untouched |
| U2FHost.RegisterFinishes | u2fhost/U2FHost.cs:21-31 | after a successful INIT and without cancellation, registration waits until the first answer that is not 0x6985 and returns the library's FinishRegistration of it, or its error |
| U2FHost.AuthenticateFinishes | u2fhost/U2FHost.cs:44-52 | after a successful INIT and without cancellation, authentication waits until the first answer that is not 0x6985 and returns the library's FinishAuthentication of it, or its error |
| U2FHost.RegisterDevice | u2fhost/U2FHost.cs:12-33 | a null device fails at once; otherwise open, start, wait and finish happen as RegisterCeremony says |
| U2FHost.AuthenticateDevice | u2fhost/U2FHost.cs:35-54 | a null device fails at once; otherwise open, start, wait and finish happen as AuthenticateCeremony says |

## Left out

- HidLibrary I/O (`WriteReportAsync`, `ReadReportAsync`, `CreateReport`, `IsConnected`, enumeration): replaced by the scripted `HidPort`. A read timeout is a failed read, and the 1000 ms timeout itself is not modelled.
- `Dispose` and `CloseDevice`, and the `using` blocks in the ceremonies: releasing the device has no effect on the modelled state.
- The random INIT nonce: it is a parameter (`nonce`) of `Open`, `Init` and the ceremonies.
- HidDevice.U2FHidDevice.Init: `InitAsync` would repeat forever against a token that never echoes the nonce. In the model every repetition consumes a report from the finite script, so it ends with a failed read once the script runs out.
- `Task.Delay` (100 ms between INIT retries, 250 ms between touch attempts) and `async` scheduling are not modelled.
- U2FHost.WaitForTokenInput: the CancellationToken is an attempt count (`cancelAfter`), meaning cancellation is requested once that many attempts have started. Cancellation during an attempt or during the 250 ms pause is not modelled.
- SHA-256, JSON serialisation of the client data, and base64 in both directions are uninterpreted function fields of `Primitives`. The 32-byte digest size is assumed only where a lemma states `DigestSized`.
- u2flib's `U2F.StartRegistration`, `StartAuthentication`, `FinishRegistration` and `FinishAuthentication` are function fields of `Library`. The challenge they choose and the attestation and signature checks they run are outside the model.
- `SetMode` (it only throws NotImplementedException), `Wink` and `PingAsync` are one-line wrappers over `CallAsync`. The ping echo is `HidDevice.CallDelivers` with the response equal to the request.
- Console output and logging.
- The console program and its device-polling sample are not part of this model.
- `ApduException.StatusCode` is nullable. Every exception the modelled code raises carries a status, so `Apdu(status)` always has one.
- HidDevice.InitSpec: the handshake adopts response bytes 8..11 as written. A response shorter than 12 bytes yields a channel id shorter than 4 bytes. The model keeps this (`Valid` demands only at most 4 bytes), and the round-trip lemmas assume a 4-byte channel.
- Bytes.AsciiBytes: a .NET string can hold an unpaired surrogate, which Encoding.ASCII replaces by one '?'. A Dafny string holds only Unicode scalar values, so that case cannot be written down; surrogate pairs are modelled (two '?').
- HidFrames.FramesRoundTrip: holds only for messages under 65536 bytes. Beyond that the 16-bit length field wraps, as the C# code writes it. It also excludes cmd 0x3f and 0xbf: their INIT header byte is 0xbf, which the reader takes for STAT_ERR and fails with "Error in response header".
