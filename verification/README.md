# libobsbot control path: a verified model

This project models how libobsbot drives an OBSBOT Meet 2: the 60-byte RPC frames and their
checksums, the request/reply handshake, the hot-plug watcher, the status poller, and the Linux
route from UVC registers to V4L2 controls. `dafny verify dfyconfig.toml` verifies all of it.

## How it is laid out

| file | what it models |
|---|---|
| `Bytes.dfy`, `Words.dfy`, `LittleEndian.dfy`, `Wrappers.dfy` | bytes, 16-bit words, little-endian numbers, `Option` and `Result` |
| `Gf2.dfy`, `Crc16.dfy`, `CrcOrder.dfy`, `CrcDetection.dfy` | polynomials over GF(2) and their division; `crc16_usb`; the order of x; what the checksum detects |
| `RpcFrame.dfy`, `FrameLaws.dfy` | `build_rpc_frame` and its laws |
| `RpcReply.dfy` | `parse_rpc_reply` and the three decoders |
| `ModeRegister.dfy` | `mode_register_payload` |
| `Decimal.dfy`, `Firmware.dfy` | `u8` text, `FirmwareVersion` |
| `CStrings.dfy` | the copies into C buffers |
| `Handshake.dfy`, `Session.dfy`, `ConcurrentQueries.dfy` | `learn_mac`, `rpc_request_then_reply`, `Devices::open`, the device's RPC calls; the camera as a mailbox, one query after another and several at once |
| `Hotplug.dfy`, `HotplugLaws.dfy`, `Subscribers.dfy` | enumeration, `hotplug_loop`, what its events tell; clones of the receiver |
| `Poller.dfy` | `poll_loop`, `set_status_cadence` and `drop` as interleaved steps |
| `ControlStore.dfy`, `ControlStoreLaws.dfy`, `UvcTransport.dfy` | the V4L2 route: its functions, its refinement of a plain store of bytes, and the transport's methods |
| `Settings.dfy`, `SettingsLaws.dfy`, `Controls.dfy` | the numeric setters and getters: their functions, their refinement of a record of numbers, and the device's methods |
| `DeviceStatus.dfy` | `status` |

Code that changes things in place is modelled by methods, on arrays and on classes with mutable
fields; each is proved against a specification function or relation, and the lemmas are about
those. What the program cannot see is a parameter that ranges over everything: the camera is any
sequence of SET and GET results, the host any sequence of directory listings, the kernel any
sequence of accepted and refused ioctls, the other threads any steps at any moment. Iteration over
a hash map is a choice among the keys that are left. Each part has the errors that its own code can
return; operating-system texts are left out of them.

An open device has one transport. The model has two classes for each, `Handshake.Device` on
`Handshake.Transport` and `Controls.Device` on `UvcTransport.VideoNode`, because they need different
cameras: the RPC selector is a mailbox that answers as it likes, the standard controls are a store in
the kernel, and no call touches both. `DeviceStatus.ReadStatus` uses the two side by side.

The numbers of the wire, of the kernel interface and of the clocks stand in the laws as numbers, not
as the names that the functions use, and a law about what a decoder or a table accepts says when it
accepts as well as when it refuses.

Threads are modelled as sequentially consistent single steps: every atomic load or store, every
send, sleep and sample is one. Sleeps are counted, not timed.

## Where the code and its comments disagree

The model follows the code.

- `Devices::events` (`crates/libobsbot-core/src/discovery.rs:96-97`) says that events are broadcast
  to every clone. Clones share one queue and each event goes to one of them; see `Subscribers.dfy`.
- `parse_rpc_reply` checks neither checksum nor sub-sequence. A corrupted reply, or a stale reply to
  the same command, is accepted; see `Session.ForeignReplyIsTaken`.
- Both polling loops ignore the byte count of a GET, so a short read leaves the tail of the previous
  reply in the buffer; see `Session.ShortReadTearsReply`, and `Session.QueriesReadOneResponseExactly`
  for when exactly the value decoded is one response's.
- `open_for` (`crates/libobsbot-core/src/transport/uvcvideo.rs:303`) says that the lowest-numbered
  node wins. The names are sorted as text, so `video10` precedes `video2`. Not modelled.
- `obsbot_devices_poll_event` documents NOT_FOUND for a closed channel
  (`crates/libobsbot-ffi/src/lib.rs:135-137`) and returns TIMEOUT
  (`crates/libobsbot-ffi/src/lib.rs:156-158`). Not modelled.

## Model

| member | source | states |
|---|---|---|
| `Crc16.Crc16Usb` | crates/libobsbot-core/src/devices/meet2.rs:284-297 | The nested bit loop over a message of any length returns the complement of the remainder of 0xFFFF·x^(8n) + M(x)·x^16 modulo x^16+x^15+x^2+1 (section 8.3.5.2 of the USB 2.0 specification), bytes fed least significant bit first. |
| `Crc16.ShiftDivides` | crates/libobsbot-core/src/devices/meet2.rs:288-294 | One pass of the inner loop, in either branch, is one step of long division by the generator on the reflected register. |
| `Crc16.AbsorbDivides` | crates/libobsbot-core/src/devices/meet2.rs:286-295 | From any starting register, absorbing a message is dividing its bits into that register. |
| `Crc16.CrcIsRemainder` | crates/libobsbot-core/src/devices/meet2.rs:279-297 | The checksum is such a remainder, for every message: a quotient exists. |
| `Crc16.CrcIsTheOnlyRemainder` | crates/libobsbot-core/src/devices/meet2.rs:279-297 | A value is the checksum of a message if and only if its complement is that remainder. |
| `Gf2.RemainderIsUnique` | crates/libobsbot-core/src/devices/meet2.rs:279-297 | Division over GF(2) by a polynomial with leading coefficient 1 leaves one remainder, so the previous two rows determine the checksum. |
| `CrcDetection.BurstChangesCrc` | crates/libobsbot-core/src/devices/meet2.rs:284-297 | Two messages of equal length that differ only inside a window of at most sixteen bits have the same checksum if and only if they are equal. |
| `CrcDetection.SeventeenBitsMayEscape` | crates/libobsbot-core/src/devices/meet2.rs:284-297 | Sixteen is the limit: two messages that differ only in a window of seventeen bits and share their checksum. |
| `CrcDetection.CrcKeepsParity` | crates/libobsbot-core/src/devices/meet2.rs:284-297 | The checksum has as many set bits as the message, modulo 2, for every message. |
| `CrcDetection.OddErrorChangesCrc` | crates/libobsbot-core/src/devices/meet2.rs:284-297 | Flipping any odd number of bits changes the checksum. |
| `CrcOrder.OrderOfX` | crates/libobsbot-core/src/devices/meet2.rs:288-294 | Shifting brings a register back to where it was after a number of shifts if and only if that is a multiple of 32767: the order of x modulo the generator. |
| `CrcDetection.DoubleErrorExactly` | crates/libobsbot-core/src/devices/meet2.rs:284-297 | Two flipped bits in a message of any length leave its checksum as it was if and only if they are a multiple of 32767 bits apart. |
| `CrcDetection.DoubleErrorChangesCrc` | crates/libobsbot-core/src/devices/meet2.rs:284-297 | So in messages of at most 4095 bytes any two flipped bits change it. |
| `CrcDetection.FourBitDistance` | crates/libobsbot-core/src/devices/meet2.rs:355-369 | Two different messages of one length, at most 4095 bytes, that share their checksum differ in at least four bits. |
| `CrcDetection.CrcOfXor` | crates/libobsbot-core/src/devices/meet2.rs:284-297 | What an error does to the checksum does not depend on the message it hits: the checksum of message xor error is the message's checksum xor what the register makes of the error from zero. |
| `CrcDetection.SameCrcExactly` | crates/libobsbot-core/src/devices/meet2.rs:284-297 | Two messages of one length, however long, share their checksum if and only if their difference leaves no remainder. |
| `CrcDetection.SameCrcPadded` | crates/libobsbot-core/src/devices/meet2.rs:284-297 | Two messages of any two lengths share their checksum if and only if their difference, aligned at the end, leaves the remainder that the lengths alone account for. |
| `CrcDetection.Residual` | crates/libobsbot-core/src/devices/meet2.rs:284-297 | A message followed by two bytes has checksum 0x4FFE (register 0xB001, the reflected residual) if and only if the two bytes are the little-endian checksum of the message. |
| `CrcDetection.TablesAgree` | doc/protocol/meet2/crc-investigation.md:12-21 | The bit loop computes, on every input, what the byte-at-a-time iteration over two 256-entry tables computes. |
| `CrcDetection.TableEntryOne` | doc/protocol/meet2/crc-investigation.md:21-23 | Entry 1 of the tables holds 0xC0C1. |
| `RpcFrame.BuildRpcFrame` | crates/libobsbot-core/src/devices/meet2.rs:335-373 | On all legal arguments the stores into one zeroed buffer, with each checksum computed while its own field is zero, yield the frame: header around its checksum, length and inner checksum around the payload, zeros, tail at its offset, zeros. |
| `RpcFrame.FillChecksums` | crates/libobsbot-core/src/devices/meet2.rs:355-369 | The two checksums land in bytes 6..8 and 14..16 and nothing else changes, whether or not the inner one is wanted. |
| `FrameLaws.BuiltFramePasses` | crates/libobsbot-core/src/devices/meet2.rs:355-372 | Every built frame passes its receiver's check: with the field zeroed, the header's checksum is the stored one; likewise the inner one when seq_byte & 0x60 is set, and otherwise the field is zero; and the stated length is the payload's. |
| `FrameLaws.RecoverBuilt` | crates/libobsbot-core/src/devices/meet2.rs:335-373 | Building is lossless: for every payload of at most 44 bytes and tail behind it, every argument can be read back from the frame, the tail given its place. |
| `FrameLaws.HeaderIgnoresPayload` | crates/libobsbot-core/src/devices/meet2.rs:346-361 | The first twelve bytes depend on the five scalar arguments only. |
| `FrameLaws.ChecksumsIgnoreTail` | crates/libobsbot-core/src/devices/meet2.rs:353-370 | Another tail at the same offset changes nothing in front of it, so no checksum depends on the tail. |
| `FrameLaws.EqualOuterCrcs` | crates/libobsbot-core/src/devices/meet2.rs:355-361 | Two different headers that share their outer checksum differ in at least four bits and not within sixteen consecutive ones. |
| `FrameLaws.CorruptHeaderExactly` | crates/libobsbot-core/src/devices/meet2.rs:355-361 | A frame corrupted in its first twelve bytes, checksum field and all, passes the outer check if and only if the error leaves no remainder. |
| `FrameLaws.CommandsHaveDistinctCrcs` | crates/libobsbot-core/src/devices/meet2.rs:352-361 | Requests alike but for (cmd_id, sub_cmd_id) share an outer checksum if and only if the pairs are equal. |
| `FrameLaws.CorruptHeaderIsSeen` | crates/libobsbot-core/src/devices/meet2.rs:355-361 | At most three bit errors anywhere in the first twelve bytes, or a burst of at most sixteen bits outside the checksum field, pass the outer check if and only if there is no error. |
| `FrameLaws.StraddlingBurstEscapes` | crates/libobsbot-core/src/devices/meet2.rs:355-361 | A burst across the edge of the checksum field may escape: one of fourteen bits passes the outer check of every frame. |
| `FrameLaws.CorruptPayloadIsSeen` | crates/libobsbot-core/src/devices/meet2.rs:362-369 | The same of the inner check for errors behind the length field: at most three bit errors in checksum field and payload, or a burst of at most sixteen bits in the payload. |
| `FrameLaws.CorruptPayloadExactly` | crates/libobsbot-core/src/devices/meet2.rs:362-369 | In general, with the length field intact, a corrupted frame passes the inner check if and only if the error leaves no remainder. |
| `FrameLaws.CorruptInnerExactly` | crates/libobsbot-core/src/devices/meet2.rs:362-369 | With any error, the length field's included, it passes if and only if the length it states fits the frame and the error in what is then checked leaves the remainder that the two lengths account for. |
| `FrameLaws.LengthErrorMayEscape` | crates/libobsbot-core/src/devices/meet2.rs:346-369 | An error in the length field may escape both checks: a frame in which one flipped bit turns an empty payload into one of two bytes. |
| `ModeRegister.ModeRegisterPayload` | crates/libobsbot-core/src/devices/meet2.rs:156-165 | The payload holds the control id, the value's length, the value, and zeros. |
| `ModeRegister.PayloadIsLossless` | crates/libobsbot-core/src/devices/meet2.rs:151-165 | Two payloads are equal if and only if control id and value are. |
| `RpcReply.ParsesExactlyReplies` | crates/libobsbot-core/src/devices/meet2.rs:401-417 | The parser accepts exactly the buffers made of the reply markers, a command, a length that fits and a payload, and returns exactly that command and payload; head, checksums and padding do not matter. |
| `RpcReply.RequestIsNoReply` | crates/libobsbot-core/src/devices/meet2.rs:401-407 | No frame that the builder can produce parses as a reply. |
| `RpcReply.DecodersAreDisjoint` | crates/libobsbot-core/src/devices/meet2.rs:250-277 | No buffer is accepted by two of the three decoders. |
| `RpcReply.MacIsInFrame` | crates/libobsbot-core/src/devices/meet2.rs:390-396 | The bytes of an accepted hash reply's address are bytes 34..40 of the frame. |
| `RpcReply.MacExactly` | crates/libobsbot-core/src/devices/meet2.rs:386-396 | The hash decoder returns m if and only if the buffer is a reply to (0x08, 0x18) with at least 24 bytes of payload, and m is bytes 18..24 of that. |
| `RpcReply.SerialExactly` | crates/libobsbot-core/src/devices/meet2.rs:263-277 | The serial decoder returns s if and only if the buffer is a reply to (0xC8, 0x18) whose payload is the printable text s, ended by a NUL or by the payload's end. |
| `RpcReply.FirmwareExactly` | crates/libobsbot-core/src/devices/meet2.rs:250-259 | The version decoder returns s if and only if the buffer is a reply to (0x08, 0x04) with at least four bytes of payload, and s is the text, without plus signs or needless noughts, that parses to bytes 3, 2, 1, 0 of it. |
| `RpcReply.DecodedFirmwareParses` | crates/libobsbot-core/src/devices/meet2.rs:250-259 | Every string that the firmware decoder accepts parses, to payload bytes 3, 2, 1, 0. |
| `RpcReply.VersionOrderIsWireOrder` | crates/libobsbot-core/src/types.rs:25-36 | One camera's version is less than another's if and only if its first four payload bytes, as a little-endian number, are. |
| `RpcReply.DecodedTextIsShort` | crates/libobsbot-core/src/devices/meet2.rs:250-277 | A decoded serial number has at most 44 bytes, a version at most 15, and neither has a NUL. |
| `Decimal.ParsesExactlySpellings` | crates/libobsbot-core/src/types.rs:44-47 | `u8` parsing, with its overflow checks, accepts s with value n if and only if s is an optional plus sign, any noughts, and the digits of n. |
| `Firmware.ParsesExactly` | crates/libobsbot-core/src/types.rs:42-57 | `FirmwareVersion::parse` accepts s with value v if and only if s is four such spellings of v's fields, joined by three dots. |
| `Firmware.ParseOfPrint` | crates/libobsbot-core/src/types.rs:42-68 | Parsing a printed version gives it back. |
| `Firmware.PrintOfParse` | crates/libobsbot-core/src/types.rs:42-68 | Printing a parsed string gives the string back if and only if no part has a plus sign or a needless nought. |
| `Firmware.PlusAndNoughtsAreLost` | crates/libobsbot-core/src/types.rs:42-68 | A concrete accepted string that does not survive, and what it turns into. |
| `Firmware.OrderIsNumeric` | crates/libobsbot-core/src/types.rs:25-36 | The derived order is the order of the numbers whose bytes are the fields, most significant first. |
| `Handshake.RequestThenReply` | crates/libobsbot-core/src/device.rs:168-198 | One SET, whose error ends the exchange; then at most ten GETs: the value of the earliest buffer that decodes, or the first transport error, or after ten fruitless polls an error that carries the last buffer. |
| `Handshake.OutcomeExists` | crates/libobsbot-core/src/device.rs:168-198 | For any sequence of GET results there is an outcome that fits this description, |
| `Handshake.OutcomeIsUnique` | crates/libobsbot-core/src/device.rs:168-198 | and no two, nor two numbers of GETs. |
| `Handshake.GivesUpAfterTen` | crates/libobsbot-core/src/device.rs:176-197 | The driver polls at most ten times; it gives up if and only if ten polls succeeded and none of their buffers decodes, with an error that names selector 0x02 and carries the tenth buffer. |
| `Handshake.LearnMac` | crates/libobsbot-core/src/device.rs:1057-1079 | Such an exchange with the hash request and the hash decoder. |
| `Handshake.MacQueryBytes` | crates/libobsbot-core/src/devices/meet2.rs:380-382 | The hash request is, but for its outer checksum, which its receiver accepts, these sixty bytes. |
| `Handshake.FirmwareRequestBytes` | crates/libobsbot-core/src/device.rs:135-140 | So is the version request, for every address: sequence 0x01 0x01, command set and command 0x0D 0x08 0x04, no payload, the address at byte 18. |
| `Handshake.SerialRequestBytes` | crates/libobsbot-core/src/device.rs:155-162 | And the serial request: 0x01 0x03, 0x0D 0xC8 0x18, no payload, the address and 0x01 0x01 at byte 24. |
| `Handshake.FaceFocusBytes` | crates/libobsbot-core/src/device.rs:729-738 | And the face-focus command: 0x25 0x04, 0x02 0x02 0x36, payload 1 0 0 0 for on and 0 0 0 0 for off, the address and 0x01 0x01 at byte 26; it alone has an inner checksum, over length, two zeros and payload. |
| `Handshake.RepliesMatchRequests` | crates/libobsbot-core/src/devices/meet2.rs:193-277 | Each query's decoder accepts only replies that carry the command pair of that query's own request. |
| `Handshake.Open` | crates/libobsbot-core/src/discovery.rs:77-94 | `Devices::open` fails as that exchange fails, and otherwise the device holds the address it returned. |
| `Handshake.Device.FirmwareFromCamera` | crates/libobsbot-core/src/device.rs:135-140 | Such an exchange with the firmware request for the learned address. |
| `Handshake.Device.SerialFromCamera` | crates/libobsbot-core/src/device.rs:155-162 | Such an exchange with the serial request for the learned address. |
| `Handshake.Device.FirmwareParsed` | crates/libobsbot-core/src/device.rs:146-152 | `firmware` never fails at the parse step: it returns the version whose text the exchange returned, or the exchange's own error. |
| `Handshake.Device.SetFaceFocus` | crates/libobsbot-core/src/device.rs:729-738 | Sends one frame, the face-focus request for the learned address, with 1 in byte 16 for on and 0 for off, and polls nothing. |
| `Session.CommandCarriesMac` | crates/libobsbot-core/src/device.rs:135-162 | Each command's frame carries the address at its own place (18, 24, 26), and every other byte, all checksums among them, is the same for every address. |
| `Session.OpenedDeviceCarriesMac` | crates/libobsbot-core/src/discovery.rs:77-94 | After an open that succeeded against a camera that published its reply in time, whatever calls follow on that transport, every frame they send is the command's own with bytes 34..40 of that reply at the command's place. |
| `Session.OpenThenFirmware` | crates/libobsbot-core/src/discovery.rs:77-94 | Cameras that go on to answer are among these: for any hash reply and any firmware reply, each published in time, there is one whose open stores the first's address and whose version query then returns the second's text. |
| `Session.MailboxOutcome` | crates/libobsbot-core/src/device.rs:168-198 | Against a camera that shows an old frame and then publishes its reply within ten polls, over full-length GETs, whatever it shows later, the exchange returns the reply's value if and only if the first poll already shows the reply, or the old frame does not decode, or decodes to the same value; else it returns the old frame's value. |
| `Session.LearnedMac` | crates/libobsbot-core/src/discovery.rs:77-94 | A successful open against such a camera, whose old frame is no hash reply, stores bytes 34..40 of exactly that reply. |
| `Session.QueriesReadOneResponseExactly` | crates/libobsbot-core/src/device.rs:168-198 | A decoded MAC, version or serial number is that of the last response alone if and only if that response had at least 16 + stated length bytes: the check of the byte count that both polling loops leave out. |
| `Session.FullReadsDecodeOneResponse` | crates/libobsbot-core/src/device.rs:182-191 | So it is whenever every GET is full-length. |
| `Session.ShortReadTearsReply` | crates/libobsbot-core/src/device.rs:1067-1074 | The byte count being ignored, a GET that returns only the sixteen header bytes of a hash reply makes the address be read from whatever frame was in the buffer before. |
| `Session.DriverOutcomes` | crates/libobsbot-core/src/device.rs:135-198 | The outcomes of the three queries of the driver are those of the three kinds of query in a session. |
| `Session.ExchangeIsRight` | crates/libobsbot-core/src/device.rs:168-198 | From a mailbox whose slot and queue hold no untrue reply, a query returns the truth, or an error after ten polls, and leaves such a mailbox, however late the camera is; if it publishes in time, the truth. |
| `Session.SessionIsRight` | crates/libobsbot-core/src/device.rs:168-198 | Over every session of MAC, firmware and serial queries that begins with such a mailbox, no query returns an untruth, however late the replies, and each that is answered within its ten polls succeeds. |
| `Session.ForeignReplyIsTaken` | crates/libobsbot-core/src/device.rs:168-198 | An untrue reply of the same command in the slot or the queue may be accepted as the answer, though the camera publishes in time. |
| `Session.HarmlessMailboxIsExact` | crates/libobsbot-core/src/device.rs:168-198 | Every next exchange that is answered in time returns the truth, and no next exchange at all returns an untruth, if and only if every frame in slot and queue decodes, as any kind of reply, to nothing or to the truth. |
| `ConcurrentQueries.InterleavedQueriesAreRight` | crates/libobsbot-core/src/device.rs:168-198 | However the SETs and GETs of any number of threads interleave on the one mailbox, from one that holds no untruth every query that ends returns the truth or BadResponse, and what the handshake makes of the frames it was shown. |
| `DeviceStatus.ReadStatus` | crates/libobsbot-core/src/device.rs:125-132 | `status` cannot fail: two queries, in order, each of whose text is shown when it succeeds and empty when it fails, and one sample of the controls. |
| `DeviceStatus.TextsAreTrue` | crates/libobsbot-core/src/device.rs:125-132 | From a mailbox that holds no untruth, whichever SETs are refused and however late the camera is, each text shown is the truth; and it is shown when the SET was taken and the camera prompt. |
| `CStrings.CopyIntoBuf` | crates/libobsbot-ffi/src/lib.rs:917-924 | The buffer holds as many bytes of the string as fit before the terminator, a NUL, and then what it held; a capacity of zero changes nothing. |
| `CStrings.StoredBytes` | crates/libobsbot-ffi/src/lib.rs:915-924 | Which bytes those are, for a string that fits and for one that does not. |
| `CStrings.ReadOfStored` | crates/libobsbot-ffi/src/lib.rs:915-924 | A C reader sees the string, or its first cap - 1 bytes when it does not fit, up to a NUL among them. |
| `CStrings.ReadIsExact` | crates/libobsbot-ffi/src/lib.rs:915-924 | The reader sees exactly the string if and only if it is shorter than the capacity and has no NUL in it. |
| `CStrings.CopyStringOut` | crates/libobsbot-ffi/src/lib.rs:926-946 | Succeeds if and only if the fetch does and length + 1 fits the non-empty buffer; then it writes the string and one NUL and nothing else, and otherwise nothing at all, with the error code of the cause. |
| `CStrings.ObsbotStatus.Fill` | crates/libobsbot-ffi/src/lib.rs:848-856 | Both strings are stored over zeros and the six numbers are copied. |
| `CStrings.DecodedTextReachesC` | crates/libobsbot-ffi/src/lib.rs:829-852 | Every version and serial number decoded from a frame reaches a C reader of the status struct whole, and fits in any buffer of 45 bytes. |
| `Hotplug.KeyIsInjective` | crates/libobsbot-core/src/discovery.rs:217-222 | Two devices have the same key if and only if bus and device numbers are equal. |
| `Hotplug.SnapshotIsFirst` | crates/libobsbot-core/src/discovery.rs:245-282 | The snapshot has exactly the keys of the readable nodes with the camera's vendor and product, each described by its first such node. |
| `Hotplug.SnapshotHasCameras` | crates/libobsbot-core/src/discovery.rs:262-268 | Every device of the snapshot is that of a node with vendor 0x3564 and product 0xfefb, and every such node's key is in the snapshot. |
| `Hotplug.OtherNodeIsSkipped` | crates/libobsbot-core/src/discovery.rs:254-269 | A node that is unreadable, or of another vendor or product, makes no difference to the snapshot, wherever it is listed. |
| `Hotplug.Enumerate` | crates/libobsbot-core/src/discovery.rs:245-283 | The nodes of one camera collapse into one entry: the list has every device of the snapshot, none twice and no other, in any order; each comes from a node with vendor 0x3564 and product 0xfefb, and each such node's bus and device number is listed. |
| `Hotplug.SendMissing` | crates/libobsbot-core/src/discovery.rs:180-199 | In any map order, one event is sent for every key of one map that the other lacks, until a send fails. |
| `Hotplug.SendRound` | crates/libobsbot-core/src/discovery.rs:179-199 | All additions come before all removals; a failed send cuts the round short where it was. |
| `Hotplug.HotplugLoop` | crates/libobsbot-core/src/discovery.rs:168-212 | Whatever the pollers send in between, the watcher's events are those of complete rounds, one for each poll, and of at most one round cut short by a closed channel; it ends at the first load that sees the flag set, and loads it in front of every poll and of each of the twenty chunks of sleep between two. |
| `HotplugLaws.ReplayIsKnown` | crates/libobsbot-core/src/discovery.rs:168-212 | After every completed round of every run, replaying the log by the key each event was sent for gives exactly the known set. |
| `HotplugLaws.KeyAlternates` | crates/libobsbot-core/src/discovery.rs:168-212 | The events of each key alternate, the first is an addition, and the device is there if and only if their number is odd. |
| `HotplugLaws.CutRunAlternates` | crates/libobsbot-core/src/discovery.rs:180-199 | The same alternation in a log whose last round was cut short. |
| `HotplugLaws.RoundIsSymmetricDifference` | crates/libobsbot-core/src/discovery.rs:179-200 | A round has an event for each key that appeared or disappeared, for no other, and for none twice; the additions come first. |
| `HotplugLaws.SerialBalance` | crates/libobsbot-core/src/discovery.rs:177-200 | Added less removed events of a serial number are the known devices that bear it, less the drift: the change in how many of the staying devices bear it, summed over the rounds. |
| `HotplugLaws.BalanceCountsDevices` | crates/libobsbot-core/src/discovery.rs:177-200 | While no staying device changes its serial number, they are exactly those devices. |
| `HotplugLaws.BalanceIsExact` | crates/libobsbot-core/src/discovery.rs:200-229 | All balances are exact after every round if and only if no round had a drift. |
| `HotplugLaws.SwapIsSilent` | crates/libobsbot-core/src/discovery.rs:200-222 | A camera exchanged for another at the same bus and device number between two polls: the only event of both rounds is the first camera's addition, and the balances of both serial numbers are wrong. |
| `HotplugLaws.BalanceIsVisible` | crates/libobsbot-core/src/discovery.rs:184-196 | An event shows its kind and a serial number; two logs that show the same have the same balances. |
| `HotplugLaws.AnonymousRunsLookAlike` | crates/libobsbot-core/src/discovery.rs:177-200 | Where all devices bear one serial number, as Meet 2 cameras do, whose own is empty, two runs show the same events when as many devices come and go in each round. |
| `HotplugLaws.KeysAreInvisible` | crates/libobsbot-core/src/discovery.rs:177-200 | So the known keys cannot be told from the events: two runs that show the same and end with different cameras. |
| `Subscribers.NothingIsLost` | crates/libobsbot-core/src/discovery.rs:95-100 | What all clones of the receiver took, in order, followed by what waits, is what was sent. |
| `Subscribers.SeesAllIffAlone` | crates/libobsbot-core/src/discovery.rs:95-100 | A clone sees every event if and only if none waits and no other clone took one. |
| `Subscribers.NotBroadcast` | crates/libobsbot-core/src/discovery.rs:95-100 | Two clones together see no more events than were sent. |
| `Subscribers.LoneSubscriberCounts` | crates/libobsbot-core/src/discovery.rs:95-100 | A subscriber that alone has read everything counts, for each serial number, the devices present less the drift: exactly if and only if there was none. |
| `Subscribers.SubscriberCounts` | crates/libobsbot-core/src/discovery.rs:95-100 | In general it falls short by just what the other clones count. |
| `Subscribers.TwoSubscribersAreMisled` | crates/libobsbot-core/src/discovery.rs:95-100 | With two, one can take an addition and the other the removal: the first goes on counting a device that is gone. |
| `Poller.PollLoop` | crates/libobsbot-core/src/device.rs:967-995 | Whatever the others do between any two of its steps, the loop takes the poller's steps of a run to its end, which comes with the flag set or the channel closed. |
| `Poller.InvRun` | crates/libobsbot-core/src/device.rs:936-995 | In every reachable state: the flag is set if and only if the owner is in or past `drop`; once `drop` has returned the poller has ended; a sleep has a legal period and a whole number of ticks behind it. |
| `Poller.LastStatus` | crates/libobsbot-core/src/device.rs:967-995 | Once the flag is set, the only status still sent is one that was on its way, at most one; and with the channel open it is sent for certain. |
| `Poller.SilentAfterDrop` | crates/libobsbot-core/src/device.rs:936-943 | After `drop` has returned, in no run is another status of this device sent. |
| `Poller.PollerHalts` | crates/libobsbot-core/src/device.rs:967-995 | Once the flag is set, every step of the poller uses up a measure of at most four that no other step gives back; when it is used up the poller has ended. |
| `Poller.NoDeadlock` | crates/libobsbot-core/src/device.rs:936-995 | Until it has ended the poller can always take its next step; `join` can return if and only if it has; and it ends only for the flag or a closed channel. |
| `Poller.AtMostOneMoreTick` | crates/libobsbot-core/src/device.rs:985-993 | Once the flag is set, at most one more tick is slept, and only if it had begun. |
| `Poller.CadenceActsAtLoad` | crates/libobsbot-core/src/device.rs:984-993 | Between a send and the next sample the poller sleeps exactly the period it loaded, in ticks of 25 ms; a cadence set meanwhile waits for the next load, and only the flag cuts the sleep short. |
| `Poller.TicksOfRequestedCadence` | crates/libobsbot-core/src/device.rs:79-82 | In every run from the start of a device, from a load to the next stop check of the outer loop the poller sleeps exactly one tick if the cadence last asked for was Fast, and exactly a hundred if it was Slow or none was; fewer only when the flag ends it. |
| `Poller.OneStatusPerSample` | crates/libobsbot-core/src/device.rs:967-983 | In every run, as many statuses were sent as samples taken, but for one that is still to be sent or found the channel closed. |
| `Poller.FirstStatus` | crates/libobsbot-core/src/device.rs:967-983 | A new device's poller, left alone, sends its first status before it sleeps at all; with the channel closed by then its thread ends and nothing is sent. |
| `LittleEndian.I32RoundTrip` | crates/libobsbot-core/src/transport/uvcvideo.rs:196-197 | Decoding four bytes as a two's complement number and encoding it again gives them back. |
| `LittleEndian.I32OfLe` | crates/libobsbot-core/src/transport/uvcvideo.rs:226-227 | And the other way round. |
| `LittleEndian.I32Bytes` | crates/libobsbot-core/src/transport/uvcvideo.rs:226-227 | The bytes are those of the number modulo 2^32, lowest first. |
| `UvcTransport.VideoNode.SetPantilt` | crates/libobsbot-core/src/transport/uvcvideo.rs:189-200 | The two halves of eight bytes end up in the pan and the tilt control; an error leaves both as they were, or only the pan changed. |
| `UvcTransport.VideoNode.UvcSet` | crates/libobsbot-core/src/transport/usb.rs:51-67 | An accepted SET of the right size makes its register hold the payload and changes no other register; a refused one changes none unless it is a pan/tilt. |
| `UvcTransport.VideoNode.UvcGet` | crates/libobsbot-core/src/transport/usb.rs:69-84 | An accepted GET_CUR of the right size fills the buffer with its register; shorter answers go to the front of the buffer, an error leaves it alone, and no register changes. |
| `ControlStoreLaws.StoredValue` | crates/libobsbot-core/src/transport/uvcvideo.rs:280-294 | Brightness is stored with its sign and every other one- or two-byte control without one. |
| `ControlStoreLaws.SetStoresByNumber` | crates/libobsbot-core/src/transport/uvcvideo.rs:123-137 | For each of the six two-byte controls by unit and selector: a SET that the kernel takes changes the V4L2 control with its documented number, to the number the two bytes make, and nothing else; only brightness has a sign. |
| `ControlStoreLaws.SetStoresAuto` | crates/libobsbot-core/src/transport/uvcvideo.rs:130-130 | The same of automatic white balance, one byte. |
| `ControlStoreLaws.GetShowsByNumber` | crates/libobsbot-core/src/transport/uvcvideo.rs:164-185 | A GET at each of the seven answers from that same control, its current value, its minimum or its maximum as asked, cut to the buffer's length. |
| `ControlStoreLaws.PantiltByNumber` | crates/libobsbot-core/src/transport/uvcvideo.rs:189-229 | A pan/tilt SET stores its halves in PAN_ABSOLUTE and TILT_ABSOLUTE, by number, and a GET answers from both, for all three requests. |
| `ControlStoreLaws.OthersAreRegisters` | crates/libobsbot-core/src/transport/uvcvideo.rs:45-70 | Every other unit and selector goes to the extension unit: a register of a fixed size that a SET replaces and a GET returns, with its own minimum and maximum. |
| `ControlStoreLaws.PayloadIsKept` | crates/libobsbot-core/src/transport/uvcvideo.rs:280-294 | Whatever the extension did, the low bytes of the stored value are the payload of one, two or four bytes. |
| `ControlStoreLaws.ReadBackIsExact` | crates/libobsbot-core/src/transport/uvcvideo.rs:164-185 | A payload of any length read back into a zeroed buffer of its length is itself if and only if it has one, two or four bytes or is all zeros. |
| `ControlStoreLaws.SetThenGet` | crates/libobsbot-core/src/transport/uvcvideo.rs:153-229 | The same of an accepted SET and GET of any mapped control; pan and tilt always come back. |
| `ControlStoreLaws.RefusedSetChangesNothing` | crates/libobsbot-core/src/transport/uvcvideo.rs:189-200 | A refused SET leaves every control as it was if and only if it is not a pan/tilt whose pan, a new one, the kernel took. |
| `ControlStoreLaws.SetWritesOneRegister` | crates/libobsbot-core/src/transport/uvcvideo.rs:123-200 | An accepted SET of the right size makes its register hold the payload and leaves every other register alone. |
| `ControlStoreLaws.GetReadsTheRegister` | crates/libobsbot-core/src/transport/uvcvideo.rs:164-229 | A GET that succeeds returns its register, and no GET changes any. |
| `ControlStoreLaws.RouteIsPlainStore` | crates/libobsbot-core/src/transport/uvcvideo.rs:123-229 | Over any sequence of right-sized transfers, whichever the kernel refuses, every reply is that of a plain map from (entity, selector) to bytes that started in agreement, as long as no pan/tilt is left half done. |
| `Controls.Device.SetNumber` | crates/libobsbot-core/src/device.rs:416-471 | A number out of the control's range, -32768..32767 for brightness and 0..65535 otherwise, is OutOfRange and changes nothing; an accepted one changes that setting and no other; a refused one changes none. |
| `Controls.Device.SetLens` | crates/libobsbot-core/src/device.rs:228-255 | The same of zoom and focus, which drop the fraction. |
| `Controls.Device.SetWhiteBalance` | crates/libobsbot-core/src/device.rs:597-619 | Auto sets the mode; Manual sets mode and temperature, 6500 by default; a refusal leaves the settings, or, in Manual, no more than the mode changed. |
| `Controls.Device.SetPanTilt` | crates/libobsbot-core/src/device.rs:209-221 | A position outside -1..1 on either axis is OutOfRange and changes nothing; an accepted one sets both axes to 540000 times itself, truncated; a refusal leaves both, or only the pan changed. |
| `Controls.PositionRoundTrip` | crates/libobsbot-core/src/device.rs:209-271 | A position set and read back is within one arc-second of what was asked, towards the centre, and equal to it if and only if that is a whole number of arc-seconds. |
| `Controls.Device.GetPanTilt` | crates/libobsbot-core/src/device.rs:260-271 | Returns the two stored positions, divided by 540000, and changes nothing. |
| `Controls.Device.GetNumber` | crates/libobsbot-core/src/device.rs:423-471 | Returns the setting and changes none. |
| `Controls.Device.SampleStatus` | crates/libobsbot-core/src/device.rs:1000-1041 | Reads five controls in turn, each failure leaving its field's default; what the fields then show is the last row. |
| `SettingsLaws.PerformRefines` | crates/libobsbot-core/src/device.rs:416-471 | An operation that succeeds does to the camera, and answers, what it would do to a record of its nine settings; out-of-range errors come exactly from numbers out of range and change nothing. |
| `SettingsLaws.ViewIsControls` | crates/libobsbot-core/src/device.rs:228-271 | The nine settings are what the nine V4L2 controls hold, each by its number: the low sixteen bits (signed in brightness), the low byte of automatic white balance, the two positions whole. |
| `SettingsLaws.NumberIsPut` | crates/libobsbot-core/src/device.rs:416-471 | Brightness in -32768..32767 and the other numbers in 0..65535 are stored as they are in the control of that number, if the kernel takes them; outside, OutOfRange and no call at all. |
| `SettingsLaws.WhiteBalanceIsPut` | crates/libobsbot-core/src/device.rs:597-619 | Auto stores 1 in AUTO_WHITE_BALANCE; Manual stores 0 there and then, if that was taken, the temperature, 6500 by default, in WHITE_BALANCE_TEMPERATURE. |
| `SettingsLaws.PanTiltIsPut` | crates/libobsbot-core/src/device.rs:209-221 | A position is taken if and only if the kernel takes both calls, and is then in the two controls of its axes. |
| `SettingsLaws.RefusedOpChangesNothing` | crates/libobsbot-core/src/device.rs:604-618 | A refused operation leaves all settings as they were if and only if it is neither a manual white balance that had already left auto nor a pan/tilt whose new pan was taken. |
| `SettingsLaws.EveryAnswerIsExpected` | crates/libobsbot-core/src/device.rs:416-471 | Over any sequence of operations, of which the camera may refuse any but leaves none half performed, each unrefused one answers what the unrefused ones before it imply: a setting reads back as last set, whatever else was set or refused in between. |
| `SettingsLaws.SampleShowsView` | crates/libobsbot-core/src/device.rs:1000-1041 | A status sample changes nothing, and each field shows its setting if its own read was answered and its default if not. |

## Left out

- Kernel behaviour behind the ioctls: the kernel's own clamping of control values, its error numbers, `UVCIOC_CTRL_MAP`. An accepted SET stores the value it was given.
- sysfs: reading the attribute files in `linux::enumerate` and `open_for`; a listing is any sequence of nodes, unreadable ones among them. The fields of `DeviceInfo` that are the same for every listed camera.
- The macOS transport and enumeration, and the other form of `device_key`: foreign calls.
- `f32`: positions, zoom and focus are real numbers here, so neither rounding nor NaN is modelled.
- Real time, weak memory and thread creation. `Relaxed` atomics are taken as sequentially consistent.
- The enum tables (`encode_*`, `decode_*`, `*_from_int`), the one-line setters over `mode_register_payload`, the exposure, focus-mode and other controls without arithmetic, and the `*_range` getters: case tables and repetitions of `SetNumber` and `GetNumber`. MIN and MAX requests are modelled up to `UvcGet`.
- NULL arguments, `map_error`, error texts, tracing, `obsbot_devices_poll_event`.
- Which constants the camera itself uses: they are inputs.
- Handshake.RequestThenReply: stands for both `learn_mac` and `rpc_request_then_reply`, whose loops are the same but for the decoder; the sleep between two polls is not part of it.
- Handshake.Device.FirmwareParsed: its BadResponse branch, which is shown to be dead, carries no text.
- The captured frames that the unit tests pin: finite computations on constants.
- FrameLaws.CorruptHeaderIsSeen: bursts across the edge of the checksum field are excluded, because some escape; FrameLaws.CorruptHeaderExactly says which errors do.
- FrameLaws.CorruptPayloadIsSeen: likewise, and errors in the length field, some of which escape (FrameLaws.LengthErrorMayEscape); FrameLaws.CorruptInnerExactly says which errors do.
- RpcFrame.BuildRpcFrame: illegal arguments, on which the source panics, are excluded.
- ModeRegister.ModeRegisterPayload: values that do not fit, on which the source panics, are excluded.
- CStrings.ObsbotStatus.Fill: takes ASCII strings, the only ones that the decoders produce.
- Hotplug.HotplugLoop: a stop flag that is never set and a channel that is never closed make the source loop forever; every finite part of such a run is a run with a later stop, and the laws hold of all of them.
- Poller.PollLoop: likewise, the owner drops the device at some point, as late as one likes; the laws about runs do not assume it.
- Controls.Device.SetPanTilt: multiplies real numbers; the rounding of the `f32` product can move the truncated value by one.
- Controls.Device.GetPanTilt: divides real numbers; the rounding of the `f32` quotient is left out.
- Controls.PositionRoundTrip: is about both of these, so it holds of `f32` positions up to that rounding.
- SettingsLaws.EveryAnswerIsExpected: half-performed operations are excluded; what one leaves behind is in SettingsLaws.RefusedHalves, and when it does, in SettingsLaws.RefusedOpChangesNothing.
