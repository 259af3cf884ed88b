# RealMesh firmware core in Dafny

This project models the deterministic core of the RealMesh LoRa mesh firmware and proves properties of the model. It covers seven parts:

- **Wire format and constructors.** The packed 23-byte message header in little-endian byte order, the additive 16-bit header checksum, length-prefixed strings, UUIDs and node addresses. It also covers whole-packet `serialize`/`deserialize`, message-id mixing and the data, ACK, name-conflict and heartbeat packet constructors (`Packet`, in `packet.dfy`).
- **Routing engine.** A `RealMeshRouter` class whose routing table, subdomain table, bridge memory, counters and heartbeat clock are the source's fields. Its methods are specified against pure table functions (`Routing`, in `router.dfy`). It covers:
  - route upsert, removal, scoring and eviction, and expiry;
  - hub and bridge de-duplication;
  - the path-history shift and loop test;
  - the delivery and forwarding decisions;
  - the fixed strategy order direct → subdomain → flood.

  The send callback is a `PacketSink` object: an oracle that answers each packet and logs every call.
- **Node.** The name validator, `name@subdomain` parsing, identity validation, and the `RealMeshNode` state machine: `changeState`, discovery, the `loop` dispatch and the send guards (`Node`, in `node.dfy`).
- **Value types.** UUID equality and hex rendering, and the full and internal address strings (`MeshTypes`, in `mesh_types.dfy`).
- **Build-time name.** The firmware name computed by the PlatformIO hook: sanitising, defaulting, composing and applying it (`RenameFirmware`, in `rename_firmware.dfy`).
- **E-ink display.** The buffer-size arithmetic, the pixel → (byte, bit) mapping, the redraw rate limit and the pixel copy loop into the panel driver (`EInk`, in `eink.dfy`).
- **Shared definitions.** Fixed-width integers, byte-sized characters, the configuration constants and 32-bit clock arithmetic (`Common`, in `common.dfy`).

Modelling decisions:

- An Arduino `String` is a `seq<Char8>`, where each character is below 256. Python strings are plain `string`.
- `millis()` is an explicit `now: u32` argument. An elapsed time is `(now - then) mod 2^32`, and wrap-around is modelled.
- Counters wrap at their C width (`Inc32`, `Inc16`).
- These become arguments:
  - the function-local static sequence counters;
  - the random numbers;
  - the heartbeat's JSON text;
  - the indeterminate UUID of a default-constructed address.
- Every router send (`routeMessage`, the forwarding relays, heartbeats, the ACK) goes through `Transmit`, which re-stamps the checksum over the header as sent. The router contracts therefore describe the corrected send path; the code's own send, which passes the packet with a stale checksum, is modelled by `Packet.PathShift` and `Packet.RoutedDataPacketRejected` (see Findings).
- The header is modelled from its field layout, which is 23 bytes. `RM_HEADER_SIZE` (include/RealMeshConfig.h:76) and the comment above the struct say 32, and the payload bound of 223 bytes is derived from that 32; `MeshTypes.HeaderSizeIs23` records the difference.

## Model

| member | source | states |
|---|---|---|
| Common.Elapsed | src/EInkDisplay.cpp:52 | unsigned 32-bit `now - since`: the plain difference when `since <= now`, and `now - since + 2^32` after a wrap |
| Common.Inc32 | src/RealMeshRouter.cpp:52 | `x++` on a `uint32_t`: one more, except that 0xFFFFFFFF wraps to 0 |
| Common.Inc16 | src/RealMeshRouter.cpp:255 | `x++` on a `uint16_t`: one more, except that 0xFFFF wraps to 0 |
| Common.Zeros | src/RealMeshPacket.cpp:111 | a zero-filled region has the requested length and every byte 0 |
| Common.StrBytes | src/RealMeshPacket.cpp:296-298 | the bytes pushed for a string: one per character, same length, same values |
| Common.BytesStr | src/RealMeshPacket.cpp:310-312 | the string rebuilt from bytes: one character per byte, same values |
| Common.StrBytesRoundTrip | src/RealMeshPacket.cpp:296-312 | converting a string to bytes and back gives the same string |
| MeshTypes.DirectEncryptedFlags | src/RealMeshPacket.cpp:118-119 | `ROUTE_DIRECT \| ROUTE_ENCRYPTED` has exactly the DIRECT and ENCRYPTED bits, not SUBDOMAIN_RETRY or FLOOD |
| MeshTypes.MemEqual | include/RealMeshTypes.h:55 | `memcmp(a, b, n) == 0` holds iff the first n bytes of the two arrays agree |
| MeshTypes.UuidEquals | include/RealMeshTypes.h:54-56 | UUID `==` holds iff the two UUIDs are equal, iff all 8 bytes agree |
| MeshTypes.HexDigit | include/RealMeshTypes.h:62 | a hex digit is `0-9` or lower-case `a-f` |
| MeshTypes.HexValueOfDigit | include/RealMeshTypes.h:62 | reading a rendered hex digit back gives the digit's value |
| MeshTypes.ByteHexDigits | include/RealMeshTypes.h:61-62 | one loop step, the `"0"` pad plus `String(b, HEX)`, is exactly two digits: high nibble then low nibble |
| MeshTypes.HexOfBytesLayout | include/RealMeshTypes.h:58-65 | the rendering of n bytes has 2n characters, and character 2i/2i+1 is byte i's high/low nibble |
| MeshTypes.UuidToStringLayout | include/RealMeshTypes.h:58-65 | `toString` is 16 characters: two zero-padded lower-case digits per byte, in byte order |
| MeshTypes.UuidHexRoundTrip | include/RealMeshTypes.h:58-65 | parsing the hex string back recovers the UUID |
| MeshTypes.UuidToStringInjective | include/RealMeshTypes.h:58-65 | distinct UUIDs render as distinct strings |
| MeshTypes.FullAddressLayout | include/RealMeshTypes.h:74-76 | the full address is the node id, then `@`, then the subdomain, with the sum of the lengths plus one |
| MeshTypes.InternalAddress | include/RealMeshTypes.h:78-80 | the internal address is the full address, `_`, then the first four hex characters of the UUID (the digits of bytes 0 and 1) |
| MeshTypes.FullAddressInjective | src/RealMeshRouter.cpp:491-493 | with no `@` in the node ids, two addresses share a routing key only when node id and subdomain agree |
| MeshTypes.FullAddressCollision | src/RealMeshRouter.cpp:491-493 | with an `@` in a node id, `a` @ `b@c` and `a@b` @ `c` share one routing key |
| MeshTypes.TotalSize | include/RealMeshTypes.h:111-113 | `getTotalSize` is the header size plus the payload length, so between 23 and 278 |
| MeshTypes.HeaderSizeIs23 | include/RealMeshTypes.h:88-102 | the packed header is 23 bytes, not the configured 32 |
| Packet.LE16 | src/RealMeshPacket.cpp:16-17 | a `uint16_t` is laid out as two bytes |
| Packet.LE32 | src/RealMeshPacket.cpp:16-17 | a `uint32_t` is laid out as four bytes |
| Packet.LE16RoundTrip | src/RealMeshPacket.cpp:40 | reading back a 16-bit field's bytes gives the field |
| Packet.LE32RoundTrip | src/RealMeshPacket.cpp:40 | reading back a 32-bit field's bytes gives the field |
| Packet.LE16OfRead | src/RealMeshPacket.cpp:40 | any two bytes are the layout of the 16-bit value read from them |
| Packet.LE32OfRead | src/RealMeshPacket.cpp:40 | any four bytes are the layout of the 32-bit value read from them |
| Packet.HeaderBytes | include/RealMeshTypes.h:88-102 | the header's memory image is `sizeof(MessageHeader)` (23) bytes |
| Packet.HeaderBytesSlices | include/RealMeshTypes.h:88-102 | each header field sits at its packed offset: id 0-3, timestamp 4-7, sequence 8-9, the eight byte fields 10-17, path history 18-20, checksum 21-22 |
| Packet.HeaderRoundTrip | src/RealMeshPacket.cpp:40-42 | `memcpy` of a header image back gives the same header, and the cursor then stands at the bytes that followed |
| Packet.ParseHeaderBytes | src/RealMeshPacket.cpp:40 | any 23 input bytes are exactly the image of the header read from them |
| Packet.CalculateChecksum | src/RealMeshPacket.cpp:93-102 | the accumulator loop returns the sum of the 21 header bytes before the checksum field, masked to 16 bits |
| Packet.ChecksumIsFieldSum | src/RealMeshPacket.cpp:93-102 | the checksum equals the byte-wise sum of the covered fields and is at most 21 × 255, so the mask never cuts |
| Packet.ChecksumIgnoresChecksumField | src/RealMeshPacket.cpp:85-91 | the checksum does not depend on the checksum field, so zeroing it first changes nothing |
| Packet.ValidateChecksumIff | src/RealMeshPacket.cpp:85-91 | `validateChecksum(h)` holds iff `h.checksum` equals the computed checksum |
| Packet.Stamp | src/RealMeshPacket.cpp:139 | writing `checksum := calculateChecksum(header)` always validates and changes no other field |
| Packet.StampValidHeader | src/RealMeshPacket.cpp:85-91 | stamping a header that already validates leaves it as it is |
| Packet.EncodeString | src/RealMeshPacket.cpp:293-299 | `serializeString` writes `min(len, 255)` then that many characters; when len ≤ 255 that is the length and all characters |
| Packet.SerializeString | src/RealMeshPacket.cpp:293-299 | the push loop appends exactly the encoding to the buffer |
| Packet.DecodeString | src/RealMeshPacket.cpp:301-317 | decoding fails iff no byte remains or the length byte exceeds what is left; on success the string has that length, 1 + len bytes are consumed, and the input is the encoding followed by the rest |
| Packet.DeserializeString | src/RealMeshPacket.cpp:301-317 | the cursor loop succeeds iff the decoder does, returns its string, and advances the cursor by exactly 1 + len; on failure the length byte, if any, has been consumed |
| Packet.EncodeUuid | src/RealMeshPacket.cpp:319-321 | a UUID is written as its 8 raw bytes |
| Packet.DecodeUuid | src/RealMeshPacket.cpp:323-330 | reading a UUID fails iff fewer than 8 bytes remain; on success the input is the UUID's bytes followed by the rest |
| Packet.UuidRoundTrip | src/RealMeshPacket.cpp:319-330 | a UUID's encoding followed by any bytes decodes to that UUID, leaving exactly those bytes |
| Packet.EncodeAddress | src/RealMeshPacket.cpp:281-285 | an address is 2 + the two capped string lengths + 8 bytes: node id, subdomain, UUID |
| Packet.DecodeAddress | src/RealMeshPacket.cpp:287-291 | a decoded address is exactly the encoding at the start of the input, with strings of at most 255 characters |
| Packet.AddressRoundTrip | src/RealMeshPacket.cpp:281-291 | an address with strings of at most 255 characters decodes from its encoding followed by any bytes, leaving those bytes |
| Packet.StringRoundTrip | src/RealMeshPacket.cpp:293-317 | a string of at most 255 characters decodes from its encoding and consumes exactly 1 + len bytes |
| Packet.LongStringTruncated | src/RealMeshPacket.cpp:294 | a longer string comes back as its first 255 characters |
| Packet.Serialize | src/RealMeshPacket.cpp:11-29 | the output is exactly the 23-byte header, the two address encodings (each 2 + the capped string lengths + 8) and payloadLength payload bytes long |
| Packet.DeserializeAsWritten | src/RealMeshPacket.cpp:31-67 | the code as written: on success the header is read from the first 23 bytes and validates, and exactly `payloadLength` bytes are copied, with no bound against the payload array |
| Packet.Overwrite | src/RealMeshPacket.cpp:64 | `memcpy` into the payload array replaces its first bytes and keeps the rest |
| Packet.Deserialize | src/RealMeshPacket.cpp:31-67 | the corrected decoder: on success payloadLength ≤ 223, the header is read and validates, and payload bytes past the copied length stay as they were |
| Packet.AsWrittenOfParts | src/RealMeshPacket.cpp:31-67 | a valid header, two decodable addresses and enough payload bytes decode to exactly those parts |
| Packet.DeserializeAgreesWithCode | src/RealMeshPacket.cpp:60-64 | the corrected decoder succeeds iff the code does with a length of at most 223, and then returns the same parts |
| Packet.SerializedParts | src/RealMeshPacket.cpp:11-29 | a serialised packet is header image, source, destination and payload, concatenated |
| Packet.AsWrittenDecodesSerialized | src/RealMeshPacket.cpp:11-67 | the code decodes a serialised packet followed by any bytes into its header, addresses and first payloadLength payload bytes |
| Packet.SerializedHeader | src/RealMeshPacket.cpp:16-17 | the header is read back from the first bytes of a serialised packet |
| Packet.PacketRoundTrip | src/RealMeshPacket.cpp:11-67 | a packet with a valid checksum and strings of at most 255 characters decodes back: same header, same addresses, same first payloadLength bytes; trailing bytes are ignored |
| Packet.PacketRoundTripExact | src/RealMeshPacket.cpp:11-67 | decoding into a packet that holds the same payload gives back the packet itself |
| Packet.AsWrittenInverts | src/RealMeshPacket.cpp:31-67 | whatever the code accepts is a header image, two address encodings and the copied bytes at the start of the input |
| Packet.DeserializeInvertsSerialize | src/RealMeshPacket.cpp:31-67 | decoding succeeds only on a serialised packet followed by trailing bytes |
| Packet.DeserializeRejects | src/RealMeshPacket.cpp:31-67 | decoding fails on input shorter than the header, on a bad checksum, on a truncated source or destination address, and on fewer than payloadLength remaining bytes |
| Packet.AsWrittenOverflowsPayload | src/RealMeshPacket.cpp:60-64 | there is an input the code accepts that copies more than 223 bytes into the 223-byte payload |
| Packet.DeserializeRejectsOversizedPayload | src/RealMeshPacket.cpp:60-64 | the corrected decoder rejects every header whose payloadLength exceeds 223 |
| Packet.XorBits | src/RealMeshPacket.cpp:75 | the exclusive or of the low n bits is below 2^n |
| Packet.XorBitsCancel | src/RealMeshPacket.cpp:79-80 | XORing twice with the same value gives back any value of that width |
| Packet.XorBitsCommutes | src/RealMeshPacket.cpp:79-80 | XOR is commutative |
| Packet.Xor32Injective | src/RealMeshPacket.cpp:79-80 | XOR with a fixed 32-bit value is one-to-one |
| Packet.GenerateMessageId | src/RealMeshPacket.cpp:69-83 | the loop computes the UUID word (bytes 0-3 shifted into place) XOR timestamp XOR (sequence << 16), truncated to 32 bits |
| Packet.MessageIdDistinctSequences | src/RealMeshPacket.cpp:79-80 | one source at one timestamp never repeats an id for two different sequence numbers |
| Packet.MessageIdDistinctTimestamps | src/RealMeshPacket.cpp:79 | one source with one sequence number never repeats an id for two different timestamps |
| Packet.CopyCString | src/RealMeshPacket.cpp:128 | `getBytes` into the payload yields n bytes, equal to the text's bytes when the text has no NUL |
| Packet.CreateDataPacket | src/RealMeshPacket.cpp:104-142 | version 1, type DATA, the given priority, DIRECT (\| ENCRYPTED), hop count 0, max hops 10, zeroed path history, payload length `min(len, 222)` holding the text's bytes (when it has no NUL) with a zero tail, the given addresses, and a valid checksum |
| Packet.CreateAckPacket | src/RealMeshPacket.cpp:187-218 | version 1, type ACK, control priority, DIRECT, hop count 0, max hops 10, zeroed path history, exactly 4 payload bytes that read back as the acknowledged id, the given addresses, and a valid checksum |
| Packet.CreateNameConflictPacket | src/RealMeshPacket.cpp:220-252 | version 1, type NAME_CONFLICT, control priority, DIRECT, hop count 0, max hops 1, zeroed path history, the reason cut to 222 bytes (its bytes when it has no NUL), the given addresses, and a valid checksum |
| Packet.CreateHeartbeatPacket | src/RealMeshPacket.cpp:144-185 | version 1, type HEARTBEAT, control priority, FLOOD, hop count 0, max hops 3, zeroed path history, the text cut to 222 bytes (its bytes when it has no NUL), the broadcast destination, and a valid checksum |
| Packet.DataPacketRoundTrip | src/RealMeshPacket.cpp:104-142 | every data packet the constructor builds serialises and decodes back to itself |
| Packet.TotalSizeOmitsAddresses | include/RealMeshTypes.h:111-113 | `getTotalSize` is the header image plus the payload; it equals the serialised length minus the two address encodings, so it is short of the wire size by at least 20 bytes |
| Packet.PathShift | src/RealMeshRouter.cpp:520-528 | the code's path-history shift on a header: slots become `[id, old0, old1]` and no other field (the checksum included) changes |
| Packet.PathShiftBreaksChecksum | src/RealMeshRouter.cpp:332-335 | shifting in an id that differs from the dropped slot makes a valid header invalid |
| Packet.RoutedDataPacketRejected | src/RealMeshRouter.cpp:324-340 | a data packet sent on by the direct route as written (flags set, own hop recorded, no re-stamp) is rejected by every receiver's `deserialize` when the node's id byte is not zero |
| Packet.StampAfterShift | src/RealMeshRouter.cpp:520-528 | re-stamping after the shift gives a valid header that keeps the shifted path history |
| Routing.RecentRouteNotExpired | src/RealMeshRouter.cpp:542-547 | a route used less than an hour ago is not expired, whatever the status |
| Routing.ExpiryDependsOnStatus | src/RealMeshRouter.cpp:545 | between one hour and one day after its last use, a route is expired for a mobile node and live for a stationary one |
| Routing.ExpiryAcrossWrap | src/RealMeshRouter.cpp:546 | a route used just before the 32-bit clock wraps is still live just after it |
| Routing.LookupRoute | src/RealMeshRouter.cpp:235-244 | `findRoute` returns an entry iff the full-address key is present, valid and not expired, and then it is that entry |
| Routing.WithRoute | src/RealMeshRouter.cpp:176-186 | `addRoute` adds the destination's key and no other, and leaves every other entry unchanged |
| Routing.WithoutRoute | src/RealMeshRouter.cpp:198-209 | `removeRoute` deletes only the destination's key and leaves every other entry unchanged; an absent key is a no-op |
| Routing.UpdatedReliability | src/RealMeshRouter.cpp:220-224 | success gives `min(100, r + 5)`, and failure gives `max(0, r - 20)` |
| Routing.WithQuality | src/RealMeshRouter.cpp:211-233 | an unknown destination is a no-op; a known one is kept iff its new score `UpdatedReliability(r, success)` is at least 20, and then holds `now`, the RSSI byte and that score; no key is added and every other entry is unchanged |
| Routing.WithRouteWellKeyed | src/RealMeshRouter.cpp:176-186 | `addRoute` keeps every entry under its own destination's key with reliability 20..100 |
| Routing.WithQualityWellKeyed | src/RealMeshRouter.cpp:211-233 | `updateRouteQuality` keeps that invariant |
| Routing.RefreshedWellKeyed | src/RealMeshRouter.cpp:337 | refreshing a route's last use after a direct send keeps the invariant and the key set |
| Routing.AddThenFind | src/RealMeshRouter.cpp:176-186 | right after `addRoute` the route is found, with the given next hop and hop count and reliability 100 |
| Routing.RemoveThenFind | src/RealMeshRouter.cpp:198-209 | after `removeRoute` the route is not found, and removing it twice is removing it once |
| Routing.FailuresFromFull | src/RealMeshRouter.cpp:223 | n failures from a fresh route leave `max(0, 100 - 20n)` |
| Routing.FailuresAfter | src/RealMeshRouter.cpp:223 | from any score r, n failures in a row leave `max(0, r - 20n)` |
| Routing.FailuresToEviction | src/RealMeshRouter.cpp:223-231 | a fresh route stays above the eviction threshold iff it has had fewer than 5 consecutive failures |
| Routing.SuccessNeverEvicts | src/RealMeshRouter.cpp:220-231 | a success never removes a known well-scored route and stamps its last use |
| Routing.WithHub | src/RealMeshRouter.cpp:479-485 | after adding, the hub is in the list; distinct lists stay distinct; the old list is a prefix and at most one hub is added |
| Routing.WithHubIdempotent | src/RealMeshRouter.cpp:479-485 | adding a hub twice is adding it once |
| Routing.WithStationaryHubWellFormed | src/RealMeshRouter.cpp:475-489 | `addStationaryHub` keeps every subdomain's hubs distinct and inside that subdomain, records the hub under its subdomain, and leaves the other subdomains alone |
| Routing.WithStationaryHubIdempotent | src/RealMeshRouter.cpp:475-489 | adding the same hub twice gives the same subdomain table as adding it once |
| Routing.RoutedHubsMembers | src/RealMeshRouter.cpp:460-473 | a helper is exactly a hub of the subdomain with a usable route |
| Routing.BridgeIndex | src/RealMeshRouter.cpp:248-259 | the found entry records the pair in one order or the other; when none is found, no entry does |
| Routing.WithBridge | src/RealMeshRouter.cpp:246-274 | the first entry for the pair (in either order) gets the time, its 16-bit count incremented and active set, and every other entry is unchanged; an unknown pair is appended as a new active entry with count 1 |
| Routing.SameBridgeSymmetric | src/RealMeshRouter.cpp:249-252 | an entry matches (a, b) iff it matches (b, a) |
| Routing.BridgeIndexSymmetric | src/RealMeshRouter.cpp:248-252 | (a, b) and (b, a) find the same entry |
| Routing.WithBridgeSymmetric | src/RealMeshRouter.cpp:246-274 | for a pair already recorded, recording (a, b) and recording (b, a) give the same memory (a new pair is appended in the order given) |
| Routing.WithBridgeDistinct | src/RealMeshRouter.cpp:246-274 | recording never creates a second entry for one unordered pair |
| Routing.RecordedBothWays | src/RealMeshRouter.cpp:246-274 | recording (a, b) then (b, a) leaves one entry for the pair, with a count of at least 2 unless it wrapped |
| Routing.BridgeIndexFirst | src/RealMeshRouter.cpp:248-258 | the first matching position is the one the search stops at |
| Routing.DeliveryCases | src/RealMeshRouter.cpp:501-518 | the broadcast address reaches every node; a packet naming another node (node ids without `@`) is not for us |
| Routing.OwnHopRecorded | src/RealMeshRouter.cpp:520-540 | after `addToPathHistory` the node finds itself in the path history, and every id except the dropped one is still there |
| Routing.Stamped | src/RealMeshRouter.cpp:335 | the corrected send path: the copy handed to the send callback carries a checksum recomputed over its final fields and differs from the packet only in that field (the code as written passes the packet unstamped, see Findings) |
| Routing.StopsCompose | src/RealMeshRouter.cpp:99-113 | failed attempts followed by attempts that stop at their first success stop at that success as a whole |
| Routing.HubAttemptAppended | src/RealMeshRouter.cpp:354-377 | one more SUBDOMAIN_RETRY attempt to a routed hub extends the subdomain attempts in order |
| Routing.ComposeFallback | src/RealMeshRouter.cpp:104-111 | failed subdomain attempts followed by one flood attempt are in strategy order, SUBDOMAIN_RETRY before FLOOD |
| Routing.ComposeRoute | src/RealMeshRouter.cpp:99-113 | a failed direct attempt followed by the fallback is in strategy order: flags strictly increase between strategies |
| Routing.TriedInTurnShape | src/RealMeshRouter.cpp:99-111 | read back from the routing-table outcome: the first attempt is DIRECT exactly when a route exists, there are no SUBDOMAIN_RETRY attempts without routed helpers, and a failed run made every attempt and ended in a flood |
| Routing.FallbackTried | src/RealMeshRouter.cpp:104-111 | subdomain attempts to the helpers in order, then a flood unless one accepted, are the fallback's share of the routing-table outcome |
| Routing.DirectThenTried | src/RealMeshRouter.cpp:99-103 | a direct attempt made exactly when a route exists, before the fallback, gives the whole routing-table outcome |
| Routing.HubsTriedExtend | src/RealMeshRouter.cpp:354-377 | one more attempt, to the next helper, keeps the subdomain attempts in helper order |
| Routing.RealMeshRouter.TryHub | src/RealMeshRouter.cpp:355-376 | one pass of the subdomain loop: at most one SUBDOMAIN_RETRY attempt, addressed to the helper, logged exactly when a send callback is set, with the destination restored afterwards |
| Routing.ForwardCopyHop | src/RealMeshRouter.cpp:418-420 | a relayed copy has exactly one more hop, the same message and flags, and the relay's id in its path history |
| Routing.ForwardedCopyNotForwardedAgain | src/RealMeshRouter.cpp:397-401 | a relayed copy returning to the same node is dropped, so forwarding cannot loop through it |
| Routing.ForwardOutcome | src/RealMeshRouter.cpp:397-445 | the hub copy and the flood copy of `shouldForwardPacket` together are exactly the forwarding outcome `Forwarded`, and the bridge case is the accepted hub copy |
| Routing.ForwardedCases | src/RealMeshRouter.cpp:397-445 | nothing is sent for a packet that must be dropped or without a callback; a FLOOD packet outside the hub case is relayed exactly once; an accepted hub copy is not followed by a flood copy |
| Routing.HeartbeatInterval | src/RealMeshRouter.cpp:132 | 3 s during the first minute; after it, 15 s when stationary and 30 s otherwise |
| Routing.HeartbeatHoldsBackNext | src/RealMeshRouter.cpp:130-136 | right after an accepted heartbeat, a second `sendHeartbeat` at the same instant sends nothing |
| Routing.StationaryBeatsMoreOften | src/RealMeshRouter.cpp:132 | a stationary node never waits longer than a mobile one, and after the first minute it always waits strictly less |
| Routing.LearnedRouteFound | src/RealMeshRouter.cpp:447-451 | a packet heard directly leaves a usable one-hop route back to its sender, at reliability 100 |
| Routing.WithLocalSubdomainWellFormed | src/RealMeshRouter.cpp:30-34 | `begin` names our subdomain, marks it local, adds us as a known node, and keeps the hub invariant |
| Routing.PacketSink.Send | src/RealMeshRouter.cpp:335 | each call of the send callback is logged with its answer |
| Routing.RealMeshRouter.constructor | src/RealMeshRouter.cpp:12-24 | mobile status, empty tables, no callbacks, zero counters, and the stats' heartbeat time now |
| Routing.RealMeshRouter.SetCallbacks | src/RealMeshRouter.cpp:296-300 | records which callbacks are installed |
| Routing.RealMeshRouter.FindRoute | src/RealMeshRouter.cpp:235-244 | the lookup on the router's own table and status |
| Routing.RealMeshRouter.Transmit | src/RealMeshRouter.cpp:335 | `sendCallback && sendCallback(packet)` on the corrected send path: with no callback, nothing is sent and the result is false; otherwise exactly one copy, re-stamped by `Stamped`, is logged with the answer (the code as written sends the packet unstamped, see Findings) |
| Routing.RealMeshRouter.AddRoute | src/RealMeshRouter.cpp:176-196 | the table becomes `WithRoute` of the old one and the invariant is kept |
| Routing.RealMeshRouter.RemoveRoute | src/RealMeshRouter.cpp:198-209 | the table becomes `WithoutRoute` of the old one |
| Routing.RealMeshRouter.UpdateRouteQuality | src/RealMeshRouter.cpp:211-233 | the table becomes `WithQuality` of the old one, eviction included |
| Routing.RealMeshRouter.AddStationaryHub | src/RealMeshRouter.cpp:475-489 | the search loop leaves the subdomain table equal to `WithStationaryHub` of the old one |
| Routing.RealMeshRouter.FindSubdomainHelpers | src/RealMeshRouter.cpp:460-473 | the helpers are the target's hubs with a usable route, in hub order |
| Routing.RealMeshRouter.RecordBridge | src/RealMeshRouter.cpp:246-274 | the search loop leaves the bridge memory equal to `WithBridge` of the old one |
| Routing.RealMeshRouter.AddToPathHistory | src/RealMeshRouter.cpp:520-528 | the shift loop puts our id first and moves slots 0 and 1 to 1 and 2 |
| Routing.RealMeshRouter.IsInPathHistory | src/RealMeshRouter.cpp:530-540 | the scan finds the id iff it is in one of the three slots |
| Routing.RealMeshRouter.RoutePacketDirect | src/RealMeshRouter.cpp:324-343 | no usable route: nothing sent and the packet unchanged; otherwise the packet becomes DIRECT with our id shifted into its path history (`WithOwnHop`) and exactly one attempt is made when a callback is set; on success `messagesSent` + 1 and the route's last use refreshed |
| Routing.RealMeshRouter.RoutePacketSubdomain | src/RealMeshRouter.cpp:345-380 | same subdomain: nothing sent; otherwise SUBDOMAIN_RETRY attempts, stopping at the first success; with a send callback they go to the routed helpers of `findSubdomainHelpers` in order, and all of them are tried unless one accepts (`HubsTried`); the destination is restored and the count rises only on success |
| Routing.RealMeshRouter.RoutePacketFlood | src/RealMeshRouter.cpp:382-395 | the packet becomes FLOOD with hop count 0 and our id shifted into its path history (`WithOwnHop`); one attempt when a callback is set; the count rises only on success |
| Routing.RealMeshRouter.RouteMessage | src/RealMeshRouter.cpp:87-114 | no send callback: false and nothing sent; otherwise the data packet's attempts follow the routing table (`TriedInTurn`): one DIRECT attempt exactly when `findRoute` finds the destination, then one SUBDOMAIN_RETRY attempt per routed helper of another subdomain in order, then one FLOOD attempt, stopping early only at an accepted send; they stop at the first accepted one, and `ok` says whether one was accepted |
| Routing.RealMeshRouter.RouteInTurn | src/RealMeshRouter.cpp:99-111 | the three strategies in order against the routing table on entry (`TriedInTurn`): direct exactly when a route exists, then the routed helpers in order, then flood; the attempts are routed in order and `messagesSent` + 1 exactly on success |
| Routing.RealMeshRouter.RouteFallback | src/RealMeshRouter.cpp:104-111 | after a failed direct send: one SUBDOMAIN_RETRY attempt per routed helper, in helper order (none inside our own subdomain), then one flood unless a helper accepted (`TriedInTurn` with no direct attempt); the same counter rule |
| Routing.RealMeshRouter.RouteAfterDirect | src/RealMeshRouter.cpp:100-111 | a failed direct attempt, made exactly when the destination has a route, followed by the fallback is tried in turn as a whole (`TriedInTurn`): the routed helpers in order, then a flood; it stops at the first success and the strategies come in order |
| Routing.RealMeshRouter.SendDirectMessage | src/RealMeshRouter.cpp:116-118 | every packet sent carries direct priority and type DATA, and every one outside the subdomain hub attempts is addressed to the given destination |
| Routing.RealMeshRouter.SendPublicMessage | src/RealMeshRouter.cpp:120-123 | every packet sent carries public priority and the broadcast destination |
| Routing.RealMeshRouter.SendEmergencyMessage | src/RealMeshRouter.cpp:125-128 | every packet sent carries emergency priority and the broadcast destination |
| Routing.RealMeshRouter.UpdatePathFromPacket | src/RealMeshRouter.cpp:447-458 | hop count 0: route to the sender added and scored as a success; otherwise the table is unchanged |
| Routing.RealMeshRouter.Relay | src/RealMeshRouter.cpp:434-441 | one relayed copy with one more hop and our id, or nothing without a send callback |
| Routing.RealMeshRouter.HubRelay | src/RealMeshRouter.cpp:409-430 | a stationary hub with a route relays a SUBDOMAIN_RETRY packet for its own subdomain; on success it counts the forward and records the bridge, otherwise nothing changes |
| Routing.RealMeshRouter.ShouldForwardPacket | src/RealMeshRouter.cpp:397-445 | a packet already carrying our id, or out of hops, is dropped with nothing sent; otherwise the hub case runs, then a flood relay only for FLOOD packets; every copy sent has hop count + 1 |
| Routing.RealMeshRouter.DispatchPacket | src/RealMeshRouter.cpp:61-84 | for us: the result follows the type, exactly one ACK to the sender for DATA with a callback and nothing sent otherwise (`Acknowledged`), a heartbeat adds its route; not for us: the exact relay outcome (`Forwarded`), with `messagesForwarded` + 1 iff a copy was accepted and the bridge recorded iff the hub copy was; the packet is delivered exactly when it is DATA for us and a message callback is set |
| Routing.RealMeshRouter.RelayPacket | src/RealMeshRouter.cpp:83-84 | a packet not for us: one hub copy when the hub relay applies, then one flood copy for a FLOOD packet unless the hub copy was accepted, nothing when it must be dropped (`Forwarded`); `messagesForwarded` + 1 iff a copy was accepted, and the bridge is recorded iff the hub copy was |
| Routing.RealMeshRouter.HandleForUs | src/RealMeshRouter.cpp:61-81 | control, route, heartbeat, ACK and name-conflict messages return true; data returns false after an ACK to the sender and delivery; unknown types return false; a heartbeat adds a one-hop route |
| Routing.RealMeshRouter.ProcessIncomingPacket | src/RealMeshRouter.cpp:45-85 | an invalid packet is refused with nothing changed; a valid one is counted; the routing table becomes exactly what `updatePathFromPacket` learns from a sender other than us, plus the heartbeat's one-hop route when it is for us; if it is for us, the result follows its type and only the DATA ACK is sent (`Acknowledged`); otherwise the exact relay outcome (`Forwarded`) with the forward count and the bridge memory; it is delivered exactly when it is valid DATA for us and a message callback is set |
| Routing.RealMeshRouter.SendHeartbeat | src/RealMeshRouter.cpp:130-174 | too soon: true with nothing sent; otherwise one FLOOD heartbeat, and only an accepted send updates the heartbeat time and the sent count (`HeartbeatAttempt`) |
| Routing.RealMeshRouter.SetOwnStatus | src/RealMeshRouter.cpp:281-294 | the same status changes nothing; a new one is taken, a stationary node becomes its subdomain's hub, and `sendHeartbeat` runs under the new status: one heartbeat once its interval has elapsed and a callback is set, nothing otherwise (`HeartbeatAttempt`) |
| Routing.RealMeshRouter.Begin | src/RealMeshRouter.cpp:26-43 | returns true, our subdomain is present and local, and a stationary node is registered as its hub |
| Node.IsValidNodeId | src/RealMeshNode.cpp:586-598 | the check loop accepts exactly the names of 3 to 20 characters from `[A-Za-z0-9_-]` |
| Node.IsValidSubdomain | src/RealMeshNode.cpp:600-602 | the same predicate as the node id |
| Node.ValidNameHasNoAt | src/RealMeshNode.cpp:586-598 | a valid name contains no `@` |
| Node.IndexOf | src/RealMeshNode.cpp:607 | `indexOf` returns -1 iff the character is absent, and otherwise its first position |
| Node.ParseAddress | src/RealMeshNode.cpp:604-614 | with no `@`: empty names, which `isValid` rejects; otherwise an `@`-free node id and a subdomain that reassemble the input |
| Node.ParseFullAddress | src/RealMeshNode.cpp:604-614 | parsing a full address whose node id has no `@` gives back its node id and subdomain, even a subdomain holding more `@` |
| Node.ValidNamesParseBack | src/RealMeshNode.cpp:604-614 | validated names parse back from their full address into a valid address |
| Node.EdgeAtIsInvalid | src/RealMeshNode.cpp:604-614 | an `@` at the start or at the end parses to an invalid address |
| Node.ValidateStoredIdentity | src/RealMeshNode.cpp:471-475 | holds iff both names are valid and UUID byte 0 is not zero |
| Node.Decimal | src/RealMeshNode.cpp:352 | `String(n)` is at least one decimal digit, and exactly one below 10 |
| Node.DefaultNamesValid | src/RealMeshNode.cpp:351-356 | the made-up `node<0..9998>` and `mesh<0..98>` always pass validation |
| Node.LoopStateFacts | src/RealMeshNode.cpp:126-153 | `loop` changes the state only in DISCOVERING, and then only to OPERATIONAL, exactly when the join timeout has passed |
| Node.DiscoveryEnds | src/RealMeshNode.cpp:503-507 | discovery ends iff more than 30000 ms have passed since it started |
| Node.EmergencyGuardWeaker | src/RealMeshNode.cpp:188-224 | an emergency message may go whenever an ordinary one may, and also while initialising, in conflict, or discovering; in ERROR neither may |
| Node.RealMeshNode.constructor | src/RealMeshNode.cpp:23-43 | initialising, no identity, heartbeats on, zeroed timers, the start time now, and an address with empty names over the uninitialised UUID given |
| Node.RealMeshNode.ChangeState | src/RealMeshNode.cpp:510-523 | the new state is taken; a transition is reported only when it differs from the old one |
| Node.RealMeshNode.SetAutoHeartbeat | include/RealMeshNode.h:68 | sets the flag |
| Node.RealMeshNode.BroadcastPresence | src/RealMeshNode.cpp:486-494 | with a router, one `sendHeartbeat` call (`HeartbeatAttempt`: a heartbeat once its interval has elapsed, nothing otherwise), the rest of the router untouched, and the broadcast time becomes now; with none, nothing changes |
| Node.RealMeshNode.StartNetworkDiscovery | src/RealMeshNode.cpp:477-484 | the state is DISCOVERING (the transition logged on a change), the start time is now, discovery is not complete, and presence is broadcast by one `sendHeartbeat` call with the rest of the router untouched |
| Node.RealMeshNode.HandleDiscoveryTimeout | src/RealMeshNode.cpp:496-508 | more than 10 s since the last broadcast: a rebroadcast through one `sendHeartbeat` call, otherwise nothing sent; more than 30 s since the start: complete and OPERATIONAL, with one transition logged unless already OPERATIONAL; otherwise the state and the transition log are unchanged |
| Node.RealMeshNode.HandleNameConflictTimeout | src/RealMeshNode.cpp:739-753 | an active conflict older than 30 s makes the current name the base name and ends the conflict; otherwise nothing changes |
| Node.RealMeshNode.LoopHeartbeat | src/RealMeshNode.cpp:144-149 | with automatic heartbeats off nothing is sent; with them on, exactly `sendHeartbeat`'s outcome (`MaybeHeartbeat`), at most one flooded heartbeat; the rest of the router untouched |
| Node.RealMeshNode.Loop | src/RealMeshNode.cpp:126-160 | ERROR does nothing; INITIALIZING and NAME_CONFLICT send nothing; OPERATIONAL makes the automatic heartbeat attempt; DISCOVERING makes the rebroadcast attempt and then the automatic one; the rest of the router is untouched, the state follows `LoopState`, the only transition logged is DISCOVERING to OPERATIONAL on the join timeout, and maintenance runs and is re-stamped iff more than 60 s have passed |
| Node.RealMeshNode.SendMessage | src/RealMeshNode.cpp:188-201 | not operational, no router, or an unparsable target: false and nothing sent; otherwise direct-priority DATA packets, every one outside the hub attempts addressed to the parsed address |
| Node.RealMeshNode.SendPublicMessage | src/RealMeshNode.cpp:203-210 | not operational or no router: false and nothing sent |
| Node.RealMeshNode.SendEmergencyMessage | src/RealMeshNode.cpp:212-224 | no router or ERROR: false and nothing sent; allowed in every other state |
| Node.RealMeshNode.CreateNewIdentity | src/RealMeshNode.cpp:349-392 | missing names are filled with the defaults; with an invalid name the result is false and the address is not assigned; otherwise the UUID and names are taken |
| EInk.RoundUpToByteLeast | src/EInkDisplay.cpp:25-28 | the rounded short side is the least multiple of 8 not below the side |
| EInk.RoundUpExamples | src/EInkDisplay.cpp:25-28 | 128 stays 128, 122 becomes 128, and 250 becomes 256 |
| EInk.EinkBufferSize | src/EInkDisplay.cpp:30 | the buffer is 250 × 16 = 4000 bytes |
| EInk.PixelIndexFormula | src/EInkDisplay.cpp:94 | the byte of pixel (x, y) is `x + (y / 8) * width` |
| EInk.PixelBit | src/EInkDisplay.cpp:95 | the bit index `y & 7` is always in 0..7 |
| EInk.PixelIndexInBuffer | src/EInkDisplay.cpp:92-94 | every pixel of a landscape display indexes inside the buffer |
| EInk.PixelMappingInjective | src/EInkDisplay.cpp:94-95 | distinct pixels map to distinct (byte, bit) pairs |
| EInk.BitSetIsBitwiseAnd | src/EInkDisplay.cpp:95 | `b & (1 << k)` is non-zero iff bit k of the byte is set |
| EInk.PixelFits | src/EInkDisplay.cpp:94 | when the rows fit the buffer, every pixel of them reads inside it |
| EInk.BufferFits | src/EInkDisplay.cpp:30 | a buffer of the computed size holds every band of the screen |
| EInk.RowPrefix | src/EInkDisplay.cpp:93-98 | the first n draws of row y are n pixels |
| EInk.FrameLength | src/EInkDisplay.cpp:92-99 | the copy of h rows draws `RowStart(h, width)` pixels, which is h × width |
| EInk.FrameAt | src/EInkDisplay.cpp:92-98 | draw number `y * width + x` is pixel (x, y), black exactly when bit `y & 7` of byte `x + (y / 8) * width` is set |
| EInk.Panel.DrawPixel | src/EInkDisplay.cpp:97 | the driver records one pixel and nothing else |
| EInk.Panel.Hibernate | src/EInkDisplay.cpp:113-115 | the driver records one hibernation and nothing else |
| EInk.EInkDisplay.constructor | src/EInkDisplay.cpp:18-34 | 250 × 122 pixels and a buffer of 4000 bytes |
| EInk.EInkDisplay.ForceDisplay | src/EInkDisplay.cpp:50-110 | returns true iff a panel and a buffer exist and (nothing was drawn yet or at least `msecLimit` has passed); on refusal nothing changes; otherwise the draw time is now, the whole frame has been drawn in row order, and the panel has hibernated once |
| EInk.EInkDisplay.CopyFrame | src/EInkDisplay.cpp:92-99 | the nested loops draw exactly the frame of the buffer |
| EInk.EInkDisplay.CopyRow | src/EInkDisplay.cpp:93-98 | the inner loop draws exactly row y, left to right |
| EInk.EInkDisplay.Display | src/EInkDisplay.cpp:118-122 | nothing before the first draw; afterwards a forced redraw under the 5-minute limit: the whole frame drawn and one hibernation, or nothing changed |
| RenameFirmware.LeadingSpaces | rename_firmware.py:32 | counts the whitespace opening the string: all counted characters are whitespace, and the next one is not |
| RenameFirmware.TrailingSpaces | rename_firmware.py:32 | the same for the whitespace closing the string |
| RenameFirmware.StripIsTrimmedSlice | rename_firmware.py:32 | `strip()` is a slice with only whitespace cut from both ends, and it neither starts nor ends with whitespace |
| RenameFirmware.StripKeepsTrimmed | rename_firmware.py:32 | a string without whitespace at either end is left as it is |
| RenameFirmware.ReplaceSpaces | rename_firmware.py:33 | `replace(" ", "_")` keeps the length |
| RenameFirmware.MapUnsafe | rename_firmware.py:34 | the substitution keeps the length |
| RenameFirmware.SanitizeSafe | rename_firmware.py:30-34 | every output character is in `[A-Za-z0-9._-]`, and no space remains |
| RenameFirmware.SanitizeLength | rename_firmware.py:32-34 | the output has the stripped input's length; safe characters stay and every other one becomes `_` |
| RenameFirmware.ReplaceSpacesSubsumed | rename_firmware.py:33-34 | the space replacement is subsumed by the pattern |
| RenameFirmware.MapUnsafeKeepsSafe | rename_firmware.py:34 | the substitution leaves a safe string unchanged |
| RenameFirmware.SanitizeFixesExactlySafe | rename_firmware.py:30-34 | `sanitize(s) == s` iff s is already safe |
| RenameFirmware.SanitizeIdempotent | rename_firmware.py:30-34 | `sanitize(sanitize(s)) == sanitize(s)` |
| RenameFirmware.SanitizeEmpty | rename_firmware.py:30-34 | `sanitize("") == ""` |
| RenameFirmware.SanitizeBoardName | rename_firmware.py:30-34 | `"My Board v1"` becomes `"My_Board_v1"` |
| RenameFirmware.SanitizeTrimsAndReplaces | rename_firmware.py:30-34 | `" v1.2/b\t"` becomes `"v1.2_b"` |
| RenameFirmware.StripExample | rename_firmware.py:32 | `" v1.2/b\t"` strips to `"v1.2/b"` |
| RenameFirmware.ReplaceExample | rename_firmware.py:33-34 | `"v1.2/b"` maps to `"v1.2_b"` |
| RenameFirmware.OrDefault | rename_firmware.py:22 | `x or default`: a present non-empty value is kept, and a missing or empty one gives the default |
| RenameFirmware.VersionOf | rename_firmware.py:19-22 | the version is never empty |
| RenameFirmware.ProgOf | rename_firmware.py:27 | the prog name is never empty |
| RenameFirmware.TokensOf | rename_firmware.py:36-39 | all four tokens are filename-safe |
| RenameFirmware.BuildParts | rename_firmware.py:43-48 | prog first, version last, env and board in between only when non-empty, and the length follows from that |
| RenameFirmware.JoinSafe | rename_firmware.py:49 | joining safe parts with `_` is safe |
| RenameFirmware.JoinLength | rename_firmware.py:49 | the join is the parts' lengths plus one separator between each two |
| RenameFirmware.JoinCons | rename_firmware.py:49 | joining a first part before the rest puts one separator between them |
| RenameFirmware.FirmwareNameShapes | rename_firmware.py:43-49 | the name for each of the four presences of env and board, written out |
| RenameFirmware.FirmwareNameEnds | rename_firmware.py:43-49 | the name opens with `prog_` and closes with `_version` |
| RenameFirmware.PartsSafe | rename_firmware.py:43-48 | every part is safe |
| RenameFirmware.FirmwareNameSafe | rename_firmware.py:29-49 | the composed name is filename-safe as a whole |
| RenameFirmware.DefaultName | rename_firmware.py:19-49 | with nothing configured the name is `firmware_0.0.0` |
| RenameFirmware.DefaultTokens | rename_firmware.py:19-39 | with nothing configured the tokens are `firmware`, empty, empty and `0.0.0` |
| RenameFirmware.DefaultsKept | rename_firmware.py:22-27 | the defaults survive sanitising |
| RenameFirmware.DefaultsSafe | rename_firmware.py:22-27 | the defaults are safe |
| RenameFirmware.BlankVersionLeavesBareSeparator | rename_firmware.py:20-49 | a blank configured version beats the default, sanitises to empty and leaves the name ending in `_` |
| RenameFirmware.BlankVersionTokens | rename_firmware.py:20-39 | the tokens in that case |
| RenameFirmware.BuildEnv.Apply | rename_firmware.py:51-55 | on success PROGNAME is the name and the set line is logged; on an exception only the failure line is logged and PROGNAME is kept |
| RenameFirmware.Rename | rename_firmware.py:15-55 | the hook applies exactly the composed, safe name; PROGNAME changes only when `Replace` succeeds; exactly its debug line is logged, the new name or the error |
| RenameFirmware.JoinParts | rename_firmware.py:43-49 | the appended list joins to the composed name |

## Left out

- Persistent storage (NVS/Preferences) is not modelled: `loadStoredIdentity`, `storeIdentity`, the boot and uptime counters, `shutdown` and `factoryReset`. `CreateNewIdentity` takes the outcome of storing as a boolean argument.
- Randomness (`esp_random`, `esp_fill_random`, `random`) is not modelled. The random numbers, UUIDs and conflict suffixes are arguments.
- `startNameConflictResolution` is not modelled; `nameConflictActive` and the bytes of `ownAddress.uuid` start from arguments because the constructor leaves them uninitialised.
- The radio layer and `onRadioMessageReceived`/`onRadioTransmitComplete` are not modelled: hardware wrappers.
- The floating-point `avgRSSI` average and the SNR argument are not modelled.
- The JSON heartbeat contents (ArduinoJson) are not modelled. `CreateHeartbeatPacket` and `SendHeartbeat` take the serialised text as an argument.
- Serial logging and the network-event and route-update callbacks are not modelled. The state-change callback is a list of transitions, and the message callback is a list of delivered packets.
- The multi-hop branch of `updatePathFromPacket` is not modelled: it is an empty TODO.
- The static sequence counters are not modelled; each constructor takes the sequence number as an argument.
- `millis() / 1000` timestamps are arguments.
- `packetToString`, `printPacketDebug` and the router and node print/diagnostic functions are not modelled: output only.
- `getNetworkStats`, `getKnownNodes` and `getKnownNodesCount` are not modelled: accessors with nothing to prove.
- `updateNodeStatistics` and `cleanupOldData` are not modelled; maintenance is a run counter (`cleanupOldData` has no body in the source).
- GxEPD2 driver calls are not modelled: `setFullWindow`, `firstPage`, `nextPage`, the debug loop printing the first 20 buffer bytes, and `connect`. The panel records `drawPixel` calls and hibernations. `connect` is represented by the panel being present or null at construction.
- EInk.PixelOf: it is total, and a pixel whose byte lies outside the buffer reads as white. The copy loop only ever reads inside the buffer, which `FrameAt` and `BufferFits` prove.
- Routing.RealMeshRouter.RouteMessage: it does not state that the routing table's keys are kept, only the invariant and the attempts.
- Reading `platformio.ini` and the PlatformIO environment is not modelled; the configured version and the environment variables are arguments.
- Header-only declarations without a body (route discovery, table cleanup, `calculateHopDistance`) are not modelled.

## Findings

| source | as written | input that shows it | evidently intended | confidence | as-written member | corrected member |
|---|---|---|---|---|---|---|
| src/RealMeshPacket.cpp:60-64 | `deserialize` copies `payloadLength` bytes (up to 255) into the 223-byte `payload` array; the only check is against the remaining input | a valid header with `payloadLength` 224 followed by two short addresses and 224 bytes (at least 267 bytes, more than the 255-byte maximum packet the radio delivers, so the defect is latent) | reject a length above `RM_MAX_PAYLOAD_SIZE`, as `isValidPacket` later demands | not executed | Packet.AsWrittenOverflowsPayload | Packet.DeserializeRejectsOversizedPayload |
| src/RealMeshRouter.cpp:332-335 | the routing functions change the routing flags and path history (and the hop count when forwarding) after the constructor stamped the checksum, and never re-stamp before calling the send callback | a data packet from a node whose UUID byte 0 is 7, sent by the direct route: its path history becomes `[7, 0, 0]` under the old checksum | recompute the checksum over the header as sent, so that the receiver's `deserialize` accepts it | not executed | Packet.RoutedDataPacketRejected | Routing.RealMeshRouter.Transmit |
