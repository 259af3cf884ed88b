/** The value types shared by the firmware: the 8-byte node UUID, the
    `name@subdomain` node address, the packed message header and the packet. */
module MeshTypes {
  import opened Common

  // Message types (the `messageType` header byte)
  const MsgData: u8 := 0x01
  const MsgControl: u8 := 0x02
  const MsgHeartbeat: u8 := 0x03
  const MsgAck: u8 := 0x04
  const MsgNack: u8 := 0x05
  const MsgRouteRequest: u8 := 0x06
  const MsgRouteReply: u8 := 0x07
  const MsgNameConflict: u8 := 0x08

  // Message priorities (the `priority` header byte)
  const PriorityEmergency: u8 := 0x00
  const PriorityDirect: u8 := 0x01
  const PriorityPublic: u8 := 0x02
  const PriorityControl: u8 := 0x03

  // Routing flags (bits of the `routingFlags` header byte)
  const RouteDirect: u8 := 0x01
  const RouteSubdomainRetry: u8 := 0x02
  const RouteFlood: u8 := 0x04
  const RouteIntermediaryAssist: u8 := 0x08
  const RouteEncrypted: u8 := 0x10

  /** `flags & bit` is non-zero, for a single-bit mask. */
  predicate HasFlag(flags: u8, bit: u8)
    requires bit in {0x01, 0x02, 0x04, 0x08, 0x10, 0x20, 0x40, 0x80}
  {
    (flags / bit) % 2 == 1
  }

  /** `ROUTE_DIRECT | ROUTE_ENCRYPTED`: the two bits are disjoint, so the or is a sum. */
  const RouteDirectEncrypted: u8 := RouteDirect + RouteEncrypted

  lemma DirectEncryptedFlags()
    ensures HasFlag(RouteDirectEncrypted, RouteDirect) && HasFlag(RouteDirectEncrypted, RouteEncrypted)
    ensures !HasFlag(RouteDirectEncrypted, RouteSubdomainRetry) && !HasFlag(RouteDirectEncrypted, RouteFlood)
  {
  }

  type UuidBytes = s: seq<byte> | |s| == 8 witness [0, 0, 0, 0, 0, 0, 0, 0]

  datatype NodeUUID = NodeUUID(bytes: UuidBytes)

  const ZeroUuid: NodeUUID := NodeUUID([0, 0, 0, 0, 0, 0, 0, 0])

  /** `memcmp(a, b, n) == 0`: the first n bytes agree. */
  function MemEqual(a: UuidBytes, b: UuidBytes, n: nat): (r: bool)
    requires n <= 8
    ensures r <==> a[..n] == b[..n]
  {
    if n == 0 then true
    else
      assert a[..n] == a[..n - 1] + [a[n - 1]] && b[..n] == b[..n - 1] + [b[n - 1]];
      MemEqual(a, b, n - 1) && a[n - 1] == b[n - 1]
  }

  /** `NodeUUID::operator==`. */
  function UuidEquals(a: NodeUUID, b: NodeUUID): (r: bool)
    ensures r <==> a == b
    ensures r <==> forall i :: 0 <= i < UuidLength ==> a.bytes[i] == b.bytes[i]
  {
    assert a.bytes[..8] == a.bytes && b.bytes[..8] == b.bytes;
    MemEqual(a.bytes, b.bytes, UuidLength)
  }

  /** A lower-case hexadecimal digit, as Arduino's `String(v, HEX)` writes it. */
  function HexDigit(d: nat): (c: Char8)
    requires d < 16
    ensures ('0' <= c <= '9') || ('a' <= c <= 'f')
  {
    if d < 10 then ('0' as int + d) as char else ('a' as int + d - 10) as char
  }

  function HexValue(c: Char8): (d: nat)
    ensures d < 16
  {
    if '0' <= c <= '9' then c as int - '0' as int
    else if 'a' <= c <= 'f' then c as int - 'a' as int + 10
    else 0
  }

  lemma HexValueOfDigit(d: nat)
    requires d < 16
    ensures HexValue(HexDigit(d)) == d
  {
  }

  /** `String(b, HEX)`: base 16 without leading zeros. */
  function ArduinoHex(b: byte): (s: Str)
  {
    if b < 16 then [HexDigit(b)] else [HexDigit(b / 16), HexDigit(b % 16)]
  }

  /** One iteration of the loop in `NodeUUID::toString`. */
  function ByteHex(b: byte): Str
  {
    (if b < 16 then "0" else "") + ArduinoHex(b)
  }

  lemma ByteHexDigits(b: byte)
    ensures ByteHex(b) == [HexDigit(b / 16), HexDigit(b % 16)]
  {
  }

  function HexOfBytes(bs: seq<byte>): Str
  {
    if bs == [] then [] else ByteHex(bs[0]) + HexOfBytes(bs[1..])
  }

  /** `NodeUUID::toString`. */
  function UuidToString(u: NodeUUID): Str
  {
    HexOfBytes(u.bytes)
  }

  lemma {:induction false} HexOfBytesLayout(bs: seq<byte>)
    ensures |HexOfBytes(bs)| == 2 * |bs|
    ensures forall i :: 0 <= i < |bs| ==>
      HexOfBytes(bs)[2 * i] == HexDigit(bs[i] / 16) && HexOfBytes(bs)[2 * i + 1] == HexDigit(bs[i] % 16)
  {
    if bs != [] {
      HexOfBytesLayout(bs[1..]);
      ByteHexDigits(bs[0]);
      var t := HexOfBytes(bs);
      assert t == ByteHex(bs[0]) + HexOfBytes(bs[1..]);
      forall i | 0 <= i < |bs|
        ensures t[2 * i] == HexDigit(bs[i] / 16) && t[2 * i + 1] == HexDigit(bs[i] % 16)
      {
        if i > 0 {
          assert bs[i] == bs[1..][i - 1];
          assert t[2 * i] == HexOfBytes(bs[1..])[2 * (i - 1)];
          assert t[2 * i + 1] == HexOfBytes(bs[1..])[2 * (i - 1) + 1];
        }
      }
    }
  }

  /** The rendering is 16 characters: two zero-padded lower-case hex digits per byte, in byte order. */
  lemma UuidToStringLayout(u: NodeUUID)
    ensures |UuidToString(u)| == 2 * UuidLength
    ensures forall i :: 0 <= i < UuidLength ==>
      UuidToString(u)[2 * i] == HexDigit(u.bytes[i] / 16) && UuidToString(u)[2 * i + 1] == HexDigit(u.bytes[i] % 16)
  {
    HexOfBytesLayout(u.bytes);
  }

  /** Reading the hex string back: the inverse of `UuidToString`. */
  function UuidFromHex(s: Str): (u: NodeUUID)
    requires |s| == 16
  {
    NodeUUID(seq(8, i requires 0 <= i < 8 => HexValue(s[2 * i]) * 16 + HexValue(s[2 * i + 1])))
  }

  lemma UuidHexRoundTrip(u: NodeUUID)
    ensures |UuidToString(u)| == 16 && UuidFromHex(UuidToString(u)) == u
  {
    UuidToStringLayout(u);
    var s := UuidToString(u);
    var v := UuidFromHex(s);
    forall i | 0 <= i < 8 ensures v.bytes[i] == u.bytes[i] {
      HexValueOfDigit(u.bytes[i] / 16);
      HexValueOfDigit(u.bytes[i] % 16);
    }
  }

  /** Distinct UUIDs render as distinct strings. */
  lemma UuidToStringInjective(u: NodeUUID, v: NodeUUID)
    requires UuidToString(u) == UuidToString(v)
    ensures u == v
  {
    UuidHexRoundTrip(u);
    UuidHexRoundTrip(v);
  }

  datatype NodeAddress = NodeAddress(nodeId: Str, subdomain: Str, uuid: NodeUUID)

  /** A value-initialised address (`NodeAddress x = {}`): the broadcast address. */
  const EmptyAddress: NodeAddress := NodeAddress([], [], ZeroUuid)

  /** `NodeAddress::getFullAddress`. */
  function FullAddress(a: NodeAddress): Str
  {
    a.nodeId + "@" + a.subdomain
  }

  /** The full address is the node id, `@`, then the subdomain. */
  lemma FullAddressLayout(a: NodeAddress)
    ensures |FullAddress(a)| == |a.nodeId| + 1 + |a.subdomain|
    ensures FullAddress(a)[..|a.nodeId|] == a.nodeId && FullAddress(a)[|a.nodeId|] == '@'
    ensures FullAddress(a)[|a.nodeId| + 1..] == a.subdomain
  {
  }

  /** `NodeAddress::getInternalAddress`: the full address, `_`, and the first four hex characters of the UUID. */
  function InternalAddress(a: NodeAddress): (s: Str)
    ensures |s| == |FullAddress(a)| + 5
    ensures s[..|FullAddress(a)|] == FullAddress(a) && s[|FullAddress(a)|] == '_'
    ensures s[|FullAddress(a)| + 1..] == [HexDigit(a.uuid.bytes[0] / 16), HexDigit(a.uuid.bytes[0] % 16),
                                          HexDigit(a.uuid.bytes[1] / 16), HexDigit(a.uuid.bytes[1] % 16)]
  {
    UuidToStringLayout(a.uuid);
    a.nodeId + "@" + a.subdomain + "_" + UuidToString(a.uuid)[..4]
  }

  /** `NodeAddress::isValid`. */
  predicate IsValidAddress(a: NodeAddress)
  {
    a.nodeId != [] && a.subdomain != []
  }

  /** `nodeId` contains no `@`. */
  predicate NoAt(s: Str)
  {
    forall i :: 0 <= i < |s| ==> s[i] != '@'
  }

  /** Two addresses whose node ids have no `@` share a full address only when their names agree. */
  lemma FullAddressInjective(a: NodeAddress, b: NodeAddress)
    requires NoAt(a.nodeId) && NoAt(b.nodeId)
    requires FullAddress(a) == FullAddress(b)
    ensures a.nodeId == b.nodeId && a.subdomain == b.subdomain
  {
    FullAddressLayout(a);
    FullAddressLayout(b);
  }

  /** With an `@` inside a node id, two different addresses collide on one routing key. */
  lemma FullAddressCollision()
    ensures FullAddress(NodeAddress("a", "b@c", ZeroUuid)) == FullAddress(NodeAddress("a@b", "c", ZeroUuid))
  {
  }

  type PathHistory = s: seq<byte> | |s| == 3 witness [0, 0, 0]
  type Payload = s: seq<byte> | |s| == 223 witness seq(223, _ => 0)

  /** The packed `MessageHeader`. */
  datatype MessageHeader = MessageHeader(
    messageId: u32,
    timestamp: u32,
    sequenceNumber: u16,
    protocolVersion: u8,
    messageType: u8,
    priority: u8,
    routingFlags: u8,
    hopCount: u8,
    maxHops: u8,
    payloadLength: u8,
    reserved: u8,
    pathHistory: PathHistory,
    checksum: u16)

  /** `sizeof(MessageHeader)` with `__attribute__((packed))`: the sum of the field widths. */
  const HeaderSize: nat := 4 + 4 + 2 + 1 + 1 + 1 + 1 + 1 + 1 + 1 + 1 + PathHistorySize + 2

  const ZeroHeader: MessageHeader := MessageHeader(0, 0, 0, 0, 0, 0, 0, 0, 0, 0, 0, [0, 0, 0], 0)

  datatype MessagePacket = MessagePacket(
    header: MessageHeader,
    source: NodeAddress,
    destination: NodeAddress,
    payload: Payload)

  /** A value-initialised packet (`MessagePacket packet = {}`). */
  const ZeroPacket: MessagePacket := MessagePacket(ZeroHeader, EmptyAddress, EmptyAddress, Zeros(MaxPayloadSize))

  /** `MessagePacket::getTotalSize`: the header and the payload bytes in use, without the addresses. */
  function TotalSize(p: MessagePacket): (n: nat)
    ensures HeaderSize <= n <= HeaderSize + 255
    ensures n - HeaderSize == p.header.payloadLength
  {
    HeaderSize + p.header.payloadLength
  }

  lemma HeaderSizeIs23()
    ensures HeaderSize == 23 && HeaderSize != HeaderSizeConstant
  {
  }
}
