/** The packet wire format: the packed little-endian header, the additive
    header checksum, length-prefixed strings, addresses, whole-packet
    serialisation, message-id mixing and the packet constructors. */
module Packet {
  import opened Common
  import opened MeshTypes

  // ---------------------------------------------------------------------------
  // Little-endian integers (the ESP32 memory layout the header is copied from)
  // ---------------------------------------------------------------------------

  function LE16(x: u16): (b: seq<byte>)
    ensures |b| == 2
  {
    [x % 0x100, x / 0x100]
  }

  /** The low half first, then the high half. */
  function LE32(x: u32): (b: seq<byte>)
    ensures |b| == 4
  {
    LE16(x % 0x1_0000) + LE16(x / 0x1_0000)
  }

  function ReadLE16(b: seq<byte>): u16
    requires |b| >= 2
  {
    b[0] as int + 0x100 * (b[1] as int)
  }

  function ReadLE32(b: seq<byte>): u32
    requires |b| >= 4
  {
    ReadLE16(b[..2]) + 0x1_0000 * ReadLE16(b[2..4])
  }

  lemma LE16RoundTrip(x: u16)
    ensures ReadLE16(LE16(x)) == x
  {
  }

  lemma LE32RoundTrip(x: u32)
    ensures ReadLE32(LE32(x)) == x
  {
    var b := LE32(x);
    assert b[..2] == LE16(x % 0x1_0000) && b[2..4] == LE16(x / 0x1_0000);
    LE16RoundTrip(x % 0x1_0000);
    LE16RoundTrip(x / 0x1_0000);
  }

  lemma LE16OfRead(b: seq<byte>)
    requires |b| >= 2
    ensures LE16(ReadLE16(b)) == b[..2]
  {
  }

  lemma LE32OfRead(b: seq<byte>)
    requires |b| >= 4
    ensures LE32(ReadLE32(b)) == b[..4]
  {
    var lo, hi := ReadLE16(b[..2]), ReadLE16(b[2..4]);
    var x := ReadLE32(b);
    assert x % 0x1_0000 == lo && x / 0x1_0000 == hi;
    LE16OfRead(b[..2]);
    LE16OfRead(b[2..4]);
    assert b[..4] == b[..2] + b[2..4];
  }

  // ---------------------------------------------------------------------------
  // Header layout
  // ---------------------------------------------------------------------------

  /** The 23 bytes `serialize` copies out of a packed `MessageHeader`, in field order. */
  function HeaderBytes(h: MessageHeader): (b: seq<byte>)
    ensures |b| == HeaderSize
  {
    LE32(h.messageId) + LE32(h.timestamp) + LE16(h.sequenceNumber)
    + [h.protocolVersion, h.messageType, h.priority, h.routingFlags,
       h.hopCount, h.maxHops, h.payloadLength, h.reserved]
    + h.pathHistory + LE16(h.checksum)
  }

  /** The header `deserialize` copies in from the first 23 bytes of its input. */
  function ParseHeader(b: seq<byte>): MessageHeader
    requires |b| >= HeaderSize
  {
    MessageHeader(
      ReadLE32(b[0..4]), ReadLE32(b[4..8]), ReadLE16(b[8..10]),
      b[10], b[11], b[12], b[13], b[14], b[15], b[16], b[17],
      b[18..21], ReadLE16(b[21..23]))
  }

  lemma HeaderBytesSlices(h: MessageHeader)
    ensures HeaderBytes(h)[0..4] == LE32(h.messageId)
    ensures HeaderBytes(h)[4..8] == LE32(h.timestamp)
    ensures HeaderBytes(h)[8..10] == LE16(h.sequenceNumber)
    ensures HeaderBytes(h)[18..21] == h.pathHistory
    ensures HeaderBytes(h)[21..23] == LE16(h.checksum)
    ensures HeaderBytes(h)[10] == h.protocolVersion && HeaderBytes(h)[11] == h.messageType
    ensures HeaderBytes(h)[12] == h.priority && HeaderBytes(h)[13] == h.routingFlags
    ensures HeaderBytes(h)[14] == h.hopCount && HeaderBytes(h)[15] == h.maxHops
    ensures HeaderBytes(h)[16] == h.payloadLength && HeaderBytes(h)[17] == h.reserved
  {
  }

  /** Every header survives the copy out and back in, whatever bytes follow it. */
  lemma HeaderRoundTrip(h: MessageHeader, rest: seq<byte>)
    ensures ParseHeader(HeaderBytes(h) + rest) == h && (HeaderBytes(h) + rest)[HeaderSize..] == rest
  {
    var b := HeaderBytes(h) + rest;
    HeaderBytesSlices(h);
    assert b[0..4] == HeaderBytes(h)[0..4];
    assert b[4..8] == HeaderBytes(h)[4..8];
    assert b[8..10] == HeaderBytes(h)[8..10];
    assert b[18..21] == HeaderBytes(h)[18..21];
    assert b[21..23] == HeaderBytes(h)[21..23];
    LE32RoundTrip(h.messageId);
    LE32RoundTrip(h.timestamp);
    LE16RoundTrip(h.sequenceNumber);
    LE16RoundTrip(h.checksum);
  }

  /** Any 23 bytes are the image of exactly the header `deserialize` reads from them. */
  lemma ParseHeaderBytes(b: seq<byte>)
    requires |b| >= HeaderSize
    ensures HeaderBytes(ParseHeader(b)) == b[..HeaderSize]
  {
    var h := ParseHeader(b);
    LE32OfRead(b[0..4]);
    LE32OfRead(b[4..8]);
    LE16OfRead(b[8..10]);
    LE16OfRead(b[21..23]);
    assert b[0..4][..4] == b[0..4] && b[4..8][..4] == b[4..8];
    assert b[8..10][..2] == b[8..10] && b[21..23][..2] == b[21..23];
    HeaderBytesSlices(h);
    var hb := HeaderBytes(h);
    forall i | 0 <= i < HeaderSize ensures hb[i] == b[i] {
      if i < 4 { assert hb[i] == hb[0..4][i]; }
      else if i < 8 { assert hb[i] == hb[4..8][i - 4]; }
      else if i < 10 { assert hb[i] == hb[8..10][i - 8]; }
      else if 18 <= i < 21 { assert hb[i] == hb[18..21][i - 18]; }
      else if 21 <= i { assert hb[i] == hb[21..23][i - 21]; }
    }
  }

  // ---------------------------------------------------------------------------
  // Checksum
  // ---------------------------------------------------------------------------

  function Sum(s: seq<byte>): nat
  {
    if s == [] then 0 else Sum(s[..|s| - 1]) + s[|s| - 1]
  }

  lemma {:induction false} SumAppend(a: seq<byte>, b: seq<byte>)
    ensures Sum(a + b) == Sum(a) + Sum(b)
  {
    if b == [] {
      assert a + b == a;
    } else {
      assert (a + b)[..|a + b| - 1] == a + b[..|b| - 1];
      SumAppend(a, b[..|b| - 1]);
    }
  }

  lemma {:induction false} SumBound(s: seq<byte>)
    ensures Sum(s) <= 255 * |s|
  {
    if s != [] {
      SumBound(s[..|s| - 1]);
    }
  }

  /** The number of header bytes the checksum covers: all but the trailing checksum field. */
  const ChecksumSpan: nat := HeaderSize - 2

  /** The checksum `calculateChecksum` computes: the covered header bytes summed, kept to 16 bits. */
  function ChecksumOf(h: MessageHeader): u16
  {
    Sum(HeaderBytes(h)[..ChecksumSpan]) % 0x1_0000
  }

  /** `calculateChecksum`: a 32-bit accumulator over the 21 covered bytes, masked with 0xFFFF. */
  method CalculateChecksum(h: MessageHeader) returns (c: u16)
    ensures c == ChecksumOf(h)
    ensures c == Sum(HeaderBytes(h)[..ChecksumSpan])
  {
    var data := HeaderBytes(h);
    var sum: u32 := 0;
    var i := 0;
    while i < ChecksumSpan
      invariant 0 <= i <= ChecksumSpan
      invariant sum == Sum(data[..i]) && sum <= 255 * i
    {
      assert data[..i + 1] == data[..i] + [data[i]];
      SumAppend(data[..i], [data[i]]);
      assert Sum([data[i]]) == data[i] by { assert [data[i]][..0] == []; }
      sum := sum + data[i];
      i := i + 1;
    }
    assert data[..i] == data[..ChecksumSpan];
    c := sum % 0x1_0000;
  }

  /** The byte-wise sum of the covered header bytes, field by field. */
  function FieldSum(h: MessageHeader): nat
  {
    Sum(LE32(h.messageId)) + Sum(LE32(h.timestamp)) + Sum(LE16(h.sequenceNumber))
    + h.protocolVersion + h.messageType + h.priority + h.routingFlags
    + h.hopCount + h.maxHops + h.payloadLength + h.reserved
    + h.pathHistory[0] + h.pathHistory[1] + h.pathHistory[2]
  }

  lemma SumSnoc(s: seq<byte>, k: nat)
    requires k < |s|
    ensures Sum(s[..k + 1]) == Sum(s[..k]) + s[k]
  {
    assert s[..k + 1][..k] == s[..k];
  }

  lemma SumOfEight(s: seq<byte>)
    requires |s| == 8
    ensures Sum(s) == s[0] as int + s[1] as int + s[2] as int + s[3] as int + s[4] as int + s[5] as int + s[6] as int + s[7] as int
  {
    assert s[..0] == [];
    SumSnoc(s, 0); SumSnoc(s, 1); SumSnoc(s, 2); SumSnoc(s, 3);
    SumSnoc(s, 4); SumSnoc(s, 5); SumSnoc(s, 6); SumSnoc(s, 7);
    assert s[..8] == s;
  }

  lemma SumOfThree(s: seq<byte>)
    requires |s| == 3
    ensures Sum(s) == s[0] as int + s[1] as int + s[2] as int
  {
    assert s[..0] == [];
    SumSnoc(s, 0); SumSnoc(s, 1); SumSnoc(s, 2);
    assert s[..3] == s;
  }

  /** The checksum never wraps: it is the plain field sum, at most 21 * 255. */
  lemma ChecksumIsFieldSum(h: MessageHeader)
    ensures ChecksumOf(h) == FieldSum(h)
    ensures ChecksumOf(h) <= 21 * 255
  {
    var b := HeaderBytes(h);
    var mid: seq<byte> := [h.protocolVersion, h.messageType, h.priority, h.routingFlags,
                           h.hopCount, h.maxHops, h.payloadLength, h.reserved];
    assert b[..ChecksumSpan] == LE32(h.messageId) + LE32(h.timestamp) + LE16(h.sequenceNumber) + mid + h.pathHistory;
    SumAppend(LE32(h.messageId) + LE32(h.timestamp) + LE16(h.sequenceNumber) + mid, h.pathHistory);
    SumAppend(LE32(h.messageId) + LE32(h.timestamp) + LE16(h.sequenceNumber), mid);
    SumAppend(LE32(h.messageId) + LE32(h.timestamp), LE16(h.sequenceNumber));
    SumAppend(LE32(h.messageId), LE32(h.timestamp));
    SumOfEight(mid);
    SumOfThree(h.pathHistory);
    SumBound(b[..ChecksumSpan]);
  }

  /** The checksum does not read the checksum field. */
  lemma ChecksumIgnoresChecksumField(h: MessageHeader, c: u16)
    ensures ChecksumOf(h.(checksum := c)) == ChecksumOf(h)
  {
    ChecksumIsFieldSum(h);
    ChecksumIsFieldSum(h.(checksum := c));
  }

  /** `validateChecksum`: recompute with the checksum field zeroed and compare with the stored one. */
  predicate ValidateChecksum(h: MessageHeader)
  {
    ChecksumOf(h.(checksum := 0)) == h.checksum
  }

  lemma ValidateChecksumIff(h: MessageHeader)
    ensures ValidateChecksum(h) <==> h.checksum == ChecksumOf(h)
  {
    ChecksumIgnoresChecksumField(h, 0);
  }

  /** Writing `checksum := calculateChecksum(header)`. */
  function Stamp(h: MessageHeader): (r: MessageHeader)
    ensures ValidateChecksum(r)
    ensures r.(checksum := h.checksum) == h
  {
    ChecksumIgnoresChecksumField(h, ChecksumOf(h));
    ValidateChecksumIff(h.(checksum := ChecksumOf(h)));
    h.(checksum := ChecksumOf(h))
  }

  lemma StampValidHeader(h: MessageHeader)
    requires ValidateChecksum(h)
    ensures Stamp(h) == h
  {
    ValidateChecksumIff(h);
  }

  // ---------------------------------------------------------------------------
  // Strings, UUIDs and addresses
  // ---------------------------------------------------------------------------

  /** The length byte `serializeString` writes: the length, capped at 255. */
  function StringPrefixLength(s: Str): u8
  {
    Min(|s|, 255)
  }

  /** The bytes `serializeString` appends: one length byte, then that many characters. */
  function EncodeString(s: Str): (b: seq<byte>)
    ensures |b| == 1 + StringPrefixLength(s) && b[0] == StringPrefixLength(s)
    ensures |s| <= 255 ==> b == [|s|] + StrBytes(s)
  {
    [StringPrefixLength(s)] + StrBytes(s[..StringPrefixLength(s)])
  }

  /** `serializeString`: push the length byte, then one byte per character. */
  method SerializeString(buffer: seq<byte>, s: Str) returns (out: seq<byte>)
    ensures out == buffer + EncodeString(s)
  {
    var len := StringPrefixLength(s);
    out := buffer + [len];
    var i := 0;
    while i < len
      invariant 0 <= i <= len
      invariant out == buffer + [len] + StrBytes(s[..i])
    {
      assert StrBytes(s[..i + 1]) == StrBytes(s[..i]) + [s[i] as int];
      out := out + [s[i] as int];
      i := i + 1;
    }
  }

  /** `deserializeString` on the bytes from the cursor on: the string and the bytes left after it. */
  function DecodeString(data: seq<byte>): (r: Option<(Str, seq<byte>)>)
    ensures r.None? <==> |data| == 0 || data[0] > |data| - 1
    ensures r.Some? ==> |r.value.0| == data[0] && |r.value.1| == |data| - 1 - data[0]
    ensures r.Some? ==> data == EncodeString(r.value.0) + r.value.1
  {
    if |data| < 1 then None
    else
      var len := data[0];
      if |data| - 1 < len then None
      else
        var s := BytesStr(data[1..1 + len]);
        assert StrBytes(s) == data[1..1 + len];
        assert data == [len] + data[1..1 + len] + data[1 + len..];
        Some((s, data[1 + len..]))
  }

  /** `deserializeString` with its data cursor and `remaining` count: on success the cursor moves
      past the length byte and the characters; on a short input it has moved past the length byte only. */
  method DeserializeString(data: seq<byte>, pos: nat) returns (ok: bool, str: Str, next: nat)
    requires pos <= |data|
    ensures ok <==> DecodeString(data[pos..]).Some?
    ensures ok ==> next <= |data| && DecodeString(data[pos..]) == Some((str, data[next..]))
    ensures ok ==> next == pos + 1 + |str|
    ensures !ok ==> next == Min(pos + 1, |data|)
  {
    if |data| - pos < 1 {
      return false, [], pos;
    }
    var len := data[pos];
    var cur := pos + 1;
    if |data| - cur < len {
      return false, [], cur;
    }
    str := [];
    var i := 0;
    while i < len
      invariant 0 <= i <= len
      invariant str == BytesStr(data[cur..cur + i])
    {
      assert data[cur..cur + i + 1] == data[cur..cur + i] + [data[cur + i]];
      str := str + [data[cur + i] as char];
      i := i + 1;
    }
    assert data[pos..][1..1 + len] == data[cur..cur + len];
    assert data[pos..][1 + len..] == data[cur + len..];
    ok, next := true, cur + len;
  }

  /** `serializeUUID`: the 8 raw bytes. */
  function EncodeUuid(u: NodeUUID): (b: seq<byte>)
    ensures |b| == UuidLength
  {
    u.bytes
  }

  /** `deserializeUUID`: fails when fewer than 8 bytes remain. */
  function DecodeUuid(data: seq<byte>): (r: Option<(NodeUUID, seq<byte>)>)
    ensures r.None? <==> |data| < UuidLength
    ensures r.Some? ==> data == EncodeUuid(r.value.0) + r.value.1
  {
    if |data| < UuidLength then None
    else Some((NodeUUID(data[..UuidLength]), data[UuidLength..]))
  }

  /** `serializeNodeAddress`: node id, then subdomain, then the UUID. */
  function EncodeAddress(a: NodeAddress): (b: seq<byte>)
    ensures |b| == 2 + StringPrefixLength(a.nodeId) + StringPrefixLength(a.subdomain) + UuidLength
  {
    EncodeString(a.nodeId) + EncodeString(a.subdomain) + EncodeUuid(a.uuid)
  }

  /** `deserializeNodeAddress`: the three decoders in turn, stopping at the first failure. */
  function DecodeAddress(data: seq<byte>): (r: Option<(NodeAddress, seq<byte>)>)
    ensures r.Some? ==> data == EncodeAddress(r.value.0) + r.value.1
    ensures r.Some? ==> |r.value.0.nodeId| <= 255 && |r.value.0.subdomain| <= 255
  {
    match DecodeString(data)
    case None => None
    case Some((id, r1)) =>
      match DecodeString(r1)
      case None => None
      case Some((sub, r2)) =>
        match DecodeUuid(r2)
        case None => None
        case Some((u, r3)) =>
          assert data == EncodeString(id) + (EncodeString(sub) + (EncodeUuid(u) + r3));
          Some((NodeAddress(id, sub, u), r3))
  }

  /** Strings of at most 255 characters and the UUID come back from their encoding, followed by any rest. */
  lemma AddressRoundTrip(a: NodeAddress, rest: seq<byte>)
    requires |a.nodeId| <= 255 && |a.subdomain| <= 255
    ensures DecodeAddress(EncodeAddress(a) + rest) == Some((a, rest))
  {
    var r2 := EncodeUuid(a.uuid) + rest;
    var r1 := EncodeString(a.subdomain) + r2;
    assert EncodeAddress(a) + rest == EncodeString(a.nodeId) + r1;
    StringRoundTrip(a.nodeId, r1);
    StringRoundTrip(a.subdomain, r2);
    UuidRoundTrip(a.uuid, rest);
  }

  /** The UUID's eight bytes come back from their encoding, followed by any rest. */
  lemma UuidRoundTrip(u: NodeUUID, rest: seq<byte>)
    ensures DecodeUuid(EncodeUuid(u) + rest) == Some((u, rest))
  {
    var data := EncodeUuid(u) + rest;
    assert data[..UuidLength] == u.bytes && data[UuidLength..] == rest;
  }

  /** A string of at most 255 characters comes back from its encoding; exactly 1 + |s| bytes are consumed. */
  lemma StringRoundTrip(s: Str, rest: seq<byte>)
    requires |s| <= 255
    ensures DecodeString(EncodeString(s) + rest) == Some((s, rest))
  {
    var data := EncodeString(s) + rest;
    assert data[1..1 + |s|] == StrBytes(s);
    assert data[1 + |s|..] == rest;
    StrBytesRoundTrip(s);
  }

  /** A longer string is cut to its first 255 characters on the wire. */
  lemma LongStringTruncated(s: Str, rest: seq<byte>)
    requires |s| > 255
    ensures DecodeString(EncodeString(s) + rest) == Some((s[..255], rest))
  {
    assert EncodeString(s) == EncodeString(s[..255]);
    StringRoundTrip(s[..255], rest);
  }

  // ---------------------------------------------------------------------------
  // Whole packets
  // ---------------------------------------------------------------------------

  /** `serialize`: header, source address, destination address, then `payloadLength` payload bytes.
      Reading `payloadLength` bytes of the 223-byte payload array needs `payloadLength <= 223`. */
  function Serialize(p: MessagePacket): (b: seq<byte>)
    requires p.header.payloadLength <= MaxPayloadSize
    ensures |b| == HeaderSize + |EncodeAddress(p.source)| + |EncodeAddress(p.destination)| + p.header.payloadLength
    ensures |b| == HeaderSize
                   + (2 + StringPrefixLength(p.source.nodeId) + StringPrefixLength(p.source.subdomain) + UuidLength)
                   + (2 + StringPrefixLength(p.destination.nodeId) + StringPrefixLength(p.destination.subdomain) + UuidLength)
                   + p.header.payloadLength
  {
    HeaderBytes(p.header) + EncodeAddress(p.source) + EncodeAddress(p.destination)
    + p.payload[..p.header.payloadLength]
  }

  /** What the code of `deserialize` decodes: the header, both addresses and the
      `payloadLength` bytes it copies into the payload array, with no bound on that length. */
  datatype Decoded = Decoded(header: MessageHeader, source: NodeAddress, destination: NodeAddress, copied: seq<byte>)

  function DeserializeAsWritten(data: seq<byte>): (r: Option<Decoded>)
    ensures r.Some? ==> |r.value.copied| == r.value.header.payloadLength
    ensures r.Some? ==> |data| >= HeaderSize && r.value.header == ParseHeader(data) && ValidateChecksum(r.value.header)
  {
    if |data| < HeaderSize then None
    else
      var h := ParseHeader(data);
      if !ValidateChecksum(h) then None
      else
        match DecodeAddress(data[HeaderSize..])
        case None => None
        case Some((src, r1)) =>
          match DecodeAddress(r1)
          case None => None
          case Some((dst, r2)) =>
            if |r2| < h.payloadLength then None
            else Some(Decoded(h, src, dst, r2[..h.payloadLength]))
  }

  /** The payload array after `memcpy` of `copied` to its start. */
  function Overwrite(prior: Payload, copied: seq<byte>): (r: Payload)
    requires |copied| <= MaxPayloadSize
    ensures r[..|copied|] == copied && r[|copied|..] == prior[|copied|..]
  {
    copied + prior[|copied|..]
  }

  /** `deserialize` with the payload length bounded by the payload array (the corrected decoder).
      `prior` stands for the bytes the caller's packet already held: only the first
      `payloadLength` payload bytes are overwritten. */
  function Deserialize(data: seq<byte>, prior: Payload): (r: Option<MessagePacket>)
    ensures r.Some? ==> r.value.header.payloadLength <= MaxPayloadSize
    ensures r.Some? ==> |data| >= HeaderSize && r.value.header == ParseHeader(data) && ValidateChecksum(r.value.header)
    ensures r.Some? ==> r.value.payload[r.value.header.payloadLength..] == prior[r.value.header.payloadLength..]
  {
    match DeserializeAsWritten(data)
    case None => None
    case Some(d) =>
      if d.header.payloadLength > MaxPayloadSize then None
      else
        Some(MessagePacket(d.header, d.source, d.destination, Overwrite(prior, d.copied)))
  }

  /** How `deserialize` reads input made of a header, two encoded addresses and a tail. */
  lemma AsWrittenOfParts(data: seq<byte>, h: MessageHeader, src: NodeAddress, afterSrc: seq<byte>,
                         dst: NodeAddress, afterDst: seq<byte>)
    requires |data| >= HeaderSize && ParseHeader(data) == h && ValidateChecksum(h)
    requires DecodeAddress(data[HeaderSize..]) == Some((src, afterSrc))
    requires DecodeAddress(afterSrc) == Some((dst, afterDst))
    requires |afterDst| >= h.payloadLength
    ensures DeserializeAsWritten(data) == Some(Decoded(h, src, dst, afterDst[..h.payloadLength]))
  {
  }

  /** The corrected decoder agrees with the code whenever the length fits the payload array. */
  lemma DeserializeAgreesWithCode(data: seq<byte>, prior: Payload)
    ensures Deserialize(data, prior).Some? <==>
      DeserializeAsWritten(data).Some? && DeserializeAsWritten(data).value.header.payloadLength <= MaxPayloadSize
    ensures Deserialize(data, prior).Some? ==>
      var d := DeserializeAsWritten(data).value;
      var p := Deserialize(data, prior).value;
      p.header == d.header && p.source == d.source && p.destination == d.destination
      && p.payload[..d.header.payloadLength] == d.copied
  {
  }

  lemma SerializedParts(p: MessagePacket, trailing: seq<byte>)
    requires p.header.payloadLength <= MaxPayloadSize
    ensures Serialize(p) + trailing == HeaderBytes(p.header) + (EncodeAddress(p.source)
              + (EncodeAddress(p.destination) + (p.payload[..p.header.payloadLength] + trailing)))
  {
  }

  /** The code decodes a serialised packet, followed by any bytes, into its parts. */
  lemma AsWrittenDecodesSerialized(p: MessagePacket, trailing: seq<byte>)
    requires ValidateChecksum(p.header)
    requires p.header.payloadLength <= MaxPayloadSize
    requires |p.source.nodeId| <= 255 && |p.source.subdomain| <= 255
    requires |p.destination.nodeId| <= 255 && |p.destination.subdomain| <= 255
    ensures DeserializeAsWritten(Serialize(p) + trailing)
            == Some(Decoded(p.header, p.source, p.destination, p.payload[..p.header.payloadLength]))
  {
    var len := p.header.payloadLength;
    var pay := p.payload[..len];
    var afterDst := pay + trailing;
    var afterSrc := EncodeAddress(p.destination) + afterDst;
    var afterHdr := EncodeAddress(p.source) + afterSrc;
    var data := Serialize(p) + trailing;
    SerializedParts(p, trailing);
    HeaderRoundTrip(p.header, afterHdr);
    AddressRoundTrip(p.source, afterSrc);
    AddressRoundTrip(p.destination, afterDst);
    assert afterDst[..len] == pay;
    AsWrittenOfParts(data, p.header, p.source, afterSrc, p.destination, afterDst);
  }

  /** The header is read back from the first bytes of a serialised packet. */
  lemma SerializedHeader(p: MessagePacket, trailing: seq<byte>)
    requires p.header.payloadLength <= MaxPayloadSize
    ensures |Serialize(p) + trailing| >= HeaderSize && ParseHeader(Serialize(p) + trailing) == p.header
  {
    SerializedParts(p, trailing);
    HeaderRoundTrip(p.header, EncodeAddress(p.source)
      + (EncodeAddress(p.destination) + (p.payload[..p.header.payloadLength] + trailing)));
  }

  /** Packet round trip: a packet with a valid checksum and strings of at most 255 characters is
      decoded back from its serialisation, whatever trailing bytes follow; the payload bytes past
      `payloadLength` are the ones the caller's packet already held. */
  lemma PacketRoundTrip(p: MessagePacket, trailing: seq<byte>, prior: Payload)
    requires ValidateChecksum(p.header)
    requires p.header.payloadLength <= MaxPayloadSize
    requires |p.source.nodeId| <= 255 && |p.source.subdomain| <= 255
    requires |p.destination.nodeId| <= 255 && |p.destination.subdomain| <= 255
    ensures Deserialize(Serialize(p) + trailing, prior)
            == Some(p.(payload := p.payload[..p.header.payloadLength] + prior[p.header.payloadLength..]))
  {
    AsWrittenDecodesSerialized(p, trailing);
  }

  /** Decoding into a packet that already holds the same payload gives back the packet itself. */
  lemma PacketRoundTripExact(p: MessagePacket, trailing: seq<byte>)
    requires ValidateChecksum(p.header)
    requires p.header.payloadLength <= MaxPayloadSize
    requires |p.source.nodeId| <= 255 && |p.source.subdomain| <= 255
    requires |p.destination.nodeId| <= 255 && |p.destination.subdomain| <= 255
    ensures Deserialize(Serialize(p) + trailing, p.payload) == Some(p)
  {
    PacketRoundTrip(p, trailing, p.payload);
    var len := p.header.payloadLength;
    assert p.payload[..len] + p.payload[len..] == p.payload;
  }

  lemma SplitAt(s: seq<byte>, n: nat)
    requires n <= |s|
    ensures s == s[..n] + s[n..]
  {
  }

  lemma PrefixOfNested(a: seq<byte>, b: seq<byte>, c: seq<byte>, d: seq<byte>, e: seq<byte>)
    ensures a + b + c + d <= a + (b + (c + (d + e)))
  {
    assert a + (b + (c + (d + e))) == (a + b + c + d) + e;
  }

  /** What the code decodes is exactly the start of its input. */
  lemma AsWrittenInverts(data: seq<byte>)
    requires DeserializeAsWritten(data).Some?
    ensures var d := DeserializeAsWritten(data).value;
      HeaderBytes(d.header) + EncodeAddress(d.source) + EncodeAddress(d.destination) + d.copied <= data
  {
    var d := DeserializeAsWritten(data).value;
    ParseHeaderBytes(data);
    SplitAt(data, HeaderSize);
    var a1 := DecodeAddress(data[HeaderSize..]);
    var src, r1 := a1.value.0, a1.value.1;
    var a2 := DecodeAddress(r1);
    var dst, r2 := a2.value.0, a2.value.1;
    var len := d.header.payloadLength;
    SplitAt(r2, len);
    var rest := r2[len..];
    assert data == HeaderBytes(d.header) + (EncodeAddress(src) + (EncodeAddress(dst) + (d.copied + rest)));
    PrefixOfNested(HeaderBytes(d.header), EncodeAddress(src), EncodeAddress(dst), d.copied, rest);
  }

  /** Decoding succeeds only on a serialised packet followed by trailing bytes. */
  lemma DeserializeInvertsSerialize(data: seq<byte>, prior: Payload)
    requires Deserialize(data, prior).Some?
    ensures Serialize(Deserialize(data, prior).value) <= data
  {
    var p := Deserialize(data, prior).value;
    AsWrittenInverts(data);
    assert p.payload[..p.header.payloadLength] == DeserializeAsWritten(data).value.copied;
  }

  /** The rejections of `deserialize`: a short buffer, a bad checksum, a truncated address or too few payload bytes. */
  lemma DeserializeRejects(data: seq<byte>, prior: Payload)
    ensures |data| < HeaderSize ==> Deserialize(data, prior).None?
    ensures |data| >= HeaderSize && !ValidateChecksum(ParseHeader(data)) ==> Deserialize(data, prior).None?
    ensures |data| >= HeaderSize && ValidateChecksum(ParseHeader(data)) && DecodeAddress(data[HeaderSize..]).None? ==> Deserialize(data, prior).None?
    ensures |data| >= HeaderSize && ValidateChecksum(ParseHeader(data))
            && DecodeAddress(data[HeaderSize..]).Some? && DecodeAddress(DecodeAddress(data[HeaderSize..]).value.1).None?
            ==> Deserialize(data, prior).None?
    ensures |data| >= HeaderSize && ValidateChecksum(ParseHeader(data))
            && DecodeAddress(data[HeaderSize..]).Some? && DecodeAddress(DecodeAddress(data[HeaderSize..]).value.1).Some?
            && |DecodeAddress(DecodeAddress(data[HeaderSize..]).value.1).value.1| < ParseHeader(data).payloadLength
            ==> Deserialize(data, prior).None?
  {
  }

  /** Finding: `deserialize` as written accepts a payload length of 224, one more than the
      223-byte payload array it copies into. */
  lemma AsWrittenOverflowsPayload()
    ensures exists data :: DeserializeAsWritten(data).Some? && |DeserializeAsWritten(data).value.copied| > MaxPayloadSize
  {
    var h := Stamp(ZeroHeader.(payloadLength := 224));
    var tail := EncodeAddress(EmptyAddress) + (EncodeAddress(EmptyAddress) + Zeros(224));
    var data := HeaderBytes(h) + tail;
    HeaderRoundTrip(h, tail);
    assert data[HeaderSize..] == tail;
    AddressRoundTrip(EmptyAddress, EncodeAddress(EmptyAddress) + Zeros(224));
    AddressRoundTrip(EmptyAddress, Zeros(224));
    AsWrittenOfParts(data, h, EmptyAddress, EncodeAddress(EmptyAddress) + Zeros(224), EmptyAddress, Zeros(224));
  }

  /** The corrected decoder rejects every header whose payload length exceeds the payload array. */
  lemma DeserializeRejectsOversizedPayload(data: seq<byte>, prior: Payload)
    requires |data| >= HeaderSize && ParseHeader(data).payloadLength > MaxPayloadSize
    ensures Deserialize(data, prior).None?
  {
  }

  // ---------------------------------------------------------------------------
  // Message ids
  // ---------------------------------------------------------------------------

  function Pow2(n: nat): (p: nat)
    ensures p >= 1
  {
    if n == 0 then 1 else 2 * Pow2(n - 1)
  }

  /** Bitwise exclusive or of the low `n` bits of `a` and `b`. */
  function XorBits(a: nat, b: nat, n: nat): (r: nat)
    ensures r < Pow2(n)
  {
    if n == 0 then 0
    else (if a % 2 == b % 2 then 0 else 1) + 2 * XorBits(a / 2, b / 2, n - 1)
  }

  /** `^` on two `uint32_t` values. */
  function Xor32(a: u32, b: u32): u32
  {
    Pow2Of32();
    XorBits(a, b, 32)
  }

  lemma {:induction false} Pow2Add(m: nat, n: nat)
    ensures Pow2(m + n) == Pow2(m) * Pow2(n)
  {
    if n > 0 {
      Pow2Add(m, n - 1);
    }
  }

  lemma Pow2Of32()
    ensures Pow2(32) == 0x1_0000_0000
  {
    assert Pow2(2) == 4;
    assert Pow2(4) == 16;
    Pow2Add(4, 4);
    Pow2Add(8, 8);
    Pow2Add(16, 16);
  }

  /** XORing with the same value twice gives back any value that fits the width. */
  lemma {:induction false} XorBitsCancel(a: nat, b: nat, n: nat)
    requires a < Pow2(n)
    ensures XorBits(XorBits(a, b, n), b, n) == a
  {
    if n > 0 {
      XorBitsCancel(a / 2, b / 2, n - 1);
      var r := XorBits(a, b, n);
      assert r % 2 == (if a % 2 == b % 2 then 0 else 1) && r / 2 == XorBits(a / 2, b / 2, n - 1);
    }
  }

  lemma {:induction false} XorBitsCommutes(a: nat, b: nat, n: nat)
    ensures XorBits(a, b, n) == XorBits(b, a, n)
  {
    if n > 0 {
      XorBitsCommutes(a / 2, b / 2, n - 1);
    }
  }

  /** XOR with a fixed value is one-to-one on 32-bit values. */
  lemma Xor32Injective(a: u32, a': u32, b: u32)
    requires Xor32(a, b) == Xor32(a', b)
    ensures a == a'
  {
    Pow2Of32();
    XorBitsCancel(a, b, 32);
    XorBitsCancel(a', b, 32);
  }

  /** The value the loop of `generateMessageId` has built after XORing in the first `k` UUID bytes,
      byte `i` shifted left by `8 * i` bits. */
  function UuidWord(u: NodeUUID, k: nat): u32
    requires k <= 4
  {
    if k == 0 then 0
    else
      var shift: nat := if k == 1 then 1 else if k == 2 then 0x100 else if k == 3 then 0x1_0000 else 0x100_0000;
      Xor32(UuidWord(u, k - 1), (u.bytes[k - 1] as int) * shift)
  }

  /** The id `generateMessageId` computes: the UUID word, XOR the timestamp, XOR the sequence number
      shifted up 16 bits (it fits 32 bits, so the shift loses nothing). */
  function MessageIdOf(source: NodeAddress, timestamp: u32, sequence: u16): u32
  {
    Xor32(Xor32(UuidWord(source.uuid, 4), timestamp), sequence * 0x1_0000)
  }

  /** `generateMessageId`. */
  method GenerateMessageId(source: NodeAddress, timestamp: u32, sequence: u16) returns (id: u32)
    ensures id == MessageIdOf(source, timestamp, sequence)
  {
    id := 0;
    var i := 0;
    var shift := 1;
    while i < 4
      invariant 0 <= i <= 4 && id == UuidWord(source.uuid, i)
      invariant shift == if i == 0 then 1 else if i == 1 then 0x100 else if i == 2 then 0x1_0000 else if i == 3 then 0x100_0000 else 0x1_0000_0000
    {
      id := Xor32(id, (source.uuid.bytes[i] as int) * shift);
      shift := shift * 0x100;
      i := i + 1;
    }
    id := Xor32(id, timestamp);
    id := Xor32(id, sequence * 0x1_0000);
  }

  /** One source in one second never repeats an id across different sequence numbers. */
  lemma MessageIdDistinctSequences(source: NodeAddress, timestamp: u32, s1: u16, s2: u16)
    requires s1 != s2
    ensures MessageIdOf(source, timestamp, s1) != MessageIdOf(source, timestamp, s2)
  {
    var w := Xor32(UuidWord(source.uuid, 4), timestamp);
    if MessageIdOf(source, timestamp, s1) == MessageIdOf(source, timestamp, s2) {
      assert Xor32(w, s1 * 0x1_0000) == Xor32(w, s2 * 0x1_0000);
      XorBitsCommutes(w, s1 * 0x1_0000, 32);
      XorBitsCommutes(w, s2 * 0x1_0000, 32);
      Xor32Injective(s1 * 0x1_0000, s2 * 0x1_0000, w);
    }
  }

  /** Nor across different timestamps with the same sequence number. */
  lemma MessageIdDistinctTimestamps(source: NodeAddress, t1: u32, t2: u32, sequence: u16)
    requires t1 != t2
    ensures MessageIdOf(source, t1, sequence) != MessageIdOf(source, t2, sequence)
  {
    var w := UuidWord(source.uuid, 4);
    if MessageIdOf(source, t1, sequence) == MessageIdOf(source, t2, sequence) {
      Xor32Injective(Xor32(w, t1), Xor32(w, t2), sequence * 0x1_0000);
      XorBitsCommutes(w, t1, 32);
      XorBitsCommutes(w, t2, 32);
      Xor32Injective(t1, t2, w);
    }
  }

  // ---------------------------------------------------------------------------
  // Constructors
  // ---------------------------------------------------------------------------

  /** `String::getBytes` into the payload: `strncpy` copies up to the first NUL and pads with zeros. */
  function CopyCString(s: Str, n: nat): (b: seq<byte>)
    requires n <= |s|
    ensures |b| == n
    ensures NoNul(s[..n]) ==> b == StrBytes(s[..n])
  {
    if n == 0 then []
    else if s[0] as int == 0 then Zeros(n)
    else
      PrefixSplit(s, n);
      [s[0] as int] + CopyCString(s[1..], n - 1)
  }

  lemma PrefixSplit(s: Str, n: nat)
    requires 0 < n <= |s|
    ensures s[..n] == [s[0]] + s[1..][..n - 1]
  {
    var a, b := s[..n], [s[0]] + s[1..][..n - 1];
    assert |a| == |b|;
    forall i | 0 <= i < n ensures a[i] == b[i] {
      if i > 0 {
        assert b[i] == s[1..][..n - 1][i - 1];
      }
    }
  }

  predicate NoNul(s: Str)
  {
    forall i :: 0 <= i < |s| ==> s[i] as int != 0
  }

  /** The longest text a constructor copies: one byte of the payload array is kept for the NUL. */
  const MaxTextLength: nat := MaxPayloadSize - 1

  /** The header fields every constructor fills the same way (`MessagePacket packet = {}` zeroes the rest). */
  function NewHeader(source: NodeAddress, messageType: u8, priority: u8, routingFlags: u8,
                     maxHops: u8, now: u32, sequence: u16): (h: MessageHeader)
  {
    var timestamp := now / 1000;
    ZeroHeader.(protocolVersion := ProtocolVersion, messageType := messageType, priority := priority,
                routingFlags := routingFlags, hopCount := 0, maxHops := maxHops, timestamp := timestamp,
                sequenceNumber := sequence, messageId := MessageIdOf(source, timestamp, sequence))
  }

  /** A packet whose payload is `text` cut to 222 bytes, with a stamped checksum. */
  function TextPacket(h: MessageHeader, source: NodeAddress, destination: NodeAddress, text: Str): MessagePacket
  {
    var len := Min(|text|, MaxTextLength);
    var payload: Payload := CopyCString(text, len) + Zeros(MaxPayloadSize - len);
    MessagePacket(Stamp(h.(payloadLength := len)), source, destination, payload)
  }

  /** `createDataPacket`. */
  function CreateDataPacket(source: NodeAddress, destination: NodeAddress, message: Str,
                            priority: u8, encrypted: bool, now: u32, sequence: u16): (p: MessagePacket)
    ensures p.header.protocolVersion == ProtocolVersion && p.header.messageType == MsgData
    ensures p.header.hopCount == 0 && p.header.maxHops == MaxHopCount && p.header.priority == priority
    ensures p.header.pathHistory == [0, 0, 0]
    ensures p.header.routingFlags == if encrypted then RouteDirectEncrypted else RouteDirect
    ensures p.header.payloadLength == Min(|message|, MaxPayloadSize - 1)
    ensures NoNul(message) ==> p.payload[..p.header.payloadLength] == StrBytes(message[..p.header.payloadLength])
    ensures forall i :: p.header.payloadLength <= i < MaxPayloadSize ==> p.payload[i] == 0
    ensures p.source == source && p.destination == destination
    ensures ValidateChecksum(p.header)
  {
    var flags := if encrypted then RouteDirectEncrypted else RouteDirect;
    TextPacket(NewHeader(source, MsgData, priority, flags, MaxHopCount, now, sequence), source, destination, message)
  }

  /** `createAckPacket`: the acknowledged id as 4 little-endian payload bytes. */
  function CreateAckPacket(source: NodeAddress, destination: NodeAddress, originalMessageId: u32,
                           now: u32, sequence: u16): (p: MessagePacket)
    ensures p.header.protocolVersion == ProtocolVersion && p.header.messageType == MsgAck
    ensures p.header.priority == PriorityControl && p.header.pathHistory == [0, 0, 0]
    ensures p.header.routingFlags == RouteDirect && p.header.hopCount == 0 && p.header.maxHops == MaxHopCount
    ensures p.header.payloadLength == 4 && ReadLE32(p.payload[..4]) == originalMessageId
    ensures p.source == source && p.destination == destination
    ensures ValidateChecksum(p.header)
  {
    LE32RoundTrip(originalMessageId);
    var h := NewHeader(source, MsgAck, PriorityControl, RouteDirect, MaxHopCount, now, sequence);
    var payload: Payload := LE32(originalMessageId) + Zeros(MaxPayloadSize - 4);
    assert payload[..4] == LE32(originalMessageId);
    MessagePacket(Stamp(h.(payloadLength := 4)), source, destination, payload)
  }

  /** `createNameConflictPacket`: one hop only, the reason as payload. */
  function CreateNameConflictPacket(source: NodeAddress, conflictingNode: NodeAddress, reason: Str,
                                    now: u32, sequence: u16): (p: MessagePacket)
    ensures p.header.protocolVersion == ProtocolVersion && p.header.messageType == MsgNameConflict
    ensures p.header.priority == PriorityControl && p.header.pathHistory == [0, 0, 0]
    ensures p.header.routingFlags == RouteDirect && p.header.hopCount == 0 && p.header.maxHops == 1
    ensures p.header.payloadLength == Min(|reason|, MaxPayloadSize - 1)
    ensures NoNul(reason) ==> p.payload[..p.header.payloadLength] == StrBytes(reason[..p.header.payloadLength])
    ensures p.source == source && p.destination == conflictingNode
    ensures ValidateChecksum(p.header)
  {
    TextPacket(NewHeader(source, MsgNameConflict, PriorityControl, RouteDirect, 1, now, sequence),
               source, conflictingNode, reason)
  }

  /** `createHeartbeatPacket` with its JSON text given: flooded over at most 3 hops to the broadcast address. */
  function CreateHeartbeatPacket(source: NodeAddress, json: Str, now: u32, sequence: u16): (p: MessagePacket)
    ensures p.header.protocolVersion == ProtocolVersion && p.header.messageType == MsgHeartbeat
    ensures p.header.priority == PriorityControl && p.header.pathHistory == [0, 0, 0]
    ensures p.header.routingFlags == RouteFlood && p.header.hopCount == 0 && p.header.maxHops == 3
    ensures p.header.payloadLength == Min(|json|, MaxPayloadSize - 1)
    ensures NoNul(json) ==> p.payload[..p.header.payloadLength] == StrBytes(json[..p.header.payloadLength])
    ensures p.source == source && p.destination == EmptyAddress
    ensures ValidateChecksum(p.header)
  {
    TextPacket(NewHeader(source, MsgHeartbeat, PriorityControl, RouteFlood, 3, now, sequence),
               source, EmptyAddress, json)
  }

  /** `getTotalSize` counts the header image and the payload, but not the two addresses that
      `serialize` writes between them: it is always short of the wire size by at least 20 bytes. */
  lemma TotalSizeOmitsAddresses(p: MessagePacket)
    requires p.header.payloadLength <= MaxPayloadSize
    ensures TotalSize(p) == |HeaderBytes(p.header)| + p.header.payloadLength
    ensures TotalSize(p) == |Serialize(p)| - |EncodeAddress(p.source)| - |EncodeAddress(p.destination)|
    ensures TotalSize(p) + 2 * (2 + UuidLength) <= |Serialize(p)|
  {
  }

  /** Every packet `createDataPacket` builds serialises and decodes back to itself. */
  lemma DataPacketRoundTrip(source: NodeAddress, destination: NodeAddress, message: Str,
                            priority: u8, encrypted: bool, now: u32, sequence: u16)
    requires |source.nodeId| <= 255 && |source.subdomain| <= 255
    requires |destination.nodeId| <= 255 && |destination.subdomain| <= 255
    ensures var p := CreateDataPacket(source, destination, message, priority, encrypted, now, sequence);
      Deserialize(Serialize(p), p.payload) == Some(p)
  {
    var p := CreateDataPacket(source, destination, message, priority, encrypted, now, sequence);
    PacketRoundTripExact(p, []);
    assert Serialize(p) + [] == Serialize(p);
  }

  // ---------------------------------------------------------------------------
  // Path history
  // ---------------------------------------------------------------------------

  /** `addToPathHistory` on a header: the slots shift one place, the oldest drops, `id` enters slot 0. */
  function PathShift(h: MessageHeader, id: byte): (r: MessageHeader)
    ensures r.pathHistory == [id, h.pathHistory[0], h.pathHistory[1]]
    ensures r.(pathHistory := h.pathHistory) == h
  {
    h.(pathHistory := [id, h.pathHistory[0], h.pathHistory[1]])
  }

  /** Finding: the shift changes covered header bytes but leaves the checksum as it was, so a
      header that validated before no longer does unless the dropped slot held `id`. */
  lemma PathShiftBreaksChecksum(h: MessageHeader, id: byte)
    requires ValidateChecksum(h) && h.pathHistory[2] != id
    ensures !ValidateChecksum(PathShift(h, id))
  {
    var r := PathShift(h, id);
    ChecksumIsFieldSum(h);
    ChecksumIsFieldSum(r);
    ValidateChecksumIff(h);
    ValidateChecksumIff(r);
  }

  /** In particular every data packet a node with a non-zero id routes directly is rejected by the receiver. */
  lemma RoutedDataPacketRejected(source: NodeAddress, destination: NodeAddress, message: Str,
                                 priority: u8, now: u32, sequence: u16, trailing: seq<byte>, prior: Payload)
    requires source.uuid.bytes[0] != 0
    ensures var p := CreateDataPacket(source, destination, message, priority, false, now, sequence);
      var sent := p.(header := PathShift(p.header, source.uuid.bytes[0]));
      Deserialize(Serialize(sent) + trailing, prior).None?
  {
    var p := CreateDataPacket(source, destination, message, priority, false, now, sequence);
    var sent := p.(header := PathShift(p.header, source.uuid.bytes[0]));
    assert p.header.pathHistory == [0, 0, 0];
    PathShiftBreaksChecksum(p.header, source.uuid.bytes[0]);
    SerializedHeader(sent, trailing);
    DeserializeRejects(Serialize(sent) + trailing, prior);
  }

  /** Re-stamping after the shift, as the corrected send path does, restores a valid header
      without touching the path history. */
  lemma StampAfterShift(h: MessageHeader, id: byte)
    ensures ValidateChecksum(Stamp(PathShift(h, id)))
    ensures Stamp(PathShift(h, id)).pathHistory == [id, h.pathHistory[0], h.pathHistory[1]]
  {
  }
}
