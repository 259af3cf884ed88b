/** Fixed-width integers, byte-sized characters, the configuration constants of
    the firmware and the 32-bit millisecond clock arithmetic. */
module Common {

  type u8 = x: int | 0 <= x < 0x100
  type u16 = x: int | 0 <= x < 0x1_0000
  type u32 = x: int | 0 <= x < 0x1_0000_0000
  type byte = u8
  type i16 = x: int | -0x8000 <= x < 0x8000

  /** An Arduino `String` holds bytes; a character of one is a char below 256. */
  type Char8 = c: char | c as int < 0x100
  type Str = seq<Char8>

  datatype Option<+T> = None | Some(value: T)

  // Message configuration
  const MaxPacketSize: nat := 255
  const HeaderSizeConstant: nat := 32   // the configured (not the actual) header size
  const MaxPayloadSize: nat := MaxPacketSize - HeaderSizeConstant   // 223
  const MaxHopCount: u8 := 10
  const PathHistorySize: nat := 3
  const UuidLength: nat := 8
  const ProtocolVersion: u8 := 1

  // Timing configuration (milliseconds)
  const NetworkJoinTimeout: u32 := 30000
  const NameTimeoutMs: u32 := 30000
  const HeartbeatStationary: u32 := 15000
  const HeartbeatMobile: u32 := 30000

  /** Unsigned 32-bit subtraction `now - since`, as `millis() - since` computes it. */
  function Elapsed(now: u32, since: u32): (d: u32)
    ensures since <= now ==> d == now - since
    ensures now < since ==> d == now - since + 0x1_0000_0000
  {
    (now - since) % 0x1_0000_0000
  }

  /** `x++` on a uint32_t counter. */
  function Inc32(x: u32): (r: u32)
    ensures x < 0xFFFF_FFFF ==> r == x + 1
    ensures x == 0xFFFF_FFFF ==> r == 0
  {
    (x + 1) % 0x1_0000_0000
  }

  /** `x++` on a uint16_t counter. */
  function Inc16(x: u16): (r: u16)
    ensures x < 0xFFFF ==> r == x + 1
    ensures x == 0xFFFF ==> r == 0
  {
    (x + 1) % 0x1_0000
  }

  function Min(a: int, b: int): int { if a <= b then a else b }
  function Max(a: int, b: int): int { if a >= b then a else b }

  /** A zero-filled byte sequence. */
  function Zeros(n: nat): (z: seq<byte>)
    ensures |z| == n && forall i :: 0 <= i < n ==> z[i] == 0
  {
    seq(n, _ => 0)
  }

  /** The bytes of a byte-sized string. */
  function StrBytes(s: Str): (b: seq<byte>)
    ensures |b| == |s| && forall i :: 0 <= i < |s| ==> b[i] == s[i] as int
  {
    seq(|s|, i requires 0 <= i < |s| => s[i] as int)
  }

  /** The string made of the given bytes, one character per byte. */
  function BytesStr(b: seq<byte>): (s: Str)
    ensures |s| == |b| && forall i :: 0 <= i < |b| ==> s[i] as int == b[i]
  {
    seq(|b|, i requires 0 <= i < |b| => b[i] as char)
  }

  lemma StrBytesRoundTrip(s: Str)
    ensures BytesStr(StrBytes(s)) == s
  {
    var t := BytesStr(StrBytes(s));
    assert |t| == |s|;
    forall i | 0 <= i < |s| ensures t[i] == s[i] {
      assert t[i] as int == s[i] as int;
    }
  }
}
