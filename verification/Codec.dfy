/**
 The PTCP wire format: a 24-byte packet header followed by one body. Every
 `assert!` and out-of-range index of the parser becomes `Panicked`.
 */
module Codec {
  import opened Words

  datatype Parsed<+T> = Ok(value: T) | Panicked

  datatype Body =
    | Sync
    | Command(data: bytes)
    | Payload(realm: u32, data: bytes)
    | Bind(realm: u32, port: u32)
    | Status(realm: u32, status: bytes)
    | Heartbeat
    | Empty

  datatype Packet = Packet(sent: u32, recv: u32, pid: u32, lmid: u32, rmid: u32, body: Body)

  /** The length the session counts with. */
  function Len(b: Body): nat {
    match b
    case Sync => 4
    case Command(data) => |data|
    case Payload(_, data) => |data| + 12
    case Bind(_, _) => 20
    case Status(_, status) => |status| + 12
    case Heartbeat => 12
    case Empty => 0
  }

  function U32ToBytes(x: u32): (r: bytes)
    ensures |r| == 4
  {
    [x / 0x100_0000, x / 0x1_0000 % 0x100, x / 0x100 % 0x100, x % 0x100]
  }

  function U32At(d: bytes, i: nat): u32
    requires i + 4 <= |d|
  {
    var b0: int, b1: int, b2: int, b3: int := d[i], d[i + 1], d[i + 2], d[i + 3];
    b0 * 0x100_0000 + b1 * 0x1_0000 + b2 * 0x100 + b3
  }

  lemma BigEndianDigits(x: int)
    ensures x == x / 0x100_0000 * 0x100_0000 + x / 0x1_0000 % 0x100 * 0x1_0000 + x / 0x100 % 0x100 * 0x100 + x % 0x100
  {
    var y, z := x / 0x100, x / 0x1_0000;
    assert y / 0x100 == z;
    assert z / 0x100 == x / 0x100_0000;
    assert x == y * 0x100 + x % 0x100 && y == z * 0x100 + y % 0x100 && z == z / 0x100 * 0x100 + z % 0x100;
  }

  lemma U32RoundTrip(x: u32, before: bytes, after: bytes)
    ensures U32At(before + U32ToBytes(x) + after, |before|) == x
  {
    var d, i := before + U32ToBytes(x) + after, |before|;
    assert d[i] == U32ToBytes(x)[0] && d[i + 1] == U32ToBytes(x)[1]
        && d[i + 2] == U32ToBytes(x)[2] && d[i + 3] == U32ToBytes(x)[3];
    BigEndianDigits(x);
  }

  /** `0x1000_0000 | length`: the tag bit may already be set in an oversized length. */
  function PayloadHeader(length: u32): (header: u32) {
    if length / 0x1000_0000 % 2 == 1 then length else length + 0x1000_0000
  }

  function SerializePayload(realm: u32, data: bytes): (r: bytes)
    ensures |r| == |data| + 12
  {
    U32ToBytes(PayloadHeader(Low32(|data|))) + U32ToBytes(realm) + U32ToBytes(0) + data
  }

  function SerializeBody(b: Body): (r: bytes)
    ensures |r| == Len(b)
  {
    match b
    case Sync => [0x00, 0x03, 0x01, 0x00]
    case Command(data) => data
    case Payload(realm, data) => SerializePayload(realm, data)
    case Bind(realm, port) =>
      [0x11, 0, 0, 0] + U32ToBytes(realm) + [0, 0, 0, 0] + U32ToBytes(port) + [0x7f, 0, 0, 1]
    case Status(realm, status) =>
      [0x12, 0, 0, 0] + U32ToBytes(realm) + [0, 0, 0, 0] + status
    case Heartbeat => [0x13, 0, 0, 0, 0, 0, 0, 0, 0, 0, 0, 0]
    case Empty => []
  }

  function ParsePayload(d: bytes): Parsed<Body> {
    if |d| < 12 || d[0] != 0x10 then Panicked
    else
      var length := U32At(d, 0) % 0x1_0000;
      if U32At(d, 8) != 0 || length != Low32(|d| - 12) then Panicked
      else Ok(Payload(U32At(d, 4), d[12..]))
  }

  function ParseBody(d: bytes): Parsed<Body> {
    if |d| == 0 then Ok(Empty)
    else if |d| < 4 then Panicked
    else if d[0] == 0x00 then Ok(Sync)
    else if d[0] == 0x10 then ParsePayload(d)
    else if d[0] == 0x11 then if |d| < 16 then Panicked else Ok(Bind(U32At(d, 4), U32At(d, 12)))
    else if d[0] == 0x12 then if |d| < 12 then Panicked else Ok(Status(U32At(d, 4), d[12..]))
    else if d[0] == 0x13 then Ok(Heartbeat)
    else Ok(Command(d))
  }

  /** "PTCP" */
  const MAGIC: bytes := [0x50, 0x54, 0x43, 0x50]

  function SerializeHeader(p: Packet): (r: bytes)
    ensures |r| == 24
  {
    MAGIC + U32ToBytes(p.sent) + U32ToBytes(p.recv) + U32ToBytes(p.pid)
      + U32ToBytes(p.lmid) + U32ToBytes(p.rmid)
  }

  function SerializePacket(p: Packet): (r: bytes)
    ensures |r| == 24 + Len(p.body)
  {
    SerializeHeader(p) + SerializeBody(p.body)
  }

  function ParsePacket(d: bytes): Parsed<Packet> {
    if |d| < 24 || d[..4] != MAGIC then Panicked
    else match ParseBody(d[24..])
      case Panicked => Panicked
      case Ok(body) => Ok(Packet(U32At(d, 4), U32At(d, 8), U32At(d, 12), U32At(d, 16), U32At(d, 20), body))
  }

  /** Bodies whose wire form reads back: a caller can test this before sending. */
  predicate WireSafe(b: Body) {
    match b
    case Command(data) => |data| >= 4 && data[0] != 0x00 && !(0x10 <= data[0] <= 0x13)
    case Payload(_, data) => Low32(|data|) <= 0xFFFF
    case _ => true
  }

  /** The tag and the 16-bit length share one word; an oversized length spills into the tag. */
  lemma PayloadHeaderFields(length: u32)
    ensures PayloadHeader(length) % 0x1_0000 == length % 0x1_0000
    ensures length <= 0xFFFF ==> length % 0x1_0000 == length && PayloadHeader(length) / 0x100_0000 == 0x10
  {
  }

  lemma FirstByte(x: u32, rest: bytes)
    ensures (U32ToBytes(x) + rest)[0] == x / 0x100_0000
  {
  }

  lemma PayloadRoundTrip(realm: u32, data: bytes)
    ensures ParsePayload(SerializePayload(realm, data)) == Ok(Payload(realm, data)) <==> Low32(|data|) <= 0xFFFF
  {
    hide U32At, U32ToBytes, PayloadHeader, Low32;
    var length := Low32(|data|);
    var header := PayloadHeader(length);
    var d := SerializePayload(realm, data);
    var rest := U32ToBytes(realm) + U32ToBytes(0) + data;
    U32RoundTrip(header, [], rest);
    assert d == [] + U32ToBytes(header) + rest;
    U32RoundTrip(realm, U32ToBytes(header), U32ToBytes(0) + data);
    assert d == U32ToBytes(header) + U32ToBytes(realm) + (U32ToBytes(0) + data);
    U32RoundTrip(0, U32ToBytes(header) + U32ToBytes(realm), data);
    assert d[12..] == data;
    FirstByte(header, rest);
    assert d == U32ToBytes(header) + rest;
    PayloadHeaderFields(length);
  }

  /** A body survives the wire exactly when it is wire-safe. */
  lemma BodyRoundTrip(b: Body)
    ensures ParseBody(SerializeBody(b)) == Ok(b) <==> WireSafe(b)
  {
    hide U32At, U32ToBytes, PayloadHeader, Low32;
    var d := SerializeBody(b);
    match b
    case Payload(realm, data) =>
      PayloadRoundTrip(realm, data);
      FirstByte(PayloadHeader(Low32(|data|)), U32ToBytes(realm) + U32ToBytes(0) + data);
      assert d == U32ToBytes(PayloadHeader(Low32(|data|))) + (U32ToBytes(realm) + U32ToBytes(0) + data);
      PayloadHeaderFields(Low32(|data|));
    case Bind(realm, port) =>
      var head: bytes := [0x11, 0, 0, 0];
      U32RoundTrip(realm, head, [0, 0, 0, 0] + U32ToBytes(port) + [0x7f, 0, 0, 1]);
      assert d == head + U32ToBytes(realm) + ([0, 0, 0, 0] + U32ToBytes(port) + [0x7f, 0, 0, 1]);
      U32RoundTrip(port, head + U32ToBytes(realm) + [0, 0, 0, 0], [0x7f, 0, 0, 1]);
    case Status(realm, status) =>
      var head: bytes := [0x12, 0, 0, 0];
      U32RoundTrip(realm, head, [0, 0, 0, 0] + status);
      assert d == head + U32ToBytes(realm) + ([0, 0, 0, 0] + status);
      assert d[12..] == status;
    case _ =>
  }

  /** Bodies whose receiver counts what their sender counted: all that read back, and
      commands that pass for another body of their own length. A payload too long for
      its 16-bit field keeps its count only if its length spills into the tag and makes
      the body a command, or a status, to the receiver. */
  predicate CountKept(b: Body) {
    match b
    case Command(data) =>
      || data == []
      || (&& |data| >= 4
          && (data[0] == 0x00 ==> |data| == 4)
          && (data[0] == 0x10 ==>
                |data| >= 12 && U32At(data, 0) % 0x1_0000 == Low32(|data| - 12) && U32At(data, 8) == 0)
          && (data[0] == 0x11 ==> |data| == 20)
          && (data[0] == 0x12 ==> |data| >= 12)
          && (data[0] == 0x13 ==> |data| == 12))
    case Payload(_, data) =>
      Low32(|data|) <= 0xFFFF || PayloadHeader(Low32(|data|)) / 0x100_0000 !in {0x10, 0x11, 0x13}
    case _ => true
  }

  /** Sender and receiver count the same bytes for exactly these bodies. */
  lemma CountSurvivesTheWire(b: Body)
    ensures var r := ParseBody(SerializeBody(b));
      (r.Ok? && Len(r.value) == Len(b)) <==> CountKept(b)
    ensures WireSafe(b) ==> CountKept(b)
  {
    hide U32At, Low32, PayloadHeader, U32ToBytes;
    BodyRoundTrip(b);
    if b.Payload? && !WireSafe(b) {
      OversizedCount(b.realm, b.data);
    }
  }

  lemma OversizedCount(realm: u32, data: bytes)
    requires Low32(|data|) > 0xFFFF
    ensures var r := ParseBody(SerializePayload(realm, data));
      (r.Ok? && Len(r.value) == |data| + 12) <==> PayloadHeader(Low32(|data|)) / 0x100_0000 !in {0x10, 0x11, 0x13}
  {
    hide U32At, PayloadHeader, U32ToBytes;
    var header := PayloadHeader(Low32(|data|));
    var rest := U32ToBytes(realm) + U32ToBytes(0) + data;
    var d := SerializePayload(realm, data);
    assert d == U32ToBytes(header) + rest && d == [] + U32ToBytes(header) + rest;
    FirstByte(header, rest);
    U32RoundTrip(header, [], rest);
    PayloadHeaderTag(Low32(|data|));
    assert |data| > 0xFFFF;
  }

  lemma PayloadHeaderTag(length: u32)
    ensures PayloadHeader(length) / 0x100_0000 >= 0x10
  {
  }

  /** The bytes of a body on the wire, the ones no parser reads included. */
  lemma BodyLayout(b: Body)
    ensures var d := SerializeBody(b);
      match b
      case Sync => d == [0, 3, 1, 0]
      case Command(data) => d == data
      case Payload(realm, data) =>
        && |d| == 12 + |data| && d[12..] == data && U32At(d, 4) == realm && U32At(d, 8) == 0
        && (|data| <= 0xFFFF ==> U32At(d, 0) == 0x1000_0000 + |data|)
      case Bind(realm, port) =>
        && |d| == 20 && d[..4] == [0x11, 0, 0, 0] && U32At(d, 4) == realm && d[8..12] == [0, 0, 0, 0]
        && U32At(d, 12) == port && d[16..] == [127, 0, 0, 1]
      case Status(realm, status) =>
        && |d| == 12 + |status| && d[..4] == [0x12, 0, 0, 0] && U32At(d, 4) == realm && d[8..12] == [0, 0, 0, 0]
        && d[12..] == status
      case Heartbeat => d == [0x13, 0, 0, 0, 0, 0, 0, 0, 0, 0, 0, 0]
      case Empty => d == []
  {
    hide U32At, U32ToBytes, PayloadHeader, Low32;
    var d := SerializeBody(b);
    match b
    case Payload(realm, data) =>
      PayloadLayout(realm, data);
    case Bind(realm, port) =>
      var head: bytes := [0x11, 0, 0, 0];
      U32RoundTrip(realm, head, [0, 0, 0, 0] + U32ToBytes(port) + [127, 0, 0, 1]);
      assert d == head + U32ToBytes(realm) + ([0, 0, 0, 0] + U32ToBytes(port) + [127, 0, 0, 1]);
      U32RoundTrip(port, head + U32ToBytes(realm) + [0, 0, 0, 0], [127, 0, 0, 1]);
    case Status(realm, status) =>
      var head: bytes := [0x12, 0, 0, 0];
      U32RoundTrip(realm, head, [0, 0, 0, 0] + status);
      assert d == head + U32ToBytes(realm) + ([0, 0, 0, 0] + status);
    case _ =>
  }

  lemma PayloadLayout(realm: u32, data: bytes)
    ensures var d := SerializePayload(realm, data);
      && d[12..] == data && U32At(d, 4) == realm && U32At(d, 8) == 0
      && (|data| <= 0xFFFF ==> U32At(d, 0) == 0x1000_0000 + |data|)
  {
    hide U32At, U32ToBytes, PayloadHeader, Low32;
    var header := PayloadHeader(Low32(|data|));
    var d := SerializePayload(realm, data);
    var rest := U32ToBytes(realm) + U32ToBytes(0) + data;
    U32RoundTrip(header, [], rest);
    assert d == [] + U32ToBytes(header) + rest;
    U32RoundTrip(realm, U32ToBytes(header), U32ToBytes(0) + data);
    assert d == U32ToBytes(header) + U32ToBytes(realm) + (U32ToBytes(0) + data);
    U32RoundTrip(0, U32ToBytes(header) + U32ToBytes(realm), data);
    ShortHeader(|data|);
  }

  lemma ShortHeader(n: nat)
    ensures n <= 0xFFFF ==> PayloadHeader(Low32(n)) == 0x1000_0000 + n
  {
  }

  /** Words go most significant byte first. */
  lemma BigEndian(d: bytes, i: nat)
    requires i + 4 <= |d|
    ensures var x := U32At(d, i);
      && d[i] == x / 0x100_0000 && d[i + 1] == x / 0x1_0000 % 0x100
      && d[i + 2] == x / 0x100 % 0x100 && d[i + 3] == x % 0x100
  {
    var b0: int, b1: int, b2: int, b3: int := d[i], d[i + 1], d[i + 2], d[i + 3];
    var x := U32At(d, i);
    assert x == (b0 * 0x1_0000 + b1 * 0x100 + b2) * 0x100 + b3;
    assert x / 0x100 == (b0 * 0x100 + b1) * 0x100 + b2;
    assert x / 0x1_0000 == b0 * 0x100 + b1;
  }

  /** The 24 bytes of a header, and what stands behind them. */
  lemma HeaderLayout(p: Packet, rest: bytes)
    ensures var d := SerializeHeader(p) + rest;
      && d[..4] == [0x50, 0x54, 0x43, 0x50] && d[24..] == rest
      && U32At(d, 4) == p.sent && U32At(d, 8) == p.recv
      && U32At(d, 12) == p.pid && U32At(d, 16) == p.lmid && U32At(d, 20) == p.rmid
  {
    var d := SerializeHeader(p) + rest;
    var m1 := MAGIC + U32ToBytes(p.sent);
    var m2 := m1 + U32ToBytes(p.recv);
    var m3 := m2 + U32ToBytes(p.pid);
    var m4 := m3 + U32ToBytes(p.lmid);
    var r5 := U32ToBytes(p.rmid) + rest;
    var r4 := U32ToBytes(p.lmid) + r5;
    var r3 := U32ToBytes(p.pid) + r4;
    var r2 := U32ToBytes(p.recv) + r3;
    U32RoundTrip(p.sent, MAGIC, r2);
    assert d == MAGIC + U32ToBytes(p.sent) + r2;
    U32RoundTrip(p.recv, m1, r3);
    assert d == m1 + U32ToBytes(p.recv) + r3;
    U32RoundTrip(p.pid, m2, r4);
    assert d == m2 + U32ToBytes(p.pid) + r4;
    U32RoundTrip(p.lmid, m3, r5);
    assert d == m3 + U32ToBytes(p.lmid) + r5;
    U32RoundTrip(p.rmid, m4, rest);
    assert d == m4 + U32ToBytes(p.rmid) + rest;
  }

  /** A packet survives the wire exactly when its body is wire-safe. */
  lemma PacketRoundTrip(p: Packet)
    ensures ParsePacket(SerializePacket(p)) == Ok(p) <==> WireSafe(p.body)
  {
    HeaderLayout(p, SerializeBody(p.body));
    BodyRoundTrip(p.body);
  }

  /** Hence two wire-safe packets never share a datagram. */
  lemma SerializeInjective(p: Packet, q: Packet)
    requires WireSafe(p.body) && WireSafe(q.body)
    requires SerializePacket(p) == SerializePacket(q)
    ensures p == q
  {
    PacketRoundTrip(p);
    PacketRoundTrip(q);
  }
}
