/** The typed packets carried inside frames: one tag byte followed by a fixed
    big-endian layout (Python struct format strings with the network-order
    prefix '!').  Floats are carried as their raw 32-bit words. */
module Packets {

  import opened Slip

  datatype Option<T> = None | Some(value: T)

  const PACKET_QUAT: Byte := 0
  const PACKET_ACC: Byte := 1
  const PACKET_GYRO: Byte := 2
  const PACKET_MAG: Byte := 3
  const PACKET_TEMPERATURE: Byte := 4
  const PACKET_GPIO: Byte := 5
  const PACKET_COLOR: Byte := 6
  const PACKET_BLINK: Byte := 7
  const PACKET_IR: Byte := 8
  const PACKET_STREAM: Byte := 9
  const PACKET_VERSION: Byte := 10
  const PACKET_ID: Byte := 11
  const PACKET_CAL: Byte := 12
  const PACKET_GPIO_DDR: Byte := 13
  const PACKET_GPIO_PORT: Byte := 14
  const PACKET_POWER: Byte := 15
  const PACKET_MAX: Byte := 16

  /** An unsigned 32-bit field ('I'), or the bit pattern of a float ('f'). */
  type Word = n: int | 0 <= n < 0x1_0000_0000

  /** A signed 16-bit field ('h'). */
  type Short = n: int | -0x8000 <= n < 0x8000

  // ---------------------------------------------------------------------------
  // Big-endian fields
  // ---------------------------------------------------------------------------

  /** Two bytes read as an unsigned big-endian number. */
  function U16(hi: Byte, lo: Byte): (n: int)
    ensures 0 <= n < 0x10000
  {
    hi * 0x100 + lo
  }

  /** The two big-endian bytes of an unsigned 16-bit number. */
  function U16Bytes(n: int): (r: seq<Byte>)
    requires 0 <= n < 0x10000
    ensures |r| == 2 && U16(r[0], r[1]) == n
  {
    [n / 0x100, n % 0x100]
  }

  lemma U16Inverse(hi: Byte, lo: Byte)
    ensures U16Bytes(U16(hi, lo)) == [hi, lo]
  {
    var n := hi * 0x100 + lo;
    assert n / 0x100 == hi;
  }

  /** Two bytes read as a big-endian two's-complement number: negative exactly
      when the top bit is set, and congruent to the unsigned reading. */
  function I16(hi: Byte, lo: Byte): (v: Short)
    ensures v < 0 <==> hi >= 0x80
    ensures v % 0x10000 == U16(hi, lo)
  {
    var u := U16(hi, lo);
    if u >= 0x8000 then u - 0x10000 else u
  }

  /** The two big-endian two's-complement bytes of a signed 16-bit number. */
  function I16Bytes(v: Short): (r: seq<Byte>)
    ensures |r| == 2 && I16(r[0], r[1]) == v
  {
    U16Bytes(if v < 0 then v + 0x10000 else v)
  }

  lemma I16Inverse(hi: Byte, lo: Byte)
    ensures I16Bytes(I16(hi, lo)) == [hi, lo]
  {
    U16Inverse(hi, lo);
  }

  /** Four bytes read as an unsigned big-endian number. */
  function U32(b: seq<Byte>): (n: Word)
    requires |b| == 4
    ensures n / 0x10000 == U16(b[0], b[1]) && n % 0x10000 == U16(b[2], b[3])
  {
    SplitWord(U16(b[0], b[1]), U16(b[2], b[3]));
    U16(b[0], b[1]) * 0x10000 + U16(b[2], b[3])
  }

  /** The four big-endian bytes of an unsigned 32-bit number. */
  function U32Bytes(w: Word): (r: seq<Byte>)
    ensures |r| == 4 && U32(r) == w
  {
    U16Bytes(w / 0x10000) + U16Bytes(w % 0x10000)
  }

  /** Dividing hi * 2^16 + lo by 2^16 gives back hi and lo. */
  lemma SplitWord(hi: int, lo: int)
    requires 0 <= hi < 0x10000 && 0 <= lo < 0x10000
    ensures (hi * 0x10000 + lo) / 0x10000 == hi
    ensures (hi * 0x10000 + lo) % 0x10000 == lo
  {
    var n := hi * 0x10000 + lo;
    var q, r := n / 0x10000, n % 0x10000;
    assert n == q * 0x10000 + r;
    assert (hi - q) * 0x10000 == r - lo;
  }

  lemma U32Inverse(b: seq<Byte>)
    requires |b| == 4
    ensures U32Bytes(U32(b)) == b
  {
    var hi, lo := U16(b[0], b[1]), U16(b[2], b[3]);
    var w := U32(b);
    assert w == hi * 0x10000 + lo;
    SplitWord(hi, lo);
    assert w / 0x10000 == hi && w % 0x10000 == lo;
    U16Inverse(b[0], b[1]);
    U16Inverse(b[2], b[3]);
    assert U32Bytes(w) == U16Bytes(hi) + U16Bytes(lo) == [b[0], b[1]] + [b[2], b[3]];
    assert b == [b[0], b[1]] + [b[2], b[3]];
  }

  // ---------------------------------------------------------------------------
  // Packets
  // ---------------------------------------------------------------------------

  /** The tuples parse_packet returns, one constructor per struct layout; the
      first element of every tuple is the tag byte. */
  datatype Packet =
    | Quat(tag: Byte, q0: Word, q1: Word, q2: Word, q3: Word)  // '!Bffff'
    | Vector(tag: Byte, x: Short, y: Short, z: Short)          // '!Bhhh'
    | Triple(tag: Byte, b0: Byte, b1: Byte, b2: Byte)          // '!BBBB'
    | Single(tag: Byte, value: Byte)                           // '!BB'
    | Long(tag: Byte, word: Word)                              // '!BI'

  /** The byte width of each layout (struct.calcsize of its format). */
  function Width(pkt: Packet): nat
  {
    match pkt
    case Quat(_, _, _, _, _) => 17
    case Vector(_, _, _, _) => 7
    case Triple(_, _, _, _) => 4
    case Single(_, _) => 2
    case Long(_, _) => 5
  }

  /** The packet types the host decodes, with the total frame length each one
      must have; every other tag is unknown to the host. */
  function ExpectedLength(t: Byte): (r: Option<nat>)
    ensures r.Some? <==> t <= PACKET_ID && t != PACKET_TEMPERATURE && t != PACKET_STREAM
    ensures r.Some? ==> 2 <= r.value <= 17
  {
    if t == 0 then Some(17)
    else if t == 1 || t == 2 || t == 3 then Some(7)
    else if t == 6 || t == 7 then Some(4)
    else if t == 5 || t == 8 then Some(2)
    else if t == 10 || t == 11 then Some(5)
    else None
  }

  /** A packet the host can receive: its tag selects its own layout. */
  predicate Decodable(pkt: Packet)
  {
    ExpectedLength(pkt.tag) == Some(Width(pkt))
  }

  /** struct.pack of a packet: the tag, then each field big-endian. */
  function Encode(pkt: Packet): (r: seq<Byte>)
    ensures |r| == Width(pkt) && r[0] == pkt.tag
  {
    match pkt
    case Quat(t, a, b, c, d) => [t] + U32Bytes(a) + U32Bytes(b) + U32Bytes(c) + U32Bytes(d)
    case Vector(t, x, y, z) => [t] + I16Bytes(x) + I16Bytes(y) + I16Bytes(z)
    case Triple(t, a, b, c) => [t, a, b, c]
    case Single(t, v) => [t, v]
    case Long(t, w) => [t] + U32Bytes(w)
  }

  /** parse_packet: the tag byte chooses the layout, and the frame must have
      exactly that layout's length; an unknown tag or a length mismatch (the
      struct.error the source catches) gives None.  The caller never passes an
      empty line. */
  function ParsePacket(p: seq<Byte>): (r: Option<Packet>)
    requires |p| > 0
    ensures r.Some? <==> ExpectedLength(p[0]) == Some(|p|)
    ensures r.Some? ==> r.value.tag == p[0] && Decodable(r.value)
  {
    var t := p[0];
    if t == PACKET_QUAT then
      if |p| == 17 then Some(Quat(t, U32(p[1..5]), U32(p[5..9]), U32(p[9..13]), U32(p[13..17])))
      else None
    else if t == PACKET_ACC || t == PACKET_GYRO || t == PACKET_MAG then
      if |p| == 7 then Some(Vector(t, I16(p[1], p[2]), I16(p[3], p[4]), I16(p[5], p[6])))
      else None
    else if t == PACKET_COLOR || t == PACKET_BLINK then
      if |p| == 4 then Some(Triple(t, p[1], p[2], p[3]))
      else None
    else if t == PACKET_GPIO || t == PACKET_IR then
      if |p| == 2 then Some(Single(t, p[1]))
      else None
    else if t == PACKET_VERSION || t == PACKET_ID then
      if |p| == 5 then Some(Long(t, U32(p[1..5])))
      else None
    else
      None
  }

  /** Every decodable packet survives encoding and decoding. */
  lemma ParseEncode(pkt: Packet)
    requires Decodable(pkt)
    ensures ParsePacket(Encode(pkt)) == Some(pkt)
  {
    var e := Encode(pkt);
    match pkt
    case Quat(t, a, b, c, d) =>
      var e1 := [t] + U32Bytes(a);
      var e2 := e1 + U32Bytes(b);
      var e3 := e2 + U32Bytes(c);
      assert e == e3 + U32Bytes(d);
      assert e[..13] == e3 && e[..9] == e2 && e[..5] == e1;
      assert e[1..5] == e1[1..5] == U32Bytes(a);
      assert e[5..9] == e2[5..9] == U32Bytes(b);
      assert e[9..13] == e3[9..13] == U32Bytes(c);
      assert e[13..17] == U32Bytes(d);
    case Vector(t, x, y, z) =>
      assert e[1..3] == I16Bytes(x) && e[3..5] == I16Bytes(y) && e[5..7] == I16Bytes(z);
    case Triple(_, _, _, _) =>
    case Single(_, _) =>
    case Long(t, w) =>
      assert e[1..5] == U32Bytes(w);
  }

  /** Conversely, whatever parse_packet accepts is the encoding of the packet
      it returns: decoding loses nothing and invents nothing. */
  lemma EncodeParse(p: seq<Byte>)
    requires |p| > 0 && ParsePacket(p).Some?
    ensures Encode(ParsePacket(p).value) == p
  {
    var pkt := ParsePacket(p).value;
    match pkt
    case Quat(t, a, b, c, d) =>
      U32Inverse(p[1..5]);
      U32Inverse(p[5..9]);
      U32Inverse(p[9..13]);
      U32Inverse(p[13..17]);
      assert p == [p[0]] + p[1..5] + p[5..9] + p[9..13] + p[13..17];
    case Vector(t, x, y, z) =>
      I16Inverse(p[1], p[2]);
      I16Inverse(p[3], p[4]);
      I16Inverse(p[5], p[6]);
      assert p == [p[0]] + [p[1], p[2]] + [p[3], p[4]] + [p[5], p[6]];
    case Triple(_, _, _, _) =>
      assert p == [p[0], p[1], p[2], p[3]];
    case Single(_, _) =>
      assert p == [p[0], p[1]];
    case Long(t, w) =>
      U32Inverse(p[1..5]);
      assert p == [p[0]] + p[1..5];
  }

  /** The tags the host never decodes, whatever the length: TEMPERATURE,
      STREAM, CAL, GPIO_DDR, GPIO_PORT, POWER and everything from 16 up. */
  lemma UnknownTags(p: seq<Byte>)
    requires |p| > 0
    requires p[0] == PACKET_TEMPERATURE || p[0] == PACKET_STREAM || p[0] >= PACKET_CAL
    ensures ParsePacket(p) == None
  {
  }
}
