/** The command packets the host sends to the tracker (the set_* methods of
    the Tracker class, without the write).  Bit masks are 8-bit vectors built
    with shifts and ors, as in the source. */
module Commands {

  import opened Slip
  import opened Packets

  /** Whether bit i of the mask m is set. */
  predicate IsSet(m: bv8, i: nat)
    requires i < 8
  {
    (m >> i) & 1 == 1
  }

  /** A flag as a one-bit value. */
  function Bit(f: bool): bv8
  {
    if f then 1 else 0
  }

  /** set_color: a COLOR packet, which the host's own parser reads back as the
      same colour. */
  function ColorPacket(r: Byte, g: Byte, b: Byte): (p: seq<Byte>)
    ensures p == [PACKET_COLOR, r, g, b]
    ensures ParsePacket(p) == Some(Triple(PACKET_COLOR, r, g, b))
  {
    Encode(Triple(PACKET_COLOR, r, g, b))
  }

  /** The streaming selector: bit i is the flag of the quantity whose packet
      tag is i, and the two bits above GPIO stay clear. */
  function StreamingMask(quat: bool, acc: bool, gyro: bool, mag: bool, temperature: bool, gpio: bool): (m: bv8)
    ensures IsSet(m, PACKET_QUAT) <==> quat
    ensures IsSet(m, PACKET_ACC) <==> acc
    ensures IsSet(m, PACKET_GYRO) <==> gyro
    ensures IsSet(m, PACKET_MAG) <==> mag
    ensures IsSet(m, PACKET_TEMPERATURE) <==> temperature
    ensures IsSet(m, PACKET_GPIO) <==> gpio
    ensures !IsSet(m, 6) && !IsSet(m, 7)
  {
    (Bit(quat) << PACKET_QUAT) | (Bit(acc) << PACKET_ACC) | (Bit(gyro) << PACKET_GYRO) |
    (Bit(mag) << PACKET_MAG) | (Bit(temperature) << PACKET_TEMPERATURE) | (Bit(gpio) << PACKET_GPIO)
  }

  /** set_streaming_mode: a STREAM packet carrying the selector. */
  function StreamingPacket(quat: bool, acc: bool, gyro: bool, mag: bool, temperature: bool, gpio: bool): (p: seq<Byte>)
    ensures |p| == 2 && p[0] == PACKET_STREAM && p[1] < 0x40
    ensures p[1] == StreamingMask(quat, acc, gyro, mag, temperature, gpio) as int
  {
    var m := StreamingMask(quat, acc, gyro, mag, temperature, gpio);
    Encode(Single(PACKET_STREAM, m as int))
  }

  /** The GPIO line mask: lines 0, 1, 4, 5, 6 and 7 are set by a non-zero
      argument; bits 2 and 3 are never set. */
  function GpioMask(f0: int, f1: int, f4: int, f5: int, f6: int, f7: int): (m: bv8)
    ensures IsSet(m, 0) <==> f0 != 0
    ensures IsSet(m, 1) <==> f1 != 0
    ensures IsSet(m, 4) <==> f4 != 0
    ensures IsSet(m, 5) <==> f5 != 0
    ensures IsSet(m, 6) <==> f6 != 0
    ensures IsSet(m, 7) <==> f7 != 0
    ensures !IsSet(m, 2) && !IsSet(m, 3)
  {
    Bit(f0 != 0) | (Bit(f1 != 0) << 1) | (Bit(f4 != 0) << 4) |
    (Bit(f5 != 0) << 5) | (Bit(f6 != 0) << 6) | (Bit(f7 != 0) << 7)
  }

  /** set_gpio_direction: a GPIO_DDR packet carrying the line mask. */
  function GpioDirectionPacket(f0: int, f1: int, f4: int, f5: int, f6: int, f7: int): (p: seq<Byte>)
    ensures |p| == 2 && p[0] == PACKET_GPIO_DDR
    ensures p[1] == GpioMask(f0, f1, f4, f5, f6, f7) as int
  {
    Encode(Single(PACKET_GPIO_DDR, GpioMask(f0, f1, f4, f5, f6, f7) as int))
  }

  /** set_gpio_value: a GPIO_PORT packet carrying the line mask. */
  function GpioValuePacket(f0: int, f1: int, f4: int, f5: int, f6: int, f7: int): (p: seq<Byte>)
    ensures |p| == 2 && p[0] == PACKET_GPIO_PORT
    ensures p[1] == GpioMask(f0, f1, f4, f5, f6, f7) as int
  {
    Encode(Single(PACKET_GPIO_PORT, GpioMask(f0, f1, f4, f5, f6, f7) as int))
  }

  /** set_power: a POWER packet; struct.pack refuses a level outside one byte,
      so the level is a byte. */
  function PowerPacket(power: Byte): (p: seq<Byte>)
    ensures p == [PACKET_POWER, power]
  {
    Encode(Single(PACKET_POWER, power))
  }

  /** set_calibration: a CAL packet of six 32-bit words (the floats' bit
      patterns), 25 bytes in all. */
  function CalibrationPacket(ox: Word, oy: Word, oz: Word, sx: Word, sy: Word, sz: Word): (p: seq<Byte>)
    ensures |p| == 25 && p[0] == PACKET_CAL
  {
    [PACKET_CAL] + U32Bytes(ox) + U32Bytes(oy) + U32Bytes(oz) + U32Bytes(sx) + U32Bytes(sy) + U32Bytes(sz)
  }

  /** set_color((255, 0, 255)) puts 06 FF 00 FF C0 on the wire. */
  lemma MagentaOnTheWire()
    ensures Frame(ColorPacket(255, 0, 255)) == [0x06, 0xFF, 0x00, 0xFF, 0xC0]
  {
    var p := ColorPacket(255, 0, 255);
    assert Escape(p[3..]) == [0xFF];
    assert Escape(p[2..]) == [0x00, 0xFF];
    assert Escape(p[1..]) == [0xFF, 0x00, 0xFF];
  }

  /** Streaming quaternions, accelerations and GPIO state selects bits 0, 1
      and 5. */
  lemma QuatAccGpioMask()
    ensures StreamingMask(true, true, false, false, false, true) == 0x23
  {
  }
}
