/** The host's Tracker object.  The serial port is modelled by what passes
    through it: the bytes the device sends (from the moment the constructor
    flushed the port), how many of them have been read, and every byte the host
    has written. */
module Tracker {

  import opened Slip
  import opened Packets
  import opened Commands

  class Tracker {
    const input: seq<Byte>
    var pos: nat
    var output: seq<Byte>

    ghost predicate Valid()
      reads this
    {
      pos <= |input|
    }

    /** Opens and flushes the port, then reads one frame and throws it away,
        so that a packet already half received is skipped. */
    constructor (stream: seq<Byte>)
      ensures Valid() && input == stream && output == []
      ensures pos == match ReadFrame(stream)
                     case Complete(_, n) => n
                     case Pending(_) => |stream|
    {
      input := stream;
      pos := 0;
      output := [];
      new;
      assert input[0..] == input;
      var _, _ := ReadSerial();
    }

    /** read_serial: rebuilds one frame from the port one byte at a time.
        complete is false when the input runs out before the frame ends (the
        real port would block there); line is then what was gathered. */
    method ReadSerial() returns (line: seq<Byte>, complete: bool)
      requires Valid()
      modifies this`pos
      ensures Valid()
      ensures var r := ReadFrame(input[old(pos)..]);
              complete == r.Complete? && line == r.line &&
              pos == if complete then old(pos) + r.used else |input|
    {
      ghost var r := ReadFrame(input[pos..]);
      var start := pos;
      var i := pos;
      line := [];
      complete := false;
      while i < |input|
        invariant start <= i <= |input|
        invariant r == Shift(Scan(input[i..], line), i - start)
        decreases |input| - i
      {
        var c := input[i];
        ReadStepEnd(input, start, i, line, r);
        if c == END && line != [] {
          i := i + 1;
          complete := true;
          break;
        } else if c == ESC {
          if i + 1 == |input| {
            i := i + 1;
            break;
          }
          ReadStepEscape(input, start, i, line, r);
          line := Unescape(line, input[i + 1]);
          i := i + 2;
        } else {
          ReadStepData(input, start, i, line, r);
          line := line + [c];
          i := i + 1;
        }
      }
      if !complete {
        ReadStepExhausted(input, start, line, r);
      }
      pos := i;
    }

    /** read_packet: reads one frame and parses it. */
    method ReadPacket() returns (complete: bool, packet: Option<Packet>)
      requires Valid()
      modifies this`pos
      ensures Valid()
      ensures var r := ReadFrame(input[old(pos)..]);
              complete == r.Complete? &&
              packet == (if complete then ParsePacket(r.line) else None) &&
              pos == if complete then old(pos) + r.used else |input|
    {
      var line;
      line, complete := ReadSerial();
      if complete {
        packet := ParsePacket(line);
      } else {
        packet := None;
      }
    }

    /** write_packet: escapes the packet byte by byte, adds the terminator and
        writes the result to the port. */
    method WritePacket(packet: seq<Byte>)
      modifies this`output
      ensures output == old(output) + Frame(packet)
    {
      var slipped: seq<Byte> := [];
      for i := 0 to |packet|
        invariant slipped == Escape(packet[..i])
        invariant output == old(output)
      {
        var c := packet[i];
        if c == END {
          slipped := slipped + [ESC];
          slipped := slipped + [ESC_END];
        } else if c == ESC {
          slipped := slipped + [ESC];
          slipped := slipped + [ESC_ESC];
        } else {
          slipped := slipped + [c];
        }
        assert packet[..i + 1] == packet[..i] + [c];
        EscapeSnoc(packet[..i], c);
      }
      assert packet[..|packet|] == packet;
      slipped := slipped + [END];
      assert slipped == Frame(packet);
      output := output + slipped;
    }

    method SetColor(r: Byte, g: Byte, b: Byte)
      modifies this`output
      ensures output == old(output) + Frame(ColorPacket(r, g, b))
    {
      WritePacket(ColorPacket(r, g, b));
    }

    method SetStreamingMode(quat: bool, acc: bool, gyro: bool, mag: bool, temperature: bool, gpio: bool)
      modifies this`output
      ensures output == old(output) + Frame(StreamingPacket(quat, acc, gyro, mag, temperature, gpio))
    {
      WritePacket(StreamingPacket(quat, acc, gyro, mag, temperature, gpio));
    }

    method SetCalibration(ox: Word, oy: Word, oz: Word, sx: Word, sy: Word, sz: Word)
      modifies this`output
      ensures output == old(output) + Frame(CalibrationPacket(ox, oy, oz, sx, sy, sz))
    {
      WritePacket(CalibrationPacket(ox, oy, oz, sx, sy, sz));
    }

    method SetGpioDirection(f0: int, f1: int, f4: int, f5: int, f6: int, f7: int)
      modifies this`output
      ensures output == old(output) + Frame(GpioDirectionPacket(f0, f1, f4, f5, f6, f7))
    {
      WritePacket(GpioDirectionPacket(f0, f1, f4, f5, f6, f7));
    }

    method SetGpioValue(f0: int, f1: int, f4: int, f5: int, f6: int, f7: int)
      modifies this`output
      ensures output == old(output) + Frame(GpioValuePacket(f0, f1, f4, f5, f6, f7))
    {
      WritePacket(GpioValuePacket(f0, f1, f4, f5, f6, f7));
    }

    method SetPower(power: Byte)
      modifies this`output
      ensures output == old(output) + Frame(PowerPacket(power))
    {
      WritePacket(PowerPacket(power));
    }
  }

  /** End to end: a packet the host can decode, encoded, framed and followed by
      anything, is read back and parsed into the same packet. */
  lemma PacketOverTheLink(pkt: Packet, rest: seq<Byte>)
    requires Decodable(pkt)
    ensures var r := ReadFrame(Frame(Encode(pkt)) + rest);
            r.Complete? && r.used == |Frame(Encode(pkt))| && ParsePacket(r.line) == Some(pkt)
  {
    ReadFrameWritten(Encode(pkt), rest);
    ParseEncode(pkt);
  }

  /** A STREAM frame followed by a COLOR frame: both frames are delimited, the
      first is not a packet the host parses, and the second still parses. */
  lemma StreamThenColor(quat: bool, acc: bool, gyro: bool, mag: bool, temperature: bool, gpio: bool,
                        r: Byte, g: Byte, b: Byte)
    ensures var stream := StreamingPacket(quat, acc, gyro, mag, temperature, gpio);
            var color := ColorPacket(r, g, b);
            ReadAll(Frame(stream) + Frame(color)) == [stream, color] &&
            ParsePacket(stream) == None &&
            ParsePacket(color) == Some(Triple(PACKET_COLOR, r, g, b))
  {
    var stream := StreamingPacket(quat, acc, gyro, mag, temperature, gpio);
    var color := ColorPacket(r, g, b);
    var ps: seq<seq<Byte>> := [stream, color];
    assert ps[1..] == [color] && ps[1..][1..] == [];
    assert WriteAll(ps[1..][1..]) == [];
    assert WriteAll(ps[1..]) == Frame(color) + [];
    assert WriteAll(ps) == Frame(stream) + Frame(color);
    ReadAllWritten(ps);
  }
}
