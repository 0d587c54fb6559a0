# Tracker serial protocol and canvas logic, in Dafny

This project models the host side of the serial link to a handheld motion and
IR tracker (`tracker.py`). It also models the small piece of integer logic in
the projection canvas (`canvas.py`) that uses the link.

The link code has three layers:

- **Framing** (`slip.dfy`, module `Slip`) uses the byte-stuffing alphabet of
  RFC 1055 (SLIP): END 0xC0, ESC 0xDB, ESC_END 0xDC, ESC_ESC 0xDD.
  - The encoder is `write_packet`.
  - The frame reader is the state machine of `read_serial`. It is modelled
    over the unread input and the line gathered so far.
- **Packets** (`packets.dfy`, module `Packets`) covers the tag constants, the
  big-endian field layouts of `struct` with the `!` prefix, and `parse_packet`.
- **Commands** (`commands.dfy`, module `Commands`) holds the packets the
  `set_*` methods build, including the bit masks.

The `Tracker` class (`tracker.dfy`) models the serial port by what passes
through it:

- the bytes the device sends (`input`);
- how many of them have been read (`pos`);
- every byte the host has written (`output`).

The loops of `read_serial` and `write_packet` are methods on that class. Each
is proved against the framing functions.

The canvas (`canvas.dfy`, module `Canvas`) covers:

- the signed triangle area;
- the reordering of the four corner markers by at most one swap;
- the clamped camera threshold;
- the keyboard handling of the debug overlay and the threshold direction.

The `AdjacentCanvas` class keeps the fields the source updates in place.

The reader departs from textbook SLIP (RFC 1055), and the model follows the
code:

- **Terminator on an empty line.** `read_serial` keeps a terminator read while
  the line is empty as data (tracker.py:64, 72-73). It does not skip it.
- **Unknown escape pairs.** An escape followed by any byte other than ESC_END
  or ESC_ESC drops both bytes (tracker.py:66-71). If that byte is a
  terminator, the frame does not end there.
- **Blocking reads.** The reader returns one frame per call. When the input
  runs out before a frame ends, the model reports `Pending` where the real port
  would wait for more bytes.

`parse_packet` has no layout for STREAM (tag 9), although the host sends STREAM
packets, so a STREAM frame parses to `None` (tracker.py:51-53).

## Model

| member | source | states |
|---|---|---|
| Slip.EscapeByte | tracker.py:86-93 | a payload byte goes on the wire as ESC ESC_END (END), ESC ESC_ESC (ESC) or itself; never as a literal END |
| Slip.Escape | tracker.py:85-93 | the escaped body holds no END, and its length is the payload length plus one per END or ESC byte |
| Slip.Frame | tracker.py:85-96 | write_packet's wire image is the payload length plus the escaped bytes plus one, and ends with END |
| Slip.EscapeSnoc | tracker.py:85-93 | escaping byte after byte, as the encoder loop does, agrees with escaping the whole payload |
| Slip.FrameShape | tracker.py:85-95 | the frame length is the payload length plus the escaped bytes plus one; the only END in a frame is its last byte |
| Slip.Scan | tracker.py:59-75 | the read_serial state machine: a completed line is non-empty and consumes between one byte and the whole input |
| Slip.Unescape | tracker.py:68-71 | an escape pair adds at most one byte to the line and never removes any |
| Slip.ScanCompletes | tracker.py:62-75 | the reader stops only on an END and never with an empty line; it consumes at least one byte and no more than the input |
| Slip.ScanExtends | tracker.py:60-73 | the reader only appends to the line it has gathered |
| Slip.ReadFrame | tracker.py:59-75 | one read_serial call: a completed line is non-empty, and its terminator is the last byte consumed |
| Slip.ScanData | tracker.py:72-73 | proof step of ReadSerial, one branch of Scan: a byte that neither starts an escape nor ends a non-empty line is appended |
| Slip.ScanEscape | tracker.py:66-71 | proof step of ReadSerial, one branch of Scan: an escape pair consumes two bytes and appends END, ESC or nothing |
| Slip.ScanStops | tracker.py:63-67 | proof step of ReadSerial, two branches of Scan: END on a non-empty line ends the frame after one byte; a lone trailing ESC leaves the read pending |
| Slip.ScanFrame | tracker.py:59-96 | reading a frame on top of a gathered line appends exactly the payload and consumes exactly the frame |
| Slip.ReadFrameWritten | tracker.py:59-96 | round trip: reading the frame of a non-empty packet, followed by anything, returns that packet and stops right after the frame |
| Slip.LeadingEndIsData | tracker.py:64-73 | an END read while the line is empty is kept as the first byte of the line |
| Slip.EscapeOtherDropped | tracker.py:66-71 | ESC followed by any other byte, END included, drops both bytes and does not end the frame there |
| Slip.EscapePairs | tracker.py:66-71 | ESC ESC_END puts back END, and ESC ESC_ESC puts back ESC |
| Slip.ReadAll | tracker.py:59-75 | repeated reads return only non-empty lines |
| Slip.ReadAllWritten | tracker.py:59-96 | any sequence of non-empty packets written one after another is read back packet by packet, in order |
| Packets.U16 | tracker.py:44 | two bytes read big-endian give a number below 2^16 |
| Packets.U32 | tracker.py:50 | an 'I' field read big-endian has the first two bytes as its high half and the last two as its low half |
| Packets.U16Bytes | tracker.py:44 | the two big-endian bytes of an unsigned 16-bit number read back as that number |
| Packets.U16Inverse | tracker.py:44 | two bytes read as a 16-bit number and written again give the same two bytes |
| Packets.I16 | tracker.py:44 | an 'h' field is negative exactly when its top bit is set, and agrees with the unsigned reading modulo 2^16 |
| Packets.I16Bytes | tracker.py:44 | writing a signed 16-bit value and reading it back gives the value |
| Packets.I16Inverse | tracker.py:44 | reading an 'h' field and writing it again gives the same two bytes |
| Packets.U32Bytes | tracker.py:50 | writing an unsigned 32-bit value ('I') big-endian and reading it back gives the value |
| Packets.SplitWord | tracker.py:50 | proof step of U32 and U32Inverse: a 32-bit value splits into its high and low halves |
| Packets.U32Inverse | tracker.py:50 | four bytes read as an 'I' field and written again give the same four bytes |
| Packets.ExpectedLength | tracker.py:41-53 | a tag has a layout exactly when it is at most 11 and is neither TEMPERATURE nor STREAM; every layout is 2 to 17 bytes |
| Packets.Encode | tracker.py:99-125 | struct.pack of a packet has its layout's width and starts with the tag |
| Packets.ParsePacket | tracker.py:37-57 | a frame decodes exactly when its tag is in the table and its length is that tag's (17; 7; 4; 2; 5); the tuple starts with the tag |
| Packets.ParseEncode | tracker.py:41-50 | every packet whose tag selects its own layout survives encoding and decoding |
| Packets.EncodeParse | tracker.py:41-50 | whatever parse_packet accepts is the encoding of the tuple it returns |
| Packets.UnknownTags | tracker.py:51-53 | TEMPERATURE, STREAM, CAL, GPIO_DDR, GPIO_PORT, POWER and every tag from 16 up never decode |
| Commands.ColorPacket | tracker.py:98-100 | set_color sends [6, r, g, b], which the host's own parser reads back as that colour |
| Commands.StreamingMask | tracker.py:103-104 | mask bit i is set exactly when the flag of the quantity with tag i is; bits 6 and 7 stay clear |
| Commands.StreamingPacket | tracker.py:102-106 | set_streaming_mode sends [9, mask] with the mask below 0x40 |
| Commands.GpioMask | tracker.py:113-114 | bits 0, 1, 4, 5, 6 and 7 are set exactly when their argument is non-zero; bits 2 and 3 never are |
| Commands.GpioDirectionPacket | tracker.py:112-116 | set_gpio_direction sends [13, mask] |
| Commands.GpioValuePacket | tracker.py:118-122 | set_gpio_value sends [14, mask] |
| Commands.PowerPacket | tracker.py:124-126 | set_power sends [15, power] |
| Commands.CalibrationPacket | tracker.py:108-110 | set_calibration sends 25 bytes starting with tag 12 |
| Commands.MagentaOnTheWire | tracker.py:133 | set_color((255, 0, 255)) puts 06 FF 00 FF C0 on the wire |
| Commands.QuatAccGpioMask | tracker.py:103-104 | streaming quaternions, accelerations and GPIO selects mask 0b00100011 |
| Tracker.Tracker.constructor | tracker.py:26-35 | the port starts with nothing written, and one frame is read and discarded |
| Tracker.Tracker.ReadSerial | tracker.py:59-75 | the loop returns the reader's line and advances the port past exactly the bytes of the frame |
| Tracker.Tracker.ReadPacket | tracker.py:77-80 | read_packet is parse_packet applied to the line read_serial returns |
| Tracker.Tracker.WritePacket | tracker.py:82-96 | the loop appends exactly the frame of the packet to what has been written |
| Tracker.Tracker.SetColor | tracker.py:98-100 | writes the frame of the COLOR packet |
| Tracker.Tracker.SetStreamingMode | tracker.py:102-106 | writes the frame of the STREAM packet |
| Tracker.Tracker.SetCalibration | tracker.py:108-110 | writes the frame of the CAL packet |
| Tracker.Tracker.SetGpioDirection | tracker.py:112-116 | writes the frame of the GPIO_DDR packet |
| Tracker.Tracker.SetGpioValue | tracker.py:118-122 | writes the frame of the GPIO_PORT packet |
| Tracker.Tracker.SetPower | tracker.py:124-126 | writes the frame of the POWER packet |
| Tracker.PacketOverTheLink | tracker.py:77-96 | a decodable packet written to the link is read back and parsed into the same packet |
| Tracker.StreamThenColor | tracker.py:37-57 | a STREAM frame then a COLOR frame are read as two lines; the first does not parse and the second parses to the colour |
| Canvas.TriangleArea | canvas.py:134-135 | triangle_area is the cross product of the edge vectors ab and ac |
| Canvas.AreaSymmetries | canvas.py:134-135 | rotating the corners keeps the area, and exchanging two of them negates it |
| Canvas.Swap | canvas.py:156 | a tuple swap keeps the list's length and its elements |
| Canvas.SwapBySigns | canvas.py:153-165 | the case table exchanges at most one pair and keeps the four points |
| Canvas.OrderCorners | canvas.py:150-165 | the corners are a permutation of the four markers, at most one pair exchanged |
| Canvas.OrderCornersPicks | canvas.py:153-165 | the corner order produced in each of the six sign cases of abc, acd and abd |
| Canvas.SwapGivesNegativeDiagonal | canvas.py:149-165 | in general position, each case's swap leaves a diagonal whose two triangles both have negative area |
| Canvas.OrderCornersUncrossed | canvas.py:149-165 | in general position the reordered corners have a diagonal with the other two corners strictly on either side, so the quadrilateral's edges do not cross |
| Canvas.ClampThreshold | canvas.py:185-187 | the threshold lies in [0, 255]: the sum when in range, 0 below and 255 above |
| Canvas.NextDebugMode | canvas.py:231-233 | the 'd' key moves the debug mode to the next one modulo DEBUG_MAX |
| Canvas.DebugStep | canvas.py:229-233 | only a 'd' key press changes the debug mode, and a valid mode stays valid |
| Canvas.DebugModeAfter | canvas.py:225-233 | after any batch of events a valid debug mode stays in {0, 1, 2} |
| Canvas.DThresholdStep | canvas.py:235-241 | a + or = press sets the direction to 1, a - or _ press to -1, a release of any of them to 0, and every other event leaves it; it stays in [-1, 1] |
| Canvas.DThresholdAfter | canvas.py:225-241 | over a batch of events the threshold direction stays in [-1, 1] |
| Canvas.DebugModeCycles | canvas.py:229-233 | after any batch of events the debug mode has moved on by the number of 'd' presses, modulo 3 |
| Canvas.PressHolds | canvas.py:235-238 | after a press of + or = the direction is 1, and after - or _ it is -1, until the next press or release of a threshold key |
| Canvas.ReleaseStops | canvas.py:239-241 | releasing a threshold key with no key pressed after it leaves the direction 0 |
| Canvas.AdjacentCanvas.constructor | canvas.py:66-71 | starts with no debug overlay, threshold 100, direction 0 and no corners |
| Canvas.AdjacentCanvas.UpdateTracking | canvas.py:144-165 | with at least four blobs the corners become the ordered first four; otherwise they stay |
| Canvas.AdjacentCanvas.UpdateInput | canvas.py:182-187 | the new threshold is the clamped sum, so it stays in [0, 255] |
| Canvas.AdjacentCanvas.HandleEvents | canvas.py:224-241 | the loop keeps going exactly when no quit or escape event arrived; the debug mode and direction follow the events in order |

## Left out

- Tracker.Tracker.ReadSerial: does not block when the input runs out. It returns `complete == false` with the line gathered so far and the port at its end, because a wait for more bytes cannot be modelled.
- Tracker.Tracker.constructor: opening the port at 38400 baud and `flushInput` are not modelled. The input sequence starts at the first byte after the flush.
- Packets.ParsePacket: requires a non-empty line. On an empty line the source raises an uncaught IndexError at `packet[0]`, and `read_serial` never returns one (see `Slip.ScanCompletes`).
- Packets.ParseEncode: floats ('f' fields of QUAT) are carried as their raw 32-bit words. IEEE 754 decoding is not modelled, so the round trip is over bit patterns.
- Commands.ColorPacket, Commands.PowerPacket, Tracker.Tracker.SetColor, Tracker.Tracker.SetPower: the colour components and the power level are bytes. For a value outside 0..255 the source's `struct.pack` raises struct.error (tracker.py:99, 125), and that error path is not modelled; every caller in the repository passes bytes.
- Commands.CalibrationPacket: states only the length and the tag. The six floats are opaque 32-bit words.
- Commands.StreamingMask: the flags are booleans. The source shifts whatever integers it is given, and its callers pass 0 or 1.
- Canvas.AdjacentCanvas.UpdateTracking: takes the projected centroids as input, in the order of the blob list as update_tracking sees it (sorted by size only when there are more than four). Blob extraction, sorting by size and the homography `convert_point` (float division) are not modelled.
- Canvas.AdjacentCanvas.HandleEvents: takes one batch of events as input. The outer `while going` loop, `update_display` and `pygame.quit` are not modelled.
- `read_packets`, called at canvas.py:44, does not exist in tracker.py and is not part of this model. Neither is the `tracker.close` called at canvas.py:63.
- `SprayCan` (charge and shake arithmetic, `math.sqrt`, HSV colours), camera capture, masks, connected components, rendering and `print` output are left out: they are floating point or I/O.
- The serial `read` and `write` calls are modelled only as the `input` and `output` byte sequences of the `Tracker` class.
