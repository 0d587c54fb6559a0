/** Byte stuffing on the serial link to the tracker (the alphabet of RFC 1055,
    "SLIP"), and the frame reader as the host implements it, except that where
    the host blocks for more input the model reports the read as pending.

    The encoder is the textbook one.  The reader is not: a terminator read while
    the line is still empty is kept as data, and an escape byte followed by
    anything other than ESC_END or ESC_ESC swallows both bytes, a following
    terminator included. */
module Slip {

  type Byte = b: int | 0 <= b < 256

  const END: Byte := 0xC0
  const ESC: Byte := 0xDB
  const ESC_END: Byte := 0xDC
  const ESC_ESC: Byte := 0xDD

  // ---------------------------------------------------------------------------
  // Encoder
  // ---------------------------------------------------------------------------

  /** What one payload byte becomes on the wire. */
  function EscapeByte(c: Byte): (r: seq<Byte>)
    ensures END !in r
    ensures |r| == if c == END || c == ESC then 2 else 1
  {
    if c == END then [ESC, ESC_END]
    else if c == ESC then [ESC, ESC_ESC]
    else [c]
  }

  /** The number of payload bytes that need an escape. */
  function Specials(p: seq<Byte>): (n: nat)
    ensures n <= |p|
  {
    if p == [] then 0
    else (if p[0] == END || p[0] == ESC then 1 else 0) + Specials(p[1..])
  }

  /** The escaped body of a frame, without its terminator. */
  function Escape(p: seq<Byte>): (r: seq<Byte>)
    ensures END !in r
    ensures |r| == |p| + Specials(p)
  {
    if p == [] then [] else EscapeByte(p[0]) + Escape(p[1..])
  }

  /** Everything write_packet puts on the wire for one packet. */
  function Frame(p: seq<Byte>): (r: seq<Byte>)
    ensures |r| == |p| + Specials(p) + 1 && r[|r| - 1] == END
  {
    Escape(p) + [END]
  }

  /** Escaping byte by byte from the front agrees with escaping from the back,
      which is the order in which the encoder's loop works. */
  lemma {:induction false} EscapeSnoc(p: seq<Byte>, c: Byte)
    ensures Escape(p + [c]) == Escape(p) + EscapeByte(c)
  {
    if p == [] {
      assert p + [c] == [c];
    } else {
      assert (p + [c])[1..] == p[1..] + [c];
      EscapeSnoc(p[1..], c);
    }
  }

  /** The encoded length is the payload length, plus one per escaped byte, plus
      the terminator; and the only terminator on the wire is the last byte. */
  lemma FrameShape(p: seq<Byte>)
    ensures |Frame(p)| == |p| + Specials(p) + 1
    ensures forall i :: 0 <= i < |Frame(p)| ==> (Frame(p)[i] == END <==> i == |Frame(p)| - 1)
  {
    var f := Frame(p);
    forall i | 0 <= i < |f| - 1
      ensures f[i] != END
    {
      assert f[i] == Escape(p)[i];
    }
  }

  // ---------------------------------------------------------------------------
  // Reader
  // ---------------------------------------------------------------------------

  /** The outcome of reading one frame: a complete line and the number of input
      bytes consumed, or the input ran out first (the real port would block
      there, waiting for more bytes) with the line gathered so far. */
  datatype Read = Complete(line: seq<Byte>, used: nat) | Pending(line: seq<Byte>)

  /** Accounts for k more input bytes consumed before r was read. */
  function Shift(r: Read, k: nat): Read
  {
    match r
    case Complete(l, n) => Complete(l, n + k)
    case Pending(_) => r
  }

  /** The line after an escape pair whose second byte is d: ESC_END and
      ESC_ESC put back the byte they stand for, anything else is dropped. */
  function Unescape(line: seq<Byte>, d: Byte): (r: seq<Byte>)
    ensures line <= r && |r| <= |line| + 1
  {
    if d == ESC_END then line + [END]
    else if d == ESC_ESC then line + [ESC]
    else line
  }

  /** The reader's state machine over the unread input s, with line the bytes
      already gathered. */
  function Scan(s: seq<Byte>, line: seq<Byte>): (r: Read)
    ensures r.Complete? ==> r.line != [] && 1 <= r.used <= |s|
    decreases |s|
  {
    if s == [] then Pending(line)
    else if s[0] == END && line != [] then Complete(line, 1)
    else if s[0] == ESC then
      if |s| == 1 then Pending(line)
      else
        Shift(Scan(s[2..], Unescape(line, s[1])), 2)
    else Shift(Scan(s[1..], line + [s[0]]), 1)
  }

  /** A completed line is never empty and ends where the input holds a
      terminator. */
  lemma {:induction false} ScanCompletes(s: seq<Byte>, line: seq<Byte>)
    ensures var r := Scan(s, line);
            r.Complete? ==> r.line != [] && 1 <= r.used <= |s| && s[r.used - 1] == END
    decreases |s|
  {
    if s == [] || (s[0] == END && line != []) {
    } else if s[0] == ESC {
      if |s| > 1 {
        ScanCompletes(s[2..], Unescape(line, s[1]));
      }
    } else {
      ScanCompletes(s[1..], line + [s[0]]);
    }
  }

  /** The reader only ever appends to the line it was given. */
  lemma {:induction false} ScanExtends(s: seq<Byte>, line: seq<Byte>)
    ensures line <= Scan(s, line).line
    decreases |s|
  {
    if s == [] || (s[0] == END && line != []) {
    } else if s[0] == ESC {
      if |s| > 1 {
        ScanExtends(s[2..], Unescape(line, s[1]));
      }
    } else {
      ScanExtends(s[1..], line + [s[0]]);
    }
  }

  /** One step of the reader on a byte that is neither an escape nor a
      terminator ending a non-empty line: the byte is appended. */
  lemma ScanData(s: seq<Byte>, line: seq<Byte>)
    requires s != [] && s[0] != ESC && !(s[0] == END && line != [])
    ensures Scan(s, line) == Shift(Scan(s[1..], line + [s[0]]), 1)
  {
  }

  /** One step of the reader on an escape pair. */
  lemma ScanEscape(s: seq<Byte>, line: seq<Byte>)
    requires |s| >= 2 && s[0] == ESC
    ensures Scan(s, line) == Shift(Scan(s[2..], Unescape(line, s[1])), 2)
  {
  }

  /** The reader stops on a terminator once the line is non-empty, and waits
      when the input ends inside an escape pair. */
  lemma ScanStops(s: seq<Byte>, line: seq<Byte>)
    requires s != []
    ensures s[0] == END && line != [] ==> Scan(s, line) == Complete(line, 1)
    ensures s == [ESC] ==> Scan(s, line) == Pending(line)
  {
  }

  lemma ShiftShift(r: Read, a: nat, b: nat)
    ensures Shift(Shift(r, a), b) == Shift(r, a + b)
  {
  }

  // The reader's progress through a fixed input s from position start: r is
  // the outcome of the whole call, i the next unread position and line the
  // bytes gathered so far.  Each lemma below is one step of the loop.

  lemma ReadStepData(s: seq<Byte>, start: nat, i: nat, line: seq<Byte>, r: Read)
    requires start <= i < |s| && r == Shift(Scan(s[i..], line), i - start)
    requires s[i] != ESC && !(s[i] == END && line != [])
    ensures r == Shift(Scan(s[i + 1..], line + [s[i]]), i + 1 - start)
  {
    assert s[i..][1..] == s[i + 1..];
    ScanData(s[i..], line);
    ShiftShift(Scan(s[i + 1..], line + [s[i]]), 1, i - start);
  }

  lemma ReadStepEscape(s: seq<Byte>, start: nat, i: nat, line: seq<Byte>, r: Read)
    requires start <= i && i + 1 < |s| && r == Shift(Scan(s[i..], line), i - start)
    requires s[i] == ESC
    ensures r == Shift(Scan(s[i + 2..], Unescape(line, s[i + 1])), i + 2 - start)
  {
    assert s[i..][2..] == s[i + 2..];
    ScanEscape(s[i..], line);
    ShiftShift(Scan(s[i + 2..], Unescape(line, s[i + 1])), 2, i - start);
  }

  lemma ReadStepEnd(s: seq<Byte>, start: nat, i: nat, line: seq<Byte>, r: Read)
    requires start <= i < |s| && r == Shift(Scan(s[i..], line), i - start)
    ensures s[i] == END && line != [] ==> r == Complete(line, i + 1 - start)
    ensures i + 1 == |s| && s[i] == ESC ==> r == Pending(line)
  {
    ScanStops(s[i..], line);
    assert i + 1 == |s| ==> s[i..] == [s[i]];
  }

  lemma ReadStepExhausted(s: seq<Byte>, start: nat, line: seq<Byte>, r: Read)
    requires start <= |s| && r == Shift(Scan(s[|s|..], line), |s| - start)
    ensures r == Pending(line)
  {
    assert s[|s|..] == [];
  }

  /** One call of the reader on a fresh line: a completed frame is never
      empty, and its terminator is the last byte consumed. */
  function ReadFrame(s: seq<Byte>): (r: Read)
    ensures r.Complete? ==> r.line != [] && 1 <= r.used <= |s| && s[r.used - 1] == END
  {
    ScanCompletes(s, []);
    Scan(s, [])
  }

  /** Reading the wire image of p, whatever follows it, yields the gathered line
      extended by p and consumes exactly the encoded bytes. */
  lemma {:induction false} ScanFrame(p: seq<Byte>, rest: seq<Byte>, line: seq<Byte>)
    requires line + p != []
    ensures Scan(Frame(p) + rest, line) == Complete(line + p, |Frame(p)|)
  {
    var s := Frame(p) + rest;
    if p == [] {
      assert line + p == line;
      assert s[0] == END;
    } else {
      var c, q := p[0], p[1..];
      var e := EscapeByte(c);
      assert Frame(p) == e + Frame(q);
      assert s == e + (Frame(q) + rest);
      assert line + p == (line + [c]) + q;
      ScanFrame(q, rest, line + [c]);
      if c == END || c == ESC {
        assert s[0] == ESC && s[2..] == Frame(q) + rest;
      } else {
        assert s[0] == c && s[1..] == Frame(q) + rest;
      }
    }
  }

  /** Round trip: the reader returns exactly the packet write_packet sent, and
      stops right after its terminator. */
  lemma ReadFrameWritten(p: seq<Byte>, rest: seq<Byte>)
    requires p != []
    ensures ReadFrame(Frame(p) + rest) == Complete(p, |Frame(p)|)
  {
    ScanFrame(p, rest, []);
    assert [] + p == p;
  }

  /** A terminator met with an empty line is data: the completed line starts
      with it. */
  lemma LeadingEndIsData(t: seq<Byte>)
    ensures ReadFrame([END] + t) == Shift(Scan(t, [END]), 1)
    ensures ReadFrame([END] + t).line != [] && ReadFrame([END] + t).line[0] == END
  {
    var s := [END] + t;
    assert s[0] == END && s[0] != ESC && s[1..] == t;
    assert [] + [s[0]] == [END];
    assert Scan(s, []) == Shift(Scan(s[1..], [] + [s[0]]), 1);
    ScanExtends(t, [END]);
  }

  /** An escape byte followed by anything but ESC_END or ESC_ESC drops both
      bytes; when the second byte is a terminator the frame does not end there. */
  lemma EscapeOtherDropped(d: Byte, t: seq<Byte>, line: seq<Byte>)
    requires d != ESC_END && d != ESC_ESC
    ensures Scan([ESC, d] + t, line) == Shift(Scan(t, line), 2)
    ensures Scan([ESC, d] + t, line).Complete? ==> Scan([ESC, d] + t, line).used > 2
  {
    assert ([ESC, d] + t)[2..] == t;
  }

  /** The two escape pairs the encoder emits put back the byte they stand for. */
  lemma EscapePairs(t: seq<Byte>, line: seq<Byte>)
    ensures Scan([ESC, ESC_END] + t, line) == Shift(Scan(t, line + [END]), 2)
    ensures Scan([ESC, ESC_ESC] + t, line) == Shift(Scan(t, line + [ESC]), 2)
  {
    assert ([ESC, ESC_END] + t)[2..] == t;
    assert ([ESC, ESC_ESC] + t)[2..] == t;
  }

  // ---------------------------------------------------------------------------
  // A stream of frames
  // ---------------------------------------------------------------------------

  /** The lines that repeated calls of the reader return from s, up to the
      first call that runs out of input. */
  function ReadAll(s: seq<Byte>): (lines: seq<seq<Byte>>)
    ensures forall i :: 0 <= i < |lines| ==> lines[i] != []
    decreases |s|
  {
    match ReadFrame(s)
    case Pending(_) => []
    case Complete(l, n) => [l] + ReadAll(s[n..])
  }

  /** The wire image of a sequence of packets, one frame after another. */
  function WriteAll(ps: seq<seq<Byte>>): seq<Byte>
  {
    if ps == [] then [] else Frame(ps[0]) + WriteAll(ps[1..])
  }

  /** Any sequence of non-empty packets written one after another is read back
      packet by packet, in order. */
  lemma {:induction false} ReadAllWritten(ps: seq<seq<Byte>>)
    requires forall i :: 0 <= i < |ps| ==> ps[i] != []
    ensures ReadAll(WriteAll(ps)) == ps
  {
    if ps == [] {
      assert ReadFrame([]) == Pending([]);
    } else {
      var s := WriteAll(ps);
      ReadFrameWritten(ps[0], WriteAll(ps[1..]));
      assert s[|Frame(ps[0])|..] == WriteAll(ps[1..]);
      ReadAllWritten(ps[1..]);
      assert [ps[0]] + ps[1..] == ps;
    }
  }
}
