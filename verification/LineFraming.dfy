/** The peer connection's line reader.

    Reading is driven by a schedule of read results: bytes in pieces of any size up to a
    chunk, the end of the stream, an I/O error, or the future being dropped while it waits.
    Main result: whatever the pieces and wherever calls are cancelled, the outcomes of
    repeated calls depend only on the bytes and on how the stream ends. */
module LineFraming {
  import opened Bytes

  const NEWLINE: Byte := 10
  const CHUNK: nat := 4096

  type Chunk = b: Bytes | 1 <= |b| <= CHUNK witness [0]

  datatype ReadEvent =
    | Data(bytes: Chunk)
    | Eof
    | Failed
    | Dropped // the pending call is cancelled

  datatype Outcome =
    | Line(bytes: Bytes)
    | TooLong
    | NotUtf8
    | EndOfStream
    | ClosedMidFrame
    | ReadFailed
    | Cancelled // no result: the call was dropped, or the schedule ends while it waits

  /** `String::from_utf8` is a parameter. */
  type Utf8 = Bytes -> bool

  /** The position of the first newline, or -1. */
  function NewlineAt(b: Bytes): (pos: int)
    ensures -1 <= pos < |b|
    ensures pos == -1 ==> NoNewline(b)
    ensures pos != -1 ==> b[pos] == 10 && forall i :: 0 <= i < pos ==> b[i] != NEWLINE
  {
    if b == [] then -1
    else if b[0] == NEWLINE then 0
    else
      var rest := NewlineAt(b[1..]);
      assert b == [b[0]] + b[1..];
      if rest == -1 then -1 else rest + 1
  }

  ghost predicate NoNewline(b: Bytes) {
    forall i :: 0 <= i < |b| ==> b[i] != NEWLINE
  }

  function FrameOutcome(line: Bytes, maxLen: nat, utf8: Utf8): Outcome {
    if |line| > maxLen then TooLong else if utf8(line) then Line(line) else NotUtf8
  }

  /** One call of `read_line`: its outcome, the buffer it leaves and the events still to come. */
  function ReadCall(buf: Bytes, events: seq<ReadEvent>, maxLen: nat, utf8: Utf8): (Outcome, Bytes, seq<ReadEvent>)
    decreases |events|
  {
    var pos := NewlineAt(buf);
    if pos >= 0 then (FrameOutcome(buf[..pos], maxLen, utf8), buf[pos + 1..], events)
    else if |buf| > maxLen then (TooLong, buf, events)
    else if events == [] then (Cancelled, buf, [])
    else
      match events[0]
      case Data(bytes) => ReadCall(buf + bytes, events[1..], maxLen, utf8)
      case Eof => (if buf == [] then EndOfStream else ClosedMidFrame, buf, events[1..])
      case Failed => (ReadFailed, buf, events[1..])
      case Dropped => (Cancelled, buf, events[1..])
  }

  /** `TcpPeerWire`: the connection-level buffer and the socket. */
  class TcpPeerWire {
    var readBuf: Bytes
    var stream: seq<ReadEvent>

    constructor (events: seq<ReadEvent>)
      ensures readBuf == [] && stream == events
    {
      readBuf := [];
      stream := events;
    }

    /** The next result of reading the socket. */
    method NextEvent() returns (event: ReadEvent)
      requires stream != []
      modifies this`stream
      ensures event == old(stream)[0] && stream == old(stream)[1..]
    {
      event := stream[0];
      stream := stream[1..];
    }

    /** Drain a complete line from the buffer. */
    method TakeLine(pos: nat, maxLen: nat, utf8: Utf8) returns (outcome: Outcome)
      requires pos < |readBuf|
      modifies this`readBuf
      ensures outcome == FrameOutcome(old(readBuf)[..pos], maxLen, utf8)
      ensures readBuf == old(readBuf)[pos + 1..]
    {
      var raw := readBuf[..pos + 1];
      var line := raw[..|raw| - 1];
      assert line == readBuf[..pos];
      readBuf := readBuf[pos + 1..];
      if |line| > maxLen {
        return TooLong;
      }
      return if utf8(line) then Line(line) else NotUtf8;
    }

    /** `read_line`. */
    method ReadLine(maxLen: nat, utf8: Utf8) returns (outcome: Outcome)
      modifies this
      ensures (outcome, readBuf, stream) == ReadCall(old(readBuf), old(stream), maxLen, utf8)
    {
      hide NewlineAt, FrameOutcome;
      while true
        invariant ReadCall(readBuf, stream, maxLen, utf8) == ReadCall(old(readBuf), old(stream), maxLen, utf8)
        decreases |stream|
      {
        var pos := NewlineAt(readBuf);
        if pos >= 0 {
          outcome := TakeLine(pos, maxLen, utf8);
          return;
        }
        if |readBuf| > maxLen {
          return TooLong;
        }
        if stream == [] {
          return Cancelled;
        }
        var event := NextEvent();
        match event
        case Data(bytes) =>
          readBuf := readBuf + bytes;
        case Eof =>
          return if readBuf == [] then EndOfStream else ClosedMidFrame;
        case Failed =>
          return ReadFailed;
        case Dropped =>
          return Cancelled;
      }
    }
  }

  // ----- the stream without its pieces -----

  datatype Ending = Open | AtEof | AtFailure

  /** All bytes that arrive before the stream ends. */
  function Received(events: seq<ReadEvent>): Bytes {
    if events == [] then []
    else
      match events[0]
      case Data(bytes) => bytes + Received(events[1..])
      case Dropped => Received(events[1..])
      case _ => []
  }

  function EndingOf(events: seq<ReadEvent>): Ending {
    if events == [] then Open
    else
      match events[0]
      case Eof => AtEof
      case Failed => AtFailure
      case _ => EndingOf(events[1..])
  }

  /** What a reader of whole lines sees, up to the first result that is not a line. */
  function Frames(total: Bytes, ending: Ending, maxLen: nat, utf8: Utf8): seq<Outcome>
    decreases |total|
  {
    var pos := NewlineAt(total);
    if pos >= 0 then
      var o := FrameOutcome(total[..pos], maxLen, utf8);
      if o.Line? then [o] + Frames(total[pos + 1..], ending, maxLen, utf8) else [o]
    else if |total| > maxLen then [TooLong]
    else
      match ending
      case Open => []
      case AtEof => [if total == [] then EndOfStream else ClosedMidFrame]
      case AtFailure => [ReadFailed]
  }

  lemma NewlineInPrefix(a: Bytes, b: Bytes)
    ensures NewlineAt(a) >= 0 ==> NewlineAt(a + b) == NewlineAt(a)
    ensures NewlineAt(a) < 0 && NewlineAt(a + b) >= 0 ==> NewlineAt(a + b) >= |a|
  {
    hide NewlineAt;
    assert forall i :: 0 <= i < |a| ==> (a + b)[i] == a[i];
  }

  lemma NewlineOfLine(line: Bytes, rest: Bytes)
    requires NoNewline(line)
    ensures var total := line + [NEWLINE] + rest;
            NewlineAt(total) == |line| && total[..|line|] == line && total[|line| + 1..] == rest
  {
    hide NewlineAt;
    var total := line + [NEWLINE] + rest;
    assert total[|line|] == NEWLINE;
    assert forall i :: 0 <= i < |line| ==> total[i] == line[i];
  }

  /** One call, read against the stream without its pieces. */
  ghost predicate CallMeaning(
    o: Outcome, total: Bytes, ending: Ending, total': Bytes, ending': Ending, maxLen: nat, utf8: Utf8)
  {
    match o
    case Cancelled => total' == total && ending' == ending
    case Line(line) =>
      total == line + [NEWLINE] + total' && NoNewline(line) && |line| <= maxLen && utf8(line) && ending' == ending
    case _ => Frames(total, ending, maxLen, utf8) == [o]
  }

  /** A complete frame at the front decides the call and the first outcome. */
  lemma FrameAtFront(buf: Bytes, rest: Bytes, ending: Ending, maxLen: nat, utf8: Utf8)
    requires NewlineAt(buf) >= 0
    ensures var pos := NewlineAt(buf);
            CallMeaning(FrameOutcome(buf[..pos], maxLen, utf8), buf + rest, ending, buf[pos + 1..] + rest, ending,
                        maxLen, utf8)
  {
    hide NewlineAt;
    var pos, total := NewlineAt(buf), buf + rest;
    NewlineInPrefix(buf, rest);
    assert total[..pos] == buf[..pos];
    assert total == buf[..pos] + [NEWLINE] + (buf[pos + 1..] + rest);
  }

  lemma NoFrameFits(buf: Bytes, rest: Bytes, ending: Ending, maxLen: nat, utf8: Utf8)
    requires NewlineAt(buf) < 0 && |buf| > maxLen
    ensures Frames(buf + rest, ending, maxLen, utf8) == [TooLong]
  {
    hide NewlineAt;
    NewlineInPrefix(buf, rest);
  }

  lemma StreamEnds(buf: Bytes, ending: Ending, maxLen: nat, utf8: Utf8)
    requires NewlineAt(buf) < 0 && |buf| <= maxLen
    ensures Frames(buf, ending, maxLen, utf8) ==
            match ending
            case Open => []
            case AtEof => [if buf == [] then EndOfStream else ClosedMidFrame]
            case AtFailure => [ReadFailed]
  {
    hide NewlineAt;
  }

  lemma {:induction false} CallIsFaithful(buf: Bytes, events: seq<ReadEvent>, maxLen: nat, utf8: Utf8)
    ensures var (o, buf', events') := ReadCall(buf, events, maxLen, utf8);
            CallMeaning(o, buf + Received(events), EndingOf(events), buf' + Received(events'), EndingOf(events'), maxLen,
                        utf8)
    decreases |events|
  {
    hide NewlineAt, Frames, FrameOutcome;
    if NewlineAt(buf) >= 0 {
      FrameAtFront(buf, Received(events), EndingOf(events), maxLen, utf8);
    } else if |buf| > maxLen {
      NoFrameFits(buf, Received(events), EndingOf(events), maxLen, utf8);
    } else if events != [] {
      match events[0]
      case Data(bytes) =>
        assert buf + (bytes + Received(events[1..])) == (buf + bytes) + Received(events[1..]);
        CallIsFaithful(buf + bytes, events[1..], maxLen, utf8);
      case Eof =>
        StreamEnds(buf, AtEof, maxLen, utf8);
        assert buf + [] == buf;
      case Failed =>
        StreamEnds(buf, AtFailure, maxLen, utf8);
        assert buf + [] == buf;
      case Dropped =>
    }
  }

  /** A line is returned exactly as it leaves the stream. */
  lemma FramesOfLine(line: Bytes, rest: Bytes, ending: Ending, maxLen: nat, utf8: Utf8)
    requires NoNewline(line) && |line| <= maxLen && utf8(line)
    ensures Frames(line + [NEWLINE] + rest, ending, maxLen, utf8) == [Line(line)] + Frames(rest, ending, maxLen, utf8)
  {
    hide NewlineAt;
    NewlineOfLine(line, rest);
  }

  // ----- runs -----

  function DataSize(events: seq<ReadEvent>): nat {
    if events == [] then 0
    else (if events[0].Data? then 1 + |events[0].bytes| else 1) + DataSize(events[1..])
  }

  lemma {:induction false} CallShrinks(buf: Bytes, events: seq<ReadEvent>, maxLen: nat, utf8: Utf8)
    ensures var (o, buf', events') := ReadCall(buf, events, maxLen, utf8);
            (o.Line? || (o == Cancelled && events != [])) ==>
              |buf'| + DataSize(events') < |buf| + DataSize(events)
    decreases |events|
  {
    hide NewlineAt;
    if NewlineAt(buf) < 0 && |buf| <= maxLen && events != [] && events[0].Data? {
      CallShrinks(buf + events[0].bytes, events[1..], maxLen, utf8);
      if events[1..] == [] && ReadCall(buf, events, maxLen, utf8).0 == Cancelled {
        assert ReadCall(buf, events, maxLen, utf8) == (Cancelled, buf + events[0].bytes, []);
      }
    }
  }

  /** The outcomes of calling `read_line` again and again, cancelled calls left out, until a
      result is not a line or nothing more arrives. */
  function Run(buf: Bytes, events: seq<ReadEvent>, maxLen: nat, utf8: Utf8): seq<Outcome>
    decreases |buf| + DataSize(events)
  {
    var (o, buf', events') := ReadCall(buf, events, maxLen, utf8);
    CallShrinks(buf, events, maxLen, utf8);
    if o.Line? then [o] + Run(buf', events', maxLen, utf8)
    else if o != Cancelled then [o]
    else if events == [] then []
    else Run(buf', events', maxLen, utf8)
  }

  /** Framing does not depend on how the stream is cut into reads or on where calls are
      cancelled. */
  lemma {:induction false} FramingIndependent(buf: Bytes, events: seq<ReadEvent>, maxLen: nat, utf8: Utf8)
    ensures Run(buf, events, maxLen, utf8) == Frames(buf + Received(events), EndingOf(events), maxLen, utf8)
    decreases |buf| + DataSize(events)
  {
    hide NewlineAt, Frames;
    var (o, buf', events') := ReadCall(buf, events, maxLen, utf8);
    CallShrinks(buf, events, maxLen, utf8);
    CallIsFaithful(buf, events, maxLen, utf8);
    if o.Line? {
      FramingIndependent(buf', events', maxLen, utf8);
      FramesOfLine(o.bytes, buf' + Received(events'), EndingOf(events), maxLen, utf8);
    } else if o == Cancelled {
      if events == [] {
        WaitingFrames(buf, maxLen, utf8);
      } else {
        FramingIndependent(buf', events', maxLen, utf8);
      }
    }
  }

  lemma WaitingFrames(buf: Bytes, maxLen: nat, utf8: Utf8)
    requires ReadCall(buf, [], maxLen, utf8).0 == Cancelled
    ensures Frames(buf + Received([]), EndingOf([]), maxLen, utf8) == []
  {
    hide NewlineAt;
    assert buf + Received([]) == buf;
  }

  /** Two schedules that deliver the same bytes and end alike cannot be told apart. */
  lemma SameBytesSameLines(a: seq<ReadEvent>, b: seq<ReadEvent>, maxLen: nat, utf8: Utf8)
    requires Received(a) == Received(b) && EndingOf(a) == EndingOf(b)
    ensures Run([], a, maxLen, utf8) == Run([], b, maxLen, utf8)
  {
    hide Run, Frames;
    FramingIndependent([], a, maxLen, utf8);
    FramingIndependent([], b, maxLen, utf8);
  }

  // ----- writing and reading back -----

  /** Lines as a peer writes them. */
  function Written(lines: seq<Bytes>): Bytes {
    if lines == [] then [] else lines[0] + [NEWLINE] + Written(lines[1..])
  }

  function AsOutcomes(lines: seq<Bytes>): (os: seq<Outcome>)
    ensures |os| == |lines| && forall i :: 0 <= i < |os| ==> os[i] == Line(lines[i])
  {
    seq(|lines|, i requires 0 <= i < |lines| => Line(lines[i]))
  }

  lemma {:induction false} FramesOfWritten(lines: seq<Bytes>, rest: Bytes, ending: Ending, maxLen: nat, utf8: Utf8)
    requires forall i :: 0 <= i < |lines| ==> NoNewline(lines[i]) && |lines[i]| <= maxLen && utf8(lines[i])
    ensures Frames(Written(lines) + rest, ending, maxLen, utf8) == AsOutcomes(lines) + Frames(rest, ending, maxLen, utf8)
    decreases |lines|
  {
    hide NewlineAt, Frames;
    if lines == [] {
      assert Written(lines) + rest == rest;
      assert AsOutcomes(lines) == [];
    } else {
      var more := Written(lines[1..]) + rest;
      FramesOfWritten(lines[1..], rest, ending, maxLen, utf8);
      FramesOfLine(lines[0], more, ending, maxLen, utf8);
      assert Written(lines) + rest == lines[0] + [NEWLINE] + more;
      assert AsOutcomes(lines) == [Line(lines[0])] + AsOutcomes(lines[1..]);
    }
  }

  /** Whatever the schedule, written lines are read back exactly, then the end is reported. */
  lemma WrittenLinesAreRead(lines: seq<Bytes>, events: seq<ReadEvent>, maxLen: nat, utf8: Utf8)
    requires forall i :: 0 <= i < |lines| ==> NoNewline(lines[i]) && |lines[i]| <= maxLen && utf8(lines[i])
    requires Received(events) == Written(lines) && EndingOf(events) == AtEof
    ensures Run([], events, maxLen, utf8) == AsOutcomes(lines) + [EndOfStream]
  {
    hide Run, Received, AsOutcomes;
    FramingIndependent([], events, maxLen, utf8);
    FramesOfWritten(lines, [], AtEof, maxLen, utf8);
    assert [] + Received(events) == Written(lines) + [];
  }

  // ----- limits -----

  /** The current frame: up to the first newline, or everything that arrives. */
  function CurrentFrame(total: Bytes): Bytes {
    if NewlineAt(total) >= 0 then total[..NewlineAt(total)] else total
  }

  lemma FirstFrame(total: Bytes, ending: Ending, maxLen: nat, utf8: Utf8)
    ensures var fs, pos := Frames(total, ending, maxLen, utf8), NewlineAt(total);
            && (pos >= 0 ==> fs != [] && fs[0] == FrameOutcome(total[..pos], maxLen, utf8))
            && (pos < 0 && |total| > maxLen ==> fs == [TooLong])
            && (pos < 0 && |total| <= maxLen ==> TooLong !in fs)
  {
    hide NewlineAt, FrameOutcome;
  }

  lemma LastOutcome(total: Bytes, ending: Ending, o: Outcome, maxLen: nat, utf8: Utf8)
    requires !o.Line? && Frames(total, ending, maxLen, utf8) == [o]
    ensures o == TooLong <==> |CurrentFrame(total)| > maxLen
  {
    hide NewlineAt, Frames;
    FirstFrame(total, ending, maxLen, utf8);
    assert Frames(total, ending, maxLen, utf8)[0] == o;
  }

  /** A call that ends with a result reports the frame as too long iff it is. */
  lemma TooLongExact(buf: Bytes, events: seq<ReadEvent>, maxLen: nat, utf8: Utf8)
    ensures var o := ReadCall(buf, events, maxLen, utf8).0;
            o != Cancelled ==> (o == TooLong <==> |CurrentFrame(buf + Received(events))| > maxLen)
  {
    hide NewlineAt, ReadCall, Frames, Received;
    var (o, buf', events') := ReadCall(buf, events, maxLen, utf8);
    CallIsFaithful(buf, events, maxLen, utf8);
    match o
    case Cancelled =>
    case Line(line) => NewlineOfLine(line, buf' + Received(events'));
    case _ => LastOutcome(buf + Received(events), EndingOf(events), o, maxLen, utf8);
  }

  // ----- every outcome of a call, over the stream without its pieces -----

  /** What the front of the stream means, by the first newline, the limit and the ending. */
  ghost predicate Means(o: Outcome, total: Bytes, ending: Ending, maxLen: nat, utf8: Utf8) {
    var pos := NewlineAt(total);
    match o
    case Line(line) => pos >= 0 && line == total[..pos] && |line| <= maxLen && utf8(line)
    case NotUtf8 => 0 <= pos <= maxLen && !utf8(total[..pos])
    case TooLong => pos > maxLen || (pos < 0 && |total| > maxLen)
    case EndOfStream => total == [] && ending == AtEof
    case ClosedMidFrame => pos < 0 && 0 < |total| <= maxLen && ending == AtEof
    case ReadFailed => pos < 0 && |total| <= maxLen && ending == AtFailure
    case Cancelled => false
  }

  /** Every stream has at most one meaning. */
  lemma MeansOnce(o: Outcome, o': Outcome, total: Bytes, ending: Ending, maxLen: nat, utf8: Utf8)
    requires Means(o, total, ending, maxLen, utf8) && Means(o', total, ending, maxLen, utf8)
    ensures o == o'
  {
    hide NewlineAt;
    EmptyHasNoLine();
  }

  lemma EmptyHasNoLine()
    ensures NewlineAt([]) == -1
  {
  }

  lemma {:induction false} CallMeans(buf: Bytes, events: seq<ReadEvent>, maxLen: nat, utf8: Utf8)
    ensures var o := ReadCall(buf, events, maxLen, utf8).0;
            o != Cancelled ==> Means(o, buf + Received(events), EndingOf(events), maxLen, utf8)
    decreases |events|
  {
    hide NewlineAt;
    var total := buf + Received(events);
    NewlineInPrefix(buf, Received(events));
    if NewlineAt(buf) >= 0 {
      assert total[..NewlineAt(buf)] == buf[..NewlineAt(buf)];
    } else if |buf| <= maxLen && events != [] {
      match events[0]
      case Data(bytes) =>
        assert total == (buf + bytes) + Received(events[1..]);
        CallMeans(buf + bytes, events[1..], maxLen, utf8);
      case Eof => assert total == buf;
      case Failed => assert total == buf;
      case Dropped =>
    }
  }

  /** A call that ends with a result reports o iff the stream means o: each outcome exactly. */
  lemma OutcomeExact(buf: Bytes, events: seq<ReadEvent>, o: Outcome, maxLen: nat, utf8: Utf8)
    requires ReadCall(buf, events, maxLen, utf8).0 != Cancelled
    ensures ReadCall(buf, events, maxLen, utf8).0 == o <==>
            Means(o, buf + Received(events), EndingOf(events), maxLen, utf8)
  {
    hide ReadCall, Means;
    var r := ReadCall(buf, events, maxLen, utf8).0;
    CallMeans(buf, events, maxLen, utf8);
    if Means(o, buf + Received(events), EndingOf(events), maxLen, utf8) {
      MeansOnce(o, r, buf + Received(events), EndingOf(events), maxLen, utf8);
    }
  }

  /** The bytes read before the first event that is not data, and the events from there on. */
  function Leading(events: seq<ReadEvent>): (Bytes, seq<ReadEvent>) {
    if events != [] && events[0].Data? then
      var (bytes, rest) := Leading(events[1..]);
      (events[0].bytes + bytes, rest)
    else ([], events)
  }

  /** A call has no result iff nothing it reads completes or overflows a frame, and then it is
      dropped or left waiting. */
  lemma {:induction false} CancelledExact(buf: Bytes, events: seq<ReadEvent>, maxLen: nat, utf8: Utf8)
    ensures var (bytes, rest) := Leading(events);
            ReadCall(buf, events, maxLen, utf8).0 == Cancelled <==>
            NoNewline(buf + bytes) && |buf + bytes| <= maxLen && (rest == [] || rest[0] == Dropped)
    decreases |events|
  {
    hide NewlineAt;
    var bytes := Leading(events).0;
    if NewlineAt(buf) >= 0 {
      assert (buf + bytes)[NewlineAt(buf)] == NEWLINE;
    } else if |buf| <= maxLen && events != [] && events[0].Data? {
      assert buf + bytes == (buf + events[0].bytes) + Leading(events[1..]).0;
      CancelledExact(buf + events[0].bytes, events[1..], maxLen, utf8);
    } else {
      assert |buf| <= maxLen ==> buf + bytes == buf;
    }
  }

  /** What a call leaves: a bad line is taken off the stream like a good one, a frame that is
      too long may be taken off or stay, and at the end everything unread stays in the buffer. */
  lemma {:induction false} LeftAfterCall(buf: Bytes, events: seq<ReadEvent>, maxLen: nat, utf8: Utf8)
    ensures var (o, buf', events') := ReadCall(buf, events, maxLen, utf8);
            var total, total' := buf + Received(events), buf' + Received(events');
            && (o == NotUtf8 ==> total == CurrentFrame(total) + [NEWLINE] + total' && EndingOf(events') == EndingOf(events))
            && (o == TooLong ==>
                  (total' == total || total == CurrentFrame(total) + [NEWLINE] + total') &&
                  EndingOf(events') == EndingOf(events))
            && (o in {EndOfStream, ClosedMidFrame, ReadFailed} ==> buf' == total)
    decreases |events|
  {
    hide NewlineAt;
    var total := buf + Received(events);
    NewlineInPrefix(buf, Received(events));
    if NewlineAt(buf) >= 0 {
      var pos := NewlineAt(buf);
      assert total[..pos] == buf[..pos];
      assert total == buf[..pos] + [NEWLINE] + (buf[pos + 1..] + Received(events));
    } else if |buf| <= maxLen && events != [] {
      match events[0]
      case Data(bytes) =>
        assert total == (buf + bytes) + Received(events[1..]);
        LeftAfterCall(buf + bytes, events[1..], maxLen, utf8);
      case Eof => assert total == buf;
      case Failed => assert total == buf;
      case Dropped =>
    }
  }

  /** The buffer never grows past the limit by more than one chunk. */
  lemma {:induction false} BufferBounded(buf: Bytes, events: seq<ReadEvent>, maxLen: nat, utf8: Utf8)
    requires |buf| <= maxLen + CHUNK
    ensures |ReadCall(buf, events, maxLen, utf8).1| <= maxLen + CHUNK
    decreases |events|
  {
    hide NewlineAt;
    if NewlineAt(buf) < 0 && |buf| <= maxLen && events != [] && events[0].Data? {
      BufferBounded(buf + events[0].bytes, events[1..], maxLen, utf8);
    }
  }
}
