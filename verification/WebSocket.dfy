/** The WebSocket channel: frames are read one after the other, fragments are put together, control frames are answered. */
module WebSocket {
  import opened Wrappers
  import opened Octets
  import opened Text
  import opened Utf8
  import opened ReadBuffer
  import opened WebSocketFrames

  datatype Kind = TextMessage | BinaryMessage | Ping | Pong

  datatype Message = Message(kind: Kind, data: Bytes)

  /** The fragmented message in progress. */
  datatype Assembly = Idle | Gathering(text: bool, data: Bytes)

  datatype Failure =
    | BadFrame(fault: Fault)
    | BadClose
    | Closed(code: nat, payload: Bytes)
    | UnexpectedContinuation
    | TooLarge
    | BadText
    | BadOpcode
    | Interrupted
    | TransportClosed

  predicate ValidCloseCode(code: nat) {
    1000 <= code < 5000 && code != 1004 && code != 1005 && code != 1006 && code != 1015 && (code <= 1014 || code >= 3000)
  }

  // ---- what a frame means

  datatype Taken = Deliver(message: Message, assembly: Assembly) | Hold(assembly: Assembly) | Fail(failure: Failure, assembly: Assembly)

  ghost predicate Readable(text: bool, data: Bytes) {
    text ==> WellFormed(data)
  }

  function CloseCode(payload: Bytes): nat {
    if |payload| < 2 then 1000 else payload[0] as int * 256 + payload[1] as int
  }

  ghost function TakeClose(assembly: Assembly, payload: Bytes): Taken {
    if |payload| == 1 then Fail(BadClose, assembly)
    else if |payload| >= 2 && (!ValidCloseCode(CloseCode(payload)) || !WellFormed(payload[2..])) then Fail(BadClose, assembly)
    else Fail(Closed(CloseCode(payload), payload), assembly)
  }

  ghost function Complete(text: bool, data: Bytes): Taken {
    if Readable(text, data) then Deliver(Message(if text then TextMessage else BinaryMessage, data), Idle) else Fail(BadText, Idle)
  }

  ghost function Take(assembly: Assembly, frame: Frame): Taken {
    if frame.opcode == 8 then TakeClose(assembly, frame.payload)
    else if frame.opcode == 9 then Deliver(Message(Ping, frame.payload), assembly)
    else if frame.opcode == 10 then Deliver(Message(Pong, frame.payload), assembly)
    else if frame.opcode == 0 then
      if assembly.Idle? then Fail(UnexpectedContinuation, assembly)
      else if |assembly.data| + |frame.payload| > LIMIT then Fail(TooLarge, assembly)
      else if frame.final then Complete(assembly.text, assembly.data + frame.payload)
      else Hold(Gathering(assembly.text, assembly.data + frame.payload))
    else if frame.opcode != 1 && frame.opcode != 2 then Fail(BadOpcode, assembly)
    else if assembly.Gathering? then Fail(Interrupted, assembly)
    else if frame.final then Complete(frame.opcode == 1, frame.payload)
    else Hold(Gathering(frame.opcode == 1, frame.payload))
  }

  datatype Step = Got(message: Message, assembly: Assembly, rest: Bytes) | Stopped(failure: Failure)

  /** The next message in the stream. */
  ghost function Next(assembly: Assembly, s: Bytes, clientSide: bool): Step
    decreases |s|
  {
    match ParseFrame(s, clientSide)
    case Incomplete => Stopped(TransportClosed)
    case Faulty(fault) => Stopped(BadFrame(fault))
    case Parsed(frame, _, rest) =>
      ParsedIsShorter(s, clientSide);
      match Take(assembly, frame)
      case Deliver(message, after) => Got(message, after, rest)
      case Hold(after) => Next(after, rest, clientSide)
      case Fail(failure, _) => Stopped(failure)
  }

  lemma ParsedIsShorter(s: Bytes, clientSide: bool)
    ensures ParseFrame(s, clientSide).Parsed? ==> |ParseFrame(s, clientSide).rest| < |s|
  {
    hide Masked, NumberOf;
  }

  /** What follows a frame: its message, or the next message behind it. */
  ghost function AfterFrame(assembly: Assembly, frame: Frame, rest: Bytes, clientSide: bool): Step {
    match Take(assembly, frame)
    case Deliver(message, after) => Got(message, after, rest)
    case Hold(after) => Next(after, rest, clientSide)
    case Fail(failure, _) => Stopped(failure)
  }

  ghost function AfterParse(assembly: Assembly, parse: Parse, clientSide: bool): Step {
    match parse
    case Incomplete => Stopped(TransportClosed)
    case Faulty(fault) => Stopped(BadFrame(fault))
    case Parsed(frame, _, rest) => AfterFrame(assembly, frame, rest, clientSide)
  }

  /** The next message, by the frame at the start of the stream. */
  lemma NextStep(assembly: Assembly, s: Bytes, clientSide: bool)
    ensures Next(assembly, s, clientSide) == AfterParse(assembly, ParseFrame(s, clientSide), clientSide)
    ensures ParseFrame(s, clientSide).Parsed? ==> |ParseFrame(s, clientSide).rest| < |s|
  {
    ParsedIsShorter(s, clientSide);
    hide ParseFrame, Take;
  }

  predicate WithinLimit(assembly: Assembly) {
    assembly.Gathering? ==> |assembly.data| <= LIMIT
  }

  /** The accumulator never grows beyond the limit. */
  lemma TakeKeepsLimit(assembly: Assembly, frame: Frame)
    requires WithinLimit(assembly) && |frame.payload| <= LIMIT
    ensures WithinLimit(Take(assembly, frame).assembly)
    ensures Take(assembly, frame).Deliver? ==> |Take(assembly, frame).message.data| <= LIMIT
  {}

  // ---- the channel

  function Concat(blocks: seq<Bytes>): Bytes {
    if blocks == [] then [] else blocks[0] + Concat(blocks[1..])
  }

  function BytesOf(text: string): Bytes
    requires forall i :: 0 <= i < |text| ==> text[i] < 128 as char
  {
    seq(|text|, i requires 0 <= i < |text| => text[i] as int)
  }

  const DIRECTION := "Invalid masking direction"
  const RESERVED := "RSV bits are not supported"
  const INVALID_CLOSE := "Invalid close payload"

  function ClosePayload(code: nat, reason: Bytes): Bytes
    requires code < 65536
  {
    [code / 256, code % 256] + reason
  }

  class Channel {
    const buffer: Buffer<Byte>
    const clientSide: bool
    var blocks: seq<Bytes>
    var fragmented: Bytes
    var fragmentedText: bool
    var fragmentedActive: bool
    var open: bool
    var connected: bool
    /** everything written to the connection */
    var written: Bytes

    ghost function State(): Assembly
      reads this
    {
      if fragmentedActive then Gathering(fragmentedText, fragmented) else Idle
    }

    ghost predicate Valid()
      reads this, buffer
    {
      buffer.Valid() && WithinLimit(State())
    }

    ghost function Pending(): Bytes
      requires buffer.Valid()
      reads this, buffer
    {
      buffer.View() + Concat(blocks)
    }

    constructor (arriving: seq<Bytes>, client: bool)
      ensures Valid() && Pending() == Concat(arriving) && State() == Idle && clientSide == client
      ensures open && connected && written == [] && fresh(buffer)
    {
      buffer := new Buffer();
      clientSide := client;
      blocks, fragmented, fragmentedText, fragmentedActive := arriving, [], false, false;
      open, connected, written := true, true, [];
    }

    /** Waits until `count` bytes are in the buffer. */
    method Need(count: nat, spare: nat) returns (ok: bool)
      requires buffer.Valid()
      modifies this`blocks, this`open, buffer
      ensures buffer.Valid() && Pending() == old(Pending())
      ensures ok <==> count <= |old(Pending())|
      ensures ok ==> count <= |buffer.View()| && open == old(open)
      ensures !ok ==> !open
    {
      while buffer.Size() < count
        invariant buffer.Valid() && Pending() == old(Pending()) && open == old(open)
        decreases |blocks|
      {
        if blocks == [] {
          assert Pending() == buffer.View();
          open := false;
          return false;
        }
        var block := blocks[0];
        Regroup(buffer.View(), block, Concat(blocks[1..]));
        blocks := blocks[1..];
        buffer.AppendView(block, spare);
      }
      ok := true;
    }

    /** The length of the frame at the start of the buffer; nothing is consumed yet. */
    method ReadLength(spare: nat) returns (r: LengthParse)
      requires buffer.Valid() && |buffer.View()| >= 2
      modifies this`blocks, this`open, buffer
      ensures buffer.Valid() && Pending() == old(Pending())
      ensures r == ParseLength(old(Pending()))
      ensures r == Short ==> !open
      ensures r != Short ==> open == old(open)
      ensures r.LengthIs? ==> r.cursor <= |buffer.View()|
    {
      hide NumberOf;
      ghost var pending := Pending();
      var code := buffer.View()[1] % 128;
      assert pending[1] == buffer.View()[1];
      if code == 126 {
        var ok := Need(4, spare);
        if !ok { return Short; }
        var view := buffer.View();
        assert view[2..4] == pending[2..4];
        NumberOfTwo(view[2..4]);
        var length := view[2] as int * 256 + view[3] as int;
        if length < 126 { return Refused(NotMinimal); }
        return LengthIs(length, 4);
      }
      if code == 127 {
        var ok := Need(10, spare);
        if !ok { return Short; }
        var view := buffer.View();
        assert view[2..10] == pending[2..10] && view[2] == pending[2];
        if view[2] >= 128 { return Refused(LengthRange); }
        var length := LongLength(view);
        if length <= 65535 { return Refused(NotMinimal); }
        return LengthIs(length, 10);
      }
      r := LengthIs(code, 2);
    }

    /** The mask and the payload behind the length; the whole frame is consumed. */
    method ReadPayload(cursor: nat, masked: bool, length: nat, spare: nat) returns (payload: Option<Bytes>)
      requires buffer.Valid() && cursor <= |buffer.View()|
      modifies this`blocks, this`open, buffer
      ensures buffer.Valid()
      ensures var start := cursor + if masked then 4 else 0; var pending := old(Pending());
              && (payload.None? <==> |pending| < start + length)
              && (payload.None? ==> !open)
              && (payload.Some? ==> open == old(open) && Pending() == pending[start + length..])
              && (payload.Some? ==>
                    payload.value == Wire(pending[start..start + length], if masked then Some(pending[cursor..cursor + 4]) else None))
    {
      hide Masked, Concat;
      ghost var pending := Pending();
      var start := cursor;
      var mask: Mask := [0, 0, 0, 0];
      if masked {
        var ok := Need(cursor + 4, spare);
        if !ok { return None; }
        mask := buffer.View()[cursor..cursor + 4];
        assert mask == pending[cursor..cursor + 4];
        start := cursor + 4;
      }
      var ok := Need(start + length, spare);
      if !ok { return None; }
      var view := buffer.View();
      var raw := view[start..start + length];
      assert raw == pending[start..start + length];
      buffer.Consume(start + length);
      assert Pending() == pending[start + length..];
      if masked { raw := ApplyMask(raw, mask); }
      payload := Some(raw);
    }

    /** The next frame, or what is wrong with it. */
    method ReadFrame(spare: nat) returns (frame: Option<Frame>, fault: Option<Fault>)
      requires buffer.Valid()
      modifies this`blocks, this`open, buffer
      ensures buffer.Valid()
      ensures match ParseFrame(old(Pending()), clientSide)
              case Incomplete => frame == None && fault == None && !open
              case Faulty(found) => frame == None && fault == Some(found) && open == old(open)
              case Parsed(found, _, rest) => frame == Some(found) && fault == None && Pending() == rest && open == old(open)
    {
      hide ParseLength, Wire, Concat;
      ghost var pending := Pending();
      frame, fault := None, None;
      var ok := Need(2, spare);
      if !ok { return; }
      var first, second := buffer.View()[0], buffer.View()[1];
      assert first == pending[0] && second == pending[1];
      if first / 16 % 8 != 0 { return None, Some(ReservedBits); }
      var masked := second >= 128;
      if masked == clientSide { return None, Some(MaskDirection); }
      var parsed := ReadLength(spare);
      if parsed.Short? { return; }
      if parsed.Refused? { return None, Some(parsed.fault); }
      var control := Control(first % 16);
      if (control && (first < 128 || parsed.length > 125)) || parsed.length > LIMIT { return None, Some(LengthRange); }
      var payload := ReadPayload(parsed.cursor, masked, parsed.length, spare);
      if payload.None? { return; }
      frame := Some(Frame(first >= 128, first % 16, payload.value));
    }

    /** The handling of a close frame. */
    method TakeCloseFrame(payload: Bytes, mask: Mask) returns (failure: Failure)
      requires |payload| <= 125
      modifies this`open, this`connected, this`written
      ensures Fail(failure, State()) == TakeClose(State(), payload)
      ensures failure.BadClose? ==> written == old(written) && open == old(open) && connected == old(connected)
      ensures failure.Closed? ==> !open && !connected
      ensures failure.Closed? ==>
                written == old(written) + if old(open) then Answer(old(connected), clientSide, 8, payload, mask) else []
    {
      hide WellFormed, Answer;
      var code := 1000;
      if |payload| == 1 { return BadClose; }
      if |payload| >= 2 {
        code := payload[0] as int * 256 + payload[1] as int;
        var valid := Utf8.Valid(payload[2..]);
        if !ValidCloseCode(code) || !valid { return BadClose; }
      }
      if open {
        open := false;
        var _ := SendFrame(8, payload, mask);
      }
      connected := false;
      failure := Closed(code, payload);
    }

    /** The handling of a data frame. */
    method TakeDataFrame(frame: Frame) returns (message: Option<Message>, failure: Option<Failure>)
      requires buffer.Valid() && WithinLimit(State()) && |frame.payload| <= LIMIT
      requires frame.opcode < 8 || frame.opcode > 10
      modifies this`fragmented, this`fragmentedText, this`fragmentedActive
      ensures WithinLimit(State())
      ensures match Take(old(State()), frame)
              case Deliver(m, after) => message == Some(m) && failure == None && State() == after
              case Hold(after) => message == None && failure == None && State() == after
              case Fail(f, after) => message == None && failure == Some(f) && State() == after
    {
      hide WellFormed;
      message, failure := None, None;
      if frame.opcode == 0 {
        if !fragmentedActive { return None, Some(UnexpectedContinuation); }
        if |frame.payload| > LIMIT - |fragmented| { return None, Some(TooLarge); }
        fragmented := fragmented + frame.payload;
        if frame.final {
          fragmentedActive := false;
          if fragmentedText {
            var valid := Utf8.Valid(fragmented);
            if !valid { return None, Some(BadText); }
          }
          message := Some(Message(if fragmentedText then TextMessage else BinaryMessage, fragmented));
          fragmented := [];
        }
        return;
      }
      if frame.opcode != 1 && frame.opcode != 2 { return None, Some(BadOpcode); }
      if fragmentedActive { return None, Some(Interrupted); }
      var text := frame.opcode == 1;
      if frame.final {
        if text {
          var valid := Utf8.Valid(frame.payload);
          if !valid { return None, Some(BadText); }
        }
        return Some(Message(if text then TextMessage else BinaryMessage, frame.payload)), None;
      }
      fragmentedActive, fragmentedText, fragmented := true, text, frame.payload;
    }

    /** What `read` does with a complete frame. */
    method TakeFrame(frame: Frame, mask: Mask) returns (message: Option<Message>, failure: Option<Failure>)
      requires buffer.Valid() && WithinLimit(State()) && Wellformed(frame)
      modifies this`fragmented, this`fragmentedText, this`fragmentedActive, this`open, this`connected, this`written
      ensures WithinLimit(State())
      ensures match Take(old(State()), frame)
              case Deliver(m, after) => message == Some(m) && failure == None && State() == after && Answered(m, old(open), old(connected), old(written), mask)
              case Hold(after) => message == None && failure == None && State() == after && Untouched(old(open), old(connected), old(written))
              case Fail(f, _) => message == None && failure == Some(f) && After(f, old(open), old(connected), old(written), mask)
    {
      hide Answer, WellFormed, WithinLimit;
      ghost var before := State();
      var opcode, payload := frame.opcode, frame.payload;
      if opcode == 8 {
        var closed := TakeCloseFrame(payload, mask);
        return None, Some(closed);
      }
      if opcode == 9 {
        var _ := SendFrame(10, payload, mask);
        return Some(Message(Ping, payload)), None;
      }
      if opcode == 10 { return Some(Message(Pong, payload)), None; }
      message, failure := TakeDataFrame(frame);
      OnlyDataFailures(before, frame);
    }

    /** `read`: `mask` is used for the answer that a read may send. */
    method Read(mask: Mask, spare: nat) returns (message: Option<Message>, failure: Option<Failure>)
      requires Valid()
      modifies this, buffer
      ensures Valid()
      ensures match Next(old(State()), old(Pending()), clientSide)
              case Got(m, after, rest) =>
                && message == Some(m) && failure == None && State() == after && Pending() == rest
                && Answered(m, old(open), old(connected), old(written), mask)
              case Stopped(f) => message == None && failure == Some(f) && After(f, old(open), old(connected), old(written), mask)
    {
      hide Answer, ParseFrame, FrameBytes, Wellformed, Take, Refusal, WithinLimit, ParseLength, Concat, Next;
      ghost var goal := Next(State(), Pending(), clientSide);
      while true
        invariant Valid() && Next(State(), Pending(), clientSide) == goal
        invariant Untouched(old(open), old(connected), old(written))
        decreases |Pending()|
      {
        NextStep(State(), Pending(), clientSide);
        AcceptedIsWellformed(Pending(), clientSide);
        var frame, fault := ReadFrame(spare);
        if fault.Some? {
          RefuseFrame(fault.value, mask);
          return None, Some(BadFrame(fault.value));
        }
        if frame.None? { return None, Some(TransportClosed); }
        message, failure := TakeFrame(frame.value, mask);
        if message.Some? || failure.Some? { return; }
      }
    }

    predicate Untouched(wasOpen: bool, wasConnected: bool, before: Bytes)
      reads this
    {
      open == wasOpen && connected == wasConnected && written == before
    }

    /** A delivered ping has been answered by a pong with the same data; nothing else is written. */
    ghost predicate Answered(message: Message, wasOpen: bool, wasConnected: bool, before: Bytes, mask: Mask)
      reads this
    {
      && open == wasOpen && connected == wasConnected
      && (message.kind == Ping ==> |message.data| <= 125 && written == before + Answer(connected, clientSide, 10, message.data, mask))
      && (message.kind != Ping ==> written == before)
    }

    /** What the channel has done to the connection when a read fails. */
    ghost predicate After(failure: Failure, wasOpen: bool, wasConnected: bool, before: Bytes, mask: Mask)
      reads this
    {
      match failure
      case BadFrame(ReservedBits) => Refusal(RESERVED, wasOpen, wasConnected, before, mask)
      case BadFrame(MaskDirection) => Refusal(DIRECTION, wasOpen, wasConnected, before, mask)
      case Closed(_, payload) =>
        && !open && !connected && |payload| <= 125
        && written == before + if wasOpen then Answer(wasConnected, clientSide, 8, payload, mask) else []
      case TransportClosed => !open && connected == wasConnected && written == before
      case _ => open == wasOpen && connected == wasConnected && written == before
    }

    ghost predicate Refusal(reason: string, wasOpen: bool, wasConnected: bool, before: Bytes, mask: Mask)
      requires |reason| <= 123 && forall i :: 0 <= i < |reason| ==> reason[i] < 128 as char
      reads this
    {
      && !open && (!wasOpen ==> connected == wasConnected && written == before)
      && (wasOpen ==> !connected && written == before + Answer(wasConnected, clientSide, 8, ClosePayload(1002, BytesOf(reason)), mask))
    }

    /** Only reserved bits and a wrong mask are answered by a close frame. */
    method RefuseFrame(fault: Fault, mask: Mask)
      modifies this`open, this`connected, this`written
      ensures After(BadFrame(fault), old(open), old(connected), old(written), mask)
    {
      hide Refusal;
      if fault == ReservedBits { CloseForFault(RESERVED, mask); }
      if fault == MaskDirection { CloseForFault(DIRECTION, mask); }
    }

    method CloseForFault(reason: string, mask: Mask)
      requires |reason| <= 123 && forall i :: 0 <= i < |reason| ==> reason[i] < 128 as char
      modifies this`open, this`connected, this`written
      ensures Refusal(reason, old(open), old(connected), old(written), mask)
    {
      hide Answer;
      AsciiIsWellFormed(BytesOf(reason));
      Close(1002, BytesOf(reason), mask);
      WholePrefix(BytesOf(reason), 123);
      hide LongestPrefix;
    }

    /** `send_frame` */
    method SendFrame(opcode: nat, payload: Bytes, mask: Mask) returns (ok: bool)
      requires Wellformed(Frame(true, opcode, payload))
      modifies this`written
      ensures ok == connected
      ensures written == old(written) + Answer(connected, clientSide, opcode, payload, mask)
    {
      if !connected { return false; }
      var frame := [0x80 + opcode];
      var bit := if clientSide then 0x80 else 0;
      if |payload| <= 125 {
        frame := frame + [bit + |payload|];
      } else if |payload| <= 65535 {
        TwoBytesOf(|payload|);
        frame := frame + [bit + 126] + [|payload| / 256 % 256] + [|payload| % 256];
      } else {
        PowerFacts();
        var length := LengthBytes(|payload|);
        frame := frame + [bit + 127] + length;
      }
      var wire := payload;
      if clientSide {
        frame := frame + mask;
        wire := ApplyMask(payload, mask);
      }
      hide Masked, BigEndian, Pow256;
      assert frame + wire == Answer(connected, clientSide, opcode, payload, mask);
      written := written + (frame + wire);
      ok := true;
    }

    /** `send` */
    method Send(data: Bytes, binary: bool, mask: Mask) returns (ok: bool)
      modifies this`written
      ensures ok <==> open && connected && |data| <= LIMIT && Readable(!binary, data)
      ensures written == old(written) +
              if open && |data| <= LIMIT && Readable(!binary, data) then Answer(connected, clientSide, if binary then 2 else 1, data, mask) else []
    {
      hide WellFormed, Answer;
      if !open { return false; }
      if |data| > LIMIT { return false; }
      if !binary {
        var valid := Utf8.Valid(data);
        if !valid { return false; }
      }
      ok := SendFrame(if binary then 2 else 1, data, mask);
    }

    /** `close`: the reason is cut to the longest valid prefix that fits into the frame. */
    method Close(code: nat, reason: Bytes, mask: Mask)
      requires code < 65536
      modifies this`open, this`connected, this`written
      ensures !open
      ensures !old(open) ==> connected == old(connected) && written == old(written)
      ensures old(open) ==> !connected
      ensures old(open) && (!ValidCloseCode(code) || !WellFormed(reason)) ==>
                written == old(written) + Answer(old(connected), clientSide, 8, ClosePayload(1002, BytesOf(INVALID_CLOSE)), mask)
      ensures old(open) && ValidCloseCode(code) && WellFormed(reason) ==>
                exists cut :: LongestPrefix(cut, reason, 123) && (|reason| > 123 ==> |cut| >= 120)
                              && written == old(written) + Answer(old(connected), clientSide, 8, ClosePayload(code, cut), mask)
    {
      hide WellFormed, Answer;
      if !open { return; }
      open := false;
      var actual, text := code, reason;
      var valid := Utf8.Valid(reason);
      if !ValidCloseCode(code) || !valid {
        actual, text := 1002, BytesOf(INVALID_CLOSE);
        AsciiIsWellFormed(text);
      }
      var cut := Truncate(text, 123);
      var _ := SendFrame(8, ClosePayload(actual, cut), mask);
      connected := false;
    }
  }

  /** The bytes that sending a frame adds to the connection. */
  function Answer(connected: bool, clientSide: bool, opcode: nat, payload: Bytes, mask: Mask): Bytes
    requires Wellformed(Frame(true, opcode, payload))
  {
    if !connected then [] else FrameBytes(Frame(true, opcode, payload), if clientSide then Some(mask) else None)
  }

  /** The loop that puts a 64-bit length together. */
  method LongLength(view: Bytes) returns (length: nat)
    requires |view| >= 10
    ensures length == NumberOf(view[2..10])
  {
    hide NumberOf;
    length := 0;
    NumberOfNone();
    assert view[2..2 + 0] == [];
    for index := 0 to 8
      invariant length == NumberOf(view[2..2 + index])
    {
      NumberOfSnoc(view, index);
      length := length * 256 + view[2 + index] as int;
    }
  }

  lemma OnlyDataFailures(assembly: Assembly, frame: Frame)
    requires frame.opcode < 8 || frame.opcode > 10
    ensures match Take(assembly, frame)
            case Deliver(m, _) => m.kind == TextMessage || m.kind == BinaryMessage
            case Hold(_) => true
            case Fail(f, _) => f == UnexpectedContinuation || f == TooLarge || f == BadText || f == BadOpcode || f == Interrupted
  {
    hide WellFormed;
  }

  lemma WholePrefix(s: Bytes, limit: nat)
    requires |s| <= limit && WellFormed(s)
    ensures forall cut :: LongestPrefix(cut, s, limit) ==> cut == s
  {
    assert s[..|s|] == s;
  }

  lemma NumberOfNone()
    ensures NumberOf([]) == 0
  {}

  lemma NumberOfSnoc(view: Bytes, index: nat)
    requires 2 + index < |view|
    ensures NumberOf(view[2..2 + index + 1]) == NumberOf(view[2..2 + index]) * 256 + view[2 + index] as int
  {
    var s := view[2..2 + index + 1];
    assert s[..|s| - 1] == view[2..2 + index];
  }

  lemma AcceptedIsWellformed(s: Bytes, clientSide: bool)
    ensures ParseFrame(s, clientSide).Parsed? ==> Wellformed(ParseFrame(s, clientSide).frame)
  {
    hide ParseFrame, FrameBytes, Wellformed;
    if ParseFrame(s, clientSide).Parsed? { ParsedIsPrinted(s, clientSide); }
  }

  lemma TwoBytesOf(n: nat)
    requires n <= 65535
    ensures n / 256 < 256 && BigEndian(n, 2) == [n / 256 % 256] + [n % 256]
  {
    assert BigEndian(n / 256, 1) == BigEndian(n / 256 / 256, 0) + [n / 256 % 256];
  }

  lemma {:induction false} AsciiIsWellFormed(s: Bytes)
    requires forall i :: 0 <= i < |s| ==> s[i] < 0x80
    ensures WellFormed(s)
  {
    var codes: seq<nat> := s;
    assert AllScalars(codes);
    AsciiIsItself(s, codes);
  }

  lemma {:induction false} AsciiIsItself(s: Bytes, codes: seq<nat>)
    requires (forall i :: 0 <= i < |s| ==> s[i] < 0x80) && codes == s && AllScalars(codes)
    ensures EncodeAll(codes) == s
    decreases |s|
  {
    if s != [] {
      AsciiIsItself(s[1..], codes[1..]);
      assert s == [s[0]] + s[1..];
    }
  }

  // ---- reading what was sent

  /** Reading one message after the other yields exactly `messages` and leaves `rest`. */
  ghost predicate Reads(assembly: Assembly, s: Bytes, clientSide: bool, messages: seq<Message>, after: Assembly, rest: Bytes)
    decreases |messages|
  {
    if messages == [] then assembly == after && s == rest
    else
      match Next(assembly, s, clientSide)
      case Got(message, assembly', s') => message == messages[0] && Reads(assembly', s', clientSide, messages[1..], after, rest)
      case Stopped(_) => false
  }

  lemma {:induction false} ReadsAppend(a: Assembly, s: Bytes, clientSide: bool, first: seq<Message>, b: Assembly, t: Bytes,
                                       second: seq<Message>, c: Assembly, rest: Bytes)
    requires Reads(a, s, clientSide, first, b, t) && Reads(b, t, clientSide, second, c, rest)
    ensures Reads(a, s, clientSide, first + second, c, rest)
    decreases |first|
  {
    hide Next;
    if first == [] {
      assert first + second == second;
    } else {
      var step := Next(a, s, clientSide);
      assert (first + second)[1..] == first[1..] + second;
      ReadsAppend(step.assembly, step.rest, clientSide, first[1..], b, t, second, c, rest);
    }
  }

  /** What the peer of a channel sends: it masks exactly when this side is the server. */
  function Peer(clientSide: bool, mask: Mask): Option<Mask> {
    if clientSide then None else Some(mask)
  }

  /** A part of a fragmented message, or a control frame between two parts. */
  datatype Part = Piece(data: Bytes, mask: Mask) | Interleaved(ping: bool, data: Bytes, mask: Mask)

  datatype Item =
    | Single(text: bool, data: Bytes, mask: Mask)
    | Fragmented(text: bool, first: Bytes, mask: Mask, parts: seq<Part>, last: Bytes, lastMask: Mask)
    | ControlItem(ping: bool, data: Bytes, mask: Mask)

  function ControlFrame(ping: bool, data: Bytes): Frame {
    Frame(true, if ping then 9 else 10, data)
  }

  function ControlMessage(ping: bool, data: Bytes): Message {
    Message(if ping then Ping else Pong, data)
  }

  function DataMessage(text: bool, data: Bytes): Message {
    Message(if text then TextMessage else BinaryMessage, data)
  }

  function PartFrame(part: Part): Frame {
    match part
    case Piece(data, _) => Frame(false, 0, data)
    case Interleaved(ping, data, _) => ControlFrame(ping, data)
  }

  predicate SendableParts(parts: seq<Part>) {
    forall i :: 0 <= i < |parts| ==> Wellformed(PartFrame(parts[i]))
  }

  function PartBytes(parts: seq<Part>, clientSide: bool): Bytes
    requires SendableParts(parts)
  {
    if parts == [] then []
    else FrameBytes(PartFrame(parts[0]), Peer(clientSide, parts[0].mask)) + PartBytes(parts[1..], clientSide)
  }

  /** The data that the pieces add, and the control messages between them. */
  function Pieces(parts: seq<Part>): Bytes {
    if parts == [] then []
    else (if parts[0].Piece? then parts[0].data else []) + Pieces(parts[1..])
  }

  function Controls(parts: seq<Part>): seq<Message> {
    if parts == [] then []
    else (if parts[0].Piece? then [] else [ControlMessage(parts[0].ping, parts[0].data)]) + Controls(parts[1..])
  }

  function Whole(item: Item): Bytes
    requires item.Fragmented?
  {
    item.first + Pieces(item.parts) + item.last
  }

  ghost predicate Sendable(item: Item) {
    match item
    case Single(text, data, _) => |data| <= LIMIT && Readable(text, data)
    case Fragmented(text, _, _, parts, _, _) => SendableParts(parts) && |Whole(item)| <= LIMIT && Readable(text, Whole(item))
    case ControlItem(_, data, _) => |data| <= 125
  }

  function Opcode(text: bool): nat {
    if text then 1 else 2
  }

  function ItemBytes(item: Item, clientSide: bool): Bytes
    requires Sendable(item)
  {
    match item
    case Single(text, data, mask) => FrameBytes(Frame(true, Opcode(text), data), Peer(clientSide, mask))
    case Fragmented(text, first, mask, parts, last, lastMask) =>
      FrameBytes(Frame(false, Opcode(text), first), Peer(clientSide, mask))
      + (PartBytes(parts, clientSide) + FrameBytes(Frame(true, 0, last), Peer(clientSide, lastMask)))
    case ControlItem(ping, data, mask) => FrameBytes(ControlFrame(ping, data), Peer(clientSide, mask))
  }

  function ItemMessages(item: Item): seq<Message> {
    match item
    case Single(text, data, _) => [DataMessage(text, data)]
    case Fragmented(text, _, _, parts, _, _) => Controls(parts) + [DataMessage(text, Whole(item))]
    case ControlItem(ping, data, _) => [ControlMessage(ping, data)]
  }

  /** A frame at the start of the stream is taken first. */
  lemma FrameIsNext(assembly: Assembly, frame: Frame, mask: Mask, rest: Bytes, clientSide: bool)
    requires Wellformed(frame)
    ensures Next(assembly, FrameBytes(frame, Peer(clientSide, mask)) + rest, clientSide) == AfterFrame(assembly, frame, rest, clientSide)
  {
    hide ParseFrame, FrameBytes, Take, Wellformed;
    FrameIsParsed(frame, Peer(clientSide, mask), rest, clientSide);
  }

  lemma ReadsOne(assembly: Assembly, s: Bytes, clientSide: bool, message: Message, after: Assembly, rest: Bytes)
    requires Next(assembly, s, clientSide) == Got(message, after, rest)
    ensures Reads(assembly, s, clientSide, [message], after, rest)
  {
    hide Next;
    assert [message][1..] == [];
  }

  /** The rest of a fragmented message: the control frames come through in order, then the whole message. */
  lemma {:induction false} PartsAreRead(text: bool, data: Bytes, parts: seq<Part>, last: Bytes, lastMask: Mask, rest: Bytes,
                                        clientSide: bool)
    requires SendableParts(parts) && |data + Pieces(parts) + last| <= LIMIT && Readable(text, data + Pieces(parts) + last)
    ensures Reads(Gathering(text, data), PartBytes(parts, clientSide) + FrameBytes(Frame(true, 0, last), Peer(clientSide, lastMask)) + rest,
                  clientSide, Controls(parts) + [DataMessage(text, data + Pieces(parts) + last)], Idle, rest)
    decreases |parts|
  {
    hide Next, FrameBytes, WellFormed;
    var end := FrameBytes(Frame(true, 0, last), Peer(clientSide, lastMask));
    var whole := DataMessage(text, data + Pieces(parts) + last);
    var assembly := Gathering(text, data);
    if parts == [] {
      assert data + Pieces(parts) + last == data + last;
      assert PartBytes(parts, clientSide) + end + rest == end + rest;
      FrameIsNext(assembly, Frame(true, 0, last), lastMask, rest, clientSide);
      ReadsOne(assembly, end + rest, clientSide, whole, Idle, rest);
      assert Controls(parts) + [whole] == [whole];
    } else {
      var more := PartBytes(parts[1..], clientSide) + end + rest;
      var frame := PartFrame(parts[0]);
      assert Wellformed(frame);
      assert PartBytes(parts, clientSide) + end + rest == FrameBytes(frame, Peer(clientSide, parts[0].mask)) + more;
      FrameIsNext(assembly, frame, parts[0].mask, more, clientSide);
      PartStep(text, data, parts, last, lastMask, rest, clientSide, more);
    }
  }

  lemma PartStep(text: bool, data: Bytes, parts: seq<Part>, last: Bytes, lastMask: Mask, rest: Bytes, clientSide: bool, more: Bytes)
    requires parts != [] && SendableParts(parts) && |data + Pieces(parts) + last| <= LIMIT && Readable(text, data + Pieces(parts) + last)
    requires more == PartBytes(parts[1..], clientSide) + FrameBytes(Frame(true, 0, last), Peer(clientSide, lastMask)) + rest
    requires Wellformed(PartFrame(parts[0]))
    requires var s := FrameBytes(PartFrame(parts[0]), Peer(clientSide, parts[0].mask)) + more;
             Next(Gathering(text, data), s, clientSide) == AfterFrame(Gathering(text, data), PartFrame(parts[0]), more, clientSide)
    ensures Reads(Gathering(text, data), FrameBytes(PartFrame(parts[0]), Peer(clientSide, parts[0].mask)) + more,
                  clientSide, Controls(parts) + [DataMessage(text, data + Pieces(parts) + last)], Idle, rest)
    decreases |parts|, 0
  {
    hide Next, FrameBytes, WellFormed;
    var s := FrameBytes(PartFrame(parts[0]), Peer(clientSide, parts[0].mask)) + more;
    var whole := DataMessage(text, data + Pieces(parts) + last);
    var messages := Controls(parts[1..]) + [whole];
    match parts[0]
    case Piece(piece, _) =>
      assert data + piece + Pieces(parts[1..]) + last == data + Pieces(parts) + last;
      PartsAreRead(text, data + piece, parts[1..], last, lastMask, rest, clientSide);
      assert Controls(parts) == Controls(parts[1..]);
      SameNext(Gathering(text, data), s, Gathering(text, data + piece), more, clientSide, messages, rest);
    case Interleaved(ping, control, _) =>
      assert data + Pieces(parts[1..]) + last == data + Pieces(parts) + last;
      PartsAreRead(text, data, parts[1..], last, lastMask, rest, clientSide);
      var message := ControlMessage(ping, control);
      ReadsOne(Gathering(text, data), s, clientSide, message, Gathering(text, data), more);
      ReadsAppend(Gathering(text, data), s, clientSide, [message], Gathering(text, data), more, messages, Idle, rest);
      assert Controls(parts) + [whole] == [message] + messages;
  }

  /** States with the same next message read the same. */
  lemma SameNext(a: Assembly, s: Bytes, b: Assembly, t: Bytes, clientSide: bool, messages: seq<Message>, rest: Bytes)
    requires messages != [] && Next(a, s, clientSide) == Next(b, t, clientSide) && Reads(b, t, clientSide, messages, Idle, rest)
    ensures Reads(a, s, clientSide, messages, Idle, rest)
  {
    hide Next;
  }

  /** Whatever the peer sends in one go is read back: a message, a control frame, or a fragmented message with its control frames first. */
  lemma ItemIsRead(item: Item, rest: Bytes, clientSide: bool)
    requires Sendable(item)
    ensures Reads(Idle, ItemBytes(item, clientSide) + rest, clientSide, ItemMessages(item), Idle, rest)
  {
    hide Next, FrameBytes, WellFormed;
    match item
    case Single(text, data, mask) =>
      FrameIsNext(Idle, Frame(true, Opcode(text), data), mask, rest, clientSide);
      ReadsOne(Idle, ItemBytes(item, clientSide) + rest, clientSide, DataMessage(text, data), Idle, rest);
    case ControlItem(ping, data, mask) =>
      FrameIsNext(Idle, ControlFrame(ping, data), mask, rest, clientSide);
      ReadsOne(Idle, ItemBytes(item, clientSide) + rest, clientSide, ControlMessage(ping, data), Idle, rest);
    case Fragmented(text, first, mask, parts, last, lastMask) =>
      var start := Frame(false, Opcode(text), first);
      var more := PartBytes(parts, clientSide) + FrameBytes(Frame(true, 0, last), Peer(clientSide, lastMask));
      PartsAreRead(text, first, parts, last, lastMask, rest, clientSide);
      FrameIsNext(Idle, start, mask, more + rest, clientSide);
      Regroup(FrameBytes(start, Peer(clientSide, mask)), more, rest);
      SameNext(Idle, ItemBytes(item, clientSide) + rest, Gathering(text, first), more + rest, clientSide, ItemMessages(item), rest);
  }

  // ---- whole conversations

  ghost predicate AllSendable(items: seq<Item>) {
    forall i :: 0 <= i < |items| ==> Sendable(items[i])
  }

  ghost function Stream(items: seq<Item>, clientSide: bool): Bytes
    requires AllSendable(items)
  {
    if items == [] then [] else ItemBytes(items[0], clientSide) + Stream(items[1..], clientSide)
  }

  function Messages(items: seq<Item>): seq<Message> {
    if items == [] then [] else ItemMessages(items[0]) + Messages(items[1..])
  }

  lemma {:induction false} ItemsAreRead(items: seq<Item>, rest: Bytes, clientSide: bool)
    requires AllSendable(items)
    ensures Reads(Idle, Stream(items, clientSide) + rest, clientSide, Messages(items), Idle, rest)
    decreases |items|
  {
    hide Reads, ItemBytes, ItemMessages;
    if items == [] {
      NothingRead(rest, clientSide);
      assert [] + rest == rest;
    } else {
      var more := Stream(items[1..], clientSide) + rest;
      ItemIsRead(items[0], more, clientSide);
      ItemsAreRead(items[1..], rest, clientSide);
      Regroup(ItemBytes(items[0], clientSide), Stream(items[1..], clientSide), rest);
      ReadsAppend(Idle, Stream(items, clientSide) + rest, clientSide, ItemMessages(items[0]), Idle, more, Messages(items[1..]), Idle, rest);
    }
  }

  lemma NothingRead(rest: Bytes, clientSide: bool)
    ensures Reads(Idle, rest, clientSide, [], Idle, rest)
  {}

  lemma ReadsHead(a: Assembly, s: Bytes, clientSide: bool, messages: seq<Message>, after: Assembly, rest: Bytes)
    requires messages != [] && Reads(a, s, clientSide, messages, after, rest)
    ensures var step := Next(a, s, clientSide);
            && step.Got? && step.message == messages[0]
            && Reads(step.assembly, step.rest, clientSide, messages[1..], after, rest)
  {
    hide Next;
  }

  lemma ReadsNone(a: Assembly, s: Bytes, clientSide: bool, after: Assembly, rest: Bytes)
    requires Reads(a, s, clientSide, [], after, rest)
    ensures a == after && s == rest
  {}

  /** A channel that receives what its peer sent, cut into blocks anywhere, reads exactly the messages in order. */
  method Receive(items: seq<Item>, suffix: Bytes, blocks: seq<Bytes>, clientSide: bool, mask: Mask)
    returns (messages: seq<Message>, rest: Bytes)
    requires AllSendable(items) && Concat(blocks) == Stream(items, clientSide) + suffix
    ensures messages == Messages(items) && rest == suffix
  {
    ItemsAreRead(items, suffix, clientSide);
    hide Next, Concat, Stream, ItemBytes, Messages, Reads, AllSendable, WithinLimit, Answer;
    var channel := new Channel(blocks, clientSide);
    var count := |Messages(items)|;
    messages := [];
    ghost var ahead := Messages(items);
    while |messages| < count
      invariant channel.Valid() && fresh(channel) && fresh(channel.buffer) && channel.clientSide == clientSide
      invariant messages + ahead == Messages(items) && |messages| <= count
      invariant Reads(channel.State(), channel.Pending(), clientSide, ahead, Idle, suffix)
    {
      ReadsHead(channel.State(), channel.Pending(), clientSide, ahead, Idle, suffix);
      var message, _ := channel.Read(mask, 0);
      MovedOver(messages, ahead);
      messages := messages + [message.value];
      ahead := ahead[1..];
    }
    assert ahead == [];
    ReadsNone(channel.State(), channel.Pending(), clientSide, Idle, suffix);
    rest := channel.buffer.View() + Concat(channel.blocks);
  }

  lemma MovedOver(done: seq<Message>, ahead: seq<Message>)
    requires ahead != []
    ensures done + [ahead[0]] + ahead[1..] == done + ahead
  {}

  // ---- only what was sent is delivered

  /** The bytes of some frames as a peer sends them. */
  function FramesBytes(frames: seq<Frame>, masks: seq<Option<Mask>>): Bytes
    requires |masks| == |frames| && forall i :: 0 <= i < |frames| ==> Wellformed(frames[i])
  {
    if frames == [] then [] else FrameBytes(frames[0], masks[0]) + FramesBytes(frames[1..], masks[1..])
  }

  function Payloads(frames: seq<Frame>): Bytes {
    if frames == [] then [] else frames[0].payload + Payloads(frames[1..])
  }

  /** Fragments in front of the frame that completes a message or that is a control frame. */
  predicate Fragments(frames: seq<Frame>, assembly: Assembly) {
    forall i :: 0 <= i < |frames| - 1 ==>
      !frames[i].final && (if i == 0 && assembly.Idle? then frames[i].opcode == 1 || frames[i].opcode == 2 else frames[i].opcode == 0)
  }

  function Gathered(assembly: Assembly): Bytes {
    if assembly.Idle? then [] else assembly.data
  }

  /** The last frame: a final one that continues the message, a message of its own, or a control frame between fragments. */
  predicate Closes(frame: Frame, assembly: Assembly, fragmented: bool, kind: Kind) {
    match kind
    case Ping => frame.opcode == 9
    case Pong => frame.opcode == 10
    case _ =>
      frame.final && if fragmented || assembly.Gathering? then frame.opcode == 0 else frame.opcode == Opcode(kind == TextMessage)
  }

  /** Whatever is delivered was sent: the bytes read are frames of the peer, and a data message is the concatenation of exactly
      these frames with what was gathered before, well-formed if it is a text. */
  lemma {:induction false} DeliveredWasSent(assembly: Assembly, s: Bytes, clientSide: bool)
    returns (frames: seq<Frame>, masks: seq<Option<Mask>>)
    requires Next(assembly, s, clientSide).Got?
    ensures var step := Next(assembly, s, clientSide);
            && frames != [] && |masks| == |frames| && (forall i :: 0 <= i < |frames| ==> Wellformed(frames[i]))
            && (forall i :: 0 <= i < |masks| ==> masks[i].Some? == !clientSide)
            && s == FramesBytes(frames, masks) + step.rest
            && Fragments(frames, assembly)
            && Closes(frames[|frames| - 1], assembly, |frames| > 1, step.message.kind)
            && (step.message.kind == TextMessage || step.message.kind == BinaryMessage ==>
                  step.message.data == Gathered(assembly) + Payloads(frames) && Readable(step.message.kind == TextMessage, step.message.data))
            && (step.message.kind == Ping || step.message.kind == Pong ==> step.message.data == frames[|frames| - 1].payload)
    decreases |s|
  {
    hide ParseFrame, FrameBytes, WellFormed, Wellformed, Next, Readable;
    NextStep(assembly, s, clientSide);
    ParsedIsPrinted(s, clientSide);
    var r := ParseFrame(s, clientSide);
    if Take(assembly, r.frame).Hold? {
      var taken := Take(assembly, r.frame);
      var more, others := DeliveredWasSent(taken.assembly, r.rest, clientSide);
      frames, masks := [r.frame] + more, [r.mask] + others;
      HeldFirst(assembly, r.frame, more);
      hide Take, Fragments, Closes, Gathered;
      FramesCons(r.frame, r.mask, more, others);
      Regroup(FrameBytes(r.frame, r.mask), FramesBytes(more, others), Next(assembly, s, clientSide).rest);
      Regroup(Gathered(assembly), r.frame.payload, Payloads(more));
      ClosesLater(more[|more| - 1], assembly, taken.assembly, |more| > 1, Next(assembly, s, clientSide).message.kind);
    } else {
      frames, masks := [r.frame], [r.mask];
      LastFrame(assembly, r.frame, r.mask);
    }
  }

  lemma FramesCons(frame: Frame, mask: Option<Mask>, more: seq<Frame>, others: seq<Option<Mask>>)
    requires Wellformed(frame) && |more| == |others| && forall i :: 0 <= i < |more| ==> Wellformed(more[i])
    ensures forall i :: 0 <= i < |[frame] + more| ==> Wellformed(([frame] + more)[i])
    ensures FramesBytes([frame] + more, [mask] + others) == FrameBytes(frame, mask) + FramesBytes(more, others)
    ensures Payloads([frame] + more) == frame.payload + Payloads(more)
  {
    hide FrameBytes, Wellformed;
    assert ([frame] + more)[1..] == more && ([mask] + others)[1..] == others;
  }

  /** A gathering assembly expects a continuation, as more than one frame does. */
  lemma ClosesLater(frame: Frame, assembly: Assembly, held: Assembly, fragmented: bool, kind: Kind)
    requires held.Gathering? && Closes(frame, held, fragmented, kind)
    ensures Closes(frame, assembly, true, kind)
  {}

  lemma LastFrame(assembly: Assembly, frame: Frame, mask: Option<Mask>)
    requires Take(assembly, frame).Deliver? && Wellformed(frame)
    ensures var message := Take(assembly, frame).message;
            && FramesBytes([frame], [mask]) == FrameBytes(frame, mask)
            && Closes(frame, assembly, false, message.kind)
            && (message.kind == TextMessage || message.kind == BinaryMessage ==>
                  message.data == Gathered(assembly) + Payloads([frame]) && Readable(message.kind == TextMessage, message.data))
            && (message.kind == Ping || message.kind == Pong ==> message.data == frame.payload)
  {
    hide FrameBytes, WellFormed, Wellformed;
    assert [frame][1..] == [] && [mask][1..] == [];
    assert FrameBytes(frame, mask) + [] == FrameBytes(frame, mask);
    assert frame.payload + [] == frame.payload && [] + frame.payload == frame.payload;
  }

  lemma HeldFirst(assembly: Assembly, frame: Frame, more: seq<Frame>)
    requires Take(assembly, frame).Hold? && Fragments(more, Take(assembly, frame).assembly)
    ensures Fragments([frame] + more, assembly) && Take(assembly, frame).assembly.Gathering?
    ensures Gathered(Take(assembly, frame).assembly) == Gathered(assembly) + frame.payload
  {
    hide WellFormed;
    var frames := [frame] + more;
    assert [] + frame.payload == frame.payload;
    forall i | 0 <= i < |frames| - 1
      ensures !frames[i].final && (if i == 0 && assembly.Idle? then frames[i].opcode == 1 || frames[i].opcode == 2 else frames[i].opcode == 0)
    {
      if i > 0 { assert frames[i] == more[i - 1]; }
    }
  }
}
