/** The closing handshake of a WebSocket (section 7.1 of RFC 6455): the code and the reason that one side sends are the ones
    that the other side reads and sends back. */
module WebSocketClosing {
  import opened Wrappers
  import opened Octets
  import opened Text
  import opened Utf8
  import opened WebSocketFrames
  import opened WebSocket

  /** The codes that may be sent (section 7.4 of RFC 6455), from and to. */
  const CLOSE_CODES: seq<(nat, nat)> := [(1000, 1003), (1007, 1014), (3000, 4999)]

  predicate Registered(code: nat) {
    exists i :: 0 <= i < |CLOSE_CODES| && CLOSE_CODES[i].0 <= code <= CLOSE_CODES[i].1
  }

  lemma CodesAreRegistered(code: nat)
    ensures ValidCloseCode(code) <==> Registered(code)
  {
    if ValidCloseCode(code) {
      var i := if code <= 1003 then 0 else if code <= 1014 then 1 else 2;
      assert CLOSE_CODES[i].0 <= code <= CLOSE_CODES[i].1;
    }
  }

  function CloseFrame(payload: Bytes): Frame {
    Frame(true, 8, payload)
  }

  /** A close frame that arrives is understood exactly when its code, most significant byte first, is registered and its
      reason is well-formed. */
  lemma CloseIsUnderstood(assembly: Assembly, high: Byte, low: Byte, reason: Bytes, mask: Mask, rest: Bytes, clientSide: bool)
    requires |reason| <= 123
    ensures var code, payload := high * 256 + low, [high, low] + reason;
            Next(assembly, FrameBytes(CloseFrame(payload), Peer(clientSide, mask)) + rest, clientSide) ==
            Stopped(if Registered(code) && WellFormed(reason) then Closed(code, payload) else BadClose)
  {
    var payload := [high, low] + reason;
    CodesAreRegistered(high * 256 + low);
    assert payload[2..] == reason;
    hide FrameBytes, Next, WellFormed, Registered, ValidCloseCode;
    FrameIsNext(assembly, CloseFrame(payload), mask, rest, clientSide);
  }

  /** A close frame without a payload is a normal closure, and one byte is not a code. */
  lemma ShortClose(assembly: Assembly, payload: Bytes, mask: Mask, rest: Bytes, clientSide: bool)
    requires |payload| < 2
    ensures Next(assembly, FrameBytes(CloseFrame(payload), Peer(clientSide, mask)) + rest, clientSide) ==
            Stopped(if payload == [] then Closed(1000, []) else BadClose)
  {
    hide FrameBytes, Next, WellFormed;
    FrameIsNext(assembly, CloseFrame(payload), mask, rest, clientSide);
  }

  /** Some way of cutting bytes into the blocks of a connection. */
  ghost predicate Cuts(cut: Bytes -> seq<Bytes>) {
    forall s :: Concat(cut(s)) == s
  }

  lemma NothingBehind(s: Bytes)
    ensures s + [] == s && [] + s == s
  {}

  lemma CloseAnswer(client: bool, payload: Bytes, mask: Mask)
    requires |payload| <= 125
    ensures [] + Answer(true, client, 8, payload, mask) == FrameBytes(CloseFrame(payload), Peer(!client, mask)) + []
  {
    hide FrameBytes;
    NothingBehind(Answer(true, client, 8, payload, mask));
  }

  method SendClose(client: bool, code: nat, reason: Bytes, mask: Mask) returns (wire: Bytes, ghost text: Bytes)
    requires Registered(code) && code < 65536 && WellFormed(reason)
    ensures |text| <= 123 && WellFormed(text) && LongestPrefix(text, reason, 123) && (|reason| <= 123 ==> text == reason)
    ensures wire == FrameBytes(CloseFrame(ClosePayload(code, text)), Peer(!client, mask)) + []
  {
    hide WellFormed, FrameBytes, Registered, Answer;
    CodesAreRegistered(code);
    var closing := new Channel([], client);
    closing.Close(code, reason, mask);
    wire := closing.written;
    text :| LongestPrefix(text, reason, 123) && wire == [] + Answer(true, client, 8, ClosePayload(code, text), mask);
    PrefixParts(text, reason, 123);
    CloseAnswer(client, ClosePayload(code, text), mask);
  }

  method ReadClose(client: bool, code: nat, ghost text: Bytes, blocks: seq<Bytes>, mask: Mask, ghost peerMask: Mask)
    returns (failure: Failure, wire: Bytes)
    requires Registered(code) && code < 65536 && WellFormed(text) && |text| <= 123
    requires Concat(blocks) == FrameBytes(CloseFrame(ClosePayload(code, text)), Peer(client, peerMask)) + []
    ensures failure == Closed(code, ClosePayload(code, text))
    ensures wire == FrameBytes(CloseFrame(ClosePayload(code, text)), Peer(!client, mask)) + []
  {
    hide Concat, WellFormed, Next, FrameBytes, Registered, Answer, ParseFrame;
    CloseIsUnderstood(Idle, code / 256, code % 256, text, peerMask, [], client);
    var channel := new Channel(blocks, client);
    var _, found := channel.Read(mask, 0);
    failure := found.value;
    wire := channel.written;
    CloseAnswer(client, ClosePayload(code, text), mask);
  }

  /** One side closes, and the other one reads the close frame and echoes it; a reader on the first side finds the same code
      and reason in the echo, wherever the bytes are cut on their ways. */
  method Handshake(client: bool, code: nat, reason: Bytes, mask: Mask, peerMask: Mask, cut: Bytes -> seq<Bytes>, cutBack: Bytes -> seq<Bytes>)
    returns (read: Failure, echoed: Failure, ghost text: Bytes)
    requires Registered(code) && code < 65536 && WellFormed(reason) && Cuts(cut) && Cuts(cutBack)
    ensures LongestPrefix(text, reason, 123) && (|reason| <= 123 ==> text == reason)
    ensures read == Closed(code, ClosePayload(code, text)) && echoed == Closed(code, ClosePayload(code, text))
  {
    hide Concat, WellFormed, FrameBytes, Registered, LongestPrefix;
    var sent, back: Bytes;
    sent, text := SendClose(client, code, reason, mask);
    read, back := ReadClose(!client, code, text, cut(sent), peerMask, mask);
    echoed, back := ReadClose(client, code, text, cutBack(back), mask, peerMask);
  }

  lemma PrefixParts(cut: Bytes, s: Bytes, limit: nat)
    requires LongestPrefix(cut, s, limit) && WellFormed(s)
    ensures |cut| <= limit && WellFormed(cut) && (|s| <= limit ==> cut == s)
  {
    hide WellFormed;
    if |s| <= limit { WholePrefix(s, limit); }
  }

  // ---- frames that are still arriving

  /** A frame that has not arrived whole is neither faulty nor complete. */
  lemma PrefixIsIncomplete(frame: Frame, mask: Option<Mask>, k: nat, clientSide: bool)
    requires WebSocketFrames.Wellformed(frame) && mask.Some? == !clientSide && k < |FrameBytes(frame, mask)|
    ensures ParseFrame(FrameBytes(frame, mask)[..k], clientSide) == Incomplete
  {
    var bytes := FrameBytes(frame, mask);
    hide FrameBytes, ParseFrame, WebSocketFrames.Wellformed;
    FrameIsParsed(frame, mask, [], clientSide);
    NothingBehind(bytes);
    assert bytes[..k] + bytes[k..] == bytes;
    VerdictIsStable(bytes[..k], bytes[k..], clientSide);
  }
}
