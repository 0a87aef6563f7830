/** WebSocket frames (section 5.2 of RFC 6455): the bytes of a frame, and reading a frame from the start of a stream. */
module WebSocketFrames {
  import opened Wrappers
  import opened Octets
  import opened Text
  import opened Utf8

  const LIMIT: nat := 64 * 1024 * 1024

  // ---- masking

  /** Exclusive or, bit by bit. */
  function Xor(a: nat, b: nat): nat
    decreases a + b
  {
    if a == 0 && b == 0 then 0 else (a % 2 + b % 2) % 2 + 2 * Xor(a / 2, b / 2)
  }

  lemma XorStep(low: nat, high: nat, b: nat)
    requires low < 2
    ensures Xor(low + 2 * high, b) == (low + b % 2) % 2 + 2 * Xor(high, b / 2)
  {
    assert (low + 2 * high) / 2 == high && (low + 2 * high) % 2 == low;
    assert Xor(0, 0) == 0;
  }

  lemma {:induction false} XorTwice(a: nat, b: nat)
    ensures Xor(Xor(a, b), b) == a
    decreases a + b
  {
    hide Xor;
    XorZero();
    if a != 0 || b != 0 {
      var low, high := (a % 2 + b % 2) % 2, Xor(a / 2, b / 2);
      assert a == a % 2 + 2 * (a / 2);
      XorStep(a % 2, a / 2, b);
      XorStep(low, high, b);
      XorTwice(a / 2, b / 2);
    }
  }

  lemma XorZero()
    ensures Xor(0, 0) == 0
  {}

  lemma {:induction false} XorIsByte(a: nat, b: nat, limit: nat)
    requires a < Pow2(limit) && b < Pow2(limit)
    ensures Xor(a, b) < Pow2(limit)
    decreases limit
  {
    if limit > 0 && (a != 0 || b != 0) { XorIsByte(a / 2, b / 2, limit - 1); }
  }

  function Pow2(n: nat): nat {
    if n == 0 then 1 else 2 * Pow2(n - 1)
  }

  function XorByte(a: Byte, b: Byte): Byte {
    assert Pow2(8) == 256;
    XorIsByte(a, b, 8);
    Xor(a, b)
  }

  type Mask = m: Bytes | |m| == 4 witness [0, 0, 0, 0]

  function Masked(payload: Bytes, mask: Mask): (r: Bytes)
    ensures |r| == |payload|
  {
    seq(|payload|, i requires 0 <= i < |payload| => XorByte(payload[i], mask[i % 4]))
  }

  lemma MaskedTwice(payload: Bytes, mask: Mask)
    ensures Masked(Masked(payload, mask), mask) == payload
  {
    forall i | 0 <= i < |payload| ensures Masked(Masked(payload, mask), mask)[i] == payload[i] { XorTwice(payload[i], mask[i % 4]); }
  }

  /** The loops that apply a mask in place. */
  method ApplyMask(payload: Bytes, mask: Mask) returns (r: Bytes)
    ensures r == Masked(payload, mask)
  {
    r := payload;
    for index := 0 to |payload|
      invariant |r| == |payload|
      invariant forall i :: 0 <= i < index ==> r[i] == XorByte(payload[i], mask[i % 4])
      invariant forall i :: index <= i < |payload| ==> r[i] == payload[i]
    {
      r := r[index := XorByte(r[index], mask[index % 4])];
    }
  }

  // ---- lengths

  function Pow256(k: nat): nat {
    if k == 0 then 1 else 256 * Pow256(k - 1)
  }

  function BigEndian(n: nat, k: nat): (r: Bytes)
    ensures |r| == k
  {
    if k == 0 then [] else BigEndian(n / 256, k - 1) + [n % 256]
  }

  function NumberOf(s: Bytes): nat {
    if s == [] then 0 else NumberOf(s[..|s| - 1]) * 256 + s[|s| - 1]
  }

  lemma {:induction false} NumberRoundTrip(n: nat, k: nat)
    requires n < Pow256(k)
    ensures NumberOf(BigEndian(n, k)) == n
    decreases k
  {
    if k > 0 {
      NumberRoundTrip(n / 256, k - 1);
      var s := BigEndian(n, k);
      assert s[..|s| - 1] == BigEndian(n / 256, k - 1);
    }
  }

  lemma Split256(high: nat, low: nat)
    requires low < 256
    ensures (high * 256 + low) / 256 == high && (high * 256 + low) % 256 == low
  {}

  lemma BigEndianStep(high: nat, low: Byte, k: nat)
    ensures BigEndian(high * 256 + low, k + 1) == BigEndian(high, k) + [low]
  {
    Split256(high, low);
  }

  lemma {:induction false} BytesRoundTrip(s: Bytes)
    ensures NumberOf(s) < Pow256(|s|) && BigEndian(NumberOf(s), |s|) == s
    decreases |s|
  {
    if s != [] {
      var front, low := s[..|s| - 1], s[|s| - 1];
      BytesRoundTrip(front);
      assert NumberOf(s) == NumberOf(front) * 256 + low;
      assert Pow256(|s|) == 256 * Pow256(|front|);
      BigEndianStep(NumberOf(front), low, |front|);
      hide BigEndian, NumberOf, Pow256;
      assert s == front + [low];
    }
  }

  /** The bits of `n` above the lowest `8 * k`. */
  function Shifted(n: nat, k: nat): nat {
    if k == 0 then n else Shifted(n, k - 1) / 256
  }

  /** The loop that prints a 64-bit length. */
  method LengthBytes(n: nat) returns (r: Bytes)
    requires n < Pow256(8)
    ensures r == BigEndian(n, 8)
  {
    r := [];
    var shift := 8;
    ShiftedAway(n, 8, 0);
    while shift > 0
      invariant 0 <= shift <= 8
      invariant r == BigEndian(Shifted(n, shift), 8 - shift)
    {
      shift := shift - 1;
      assert Shifted(n, shift + 1) == Shifted(n, shift) / 256;
      r := r + [Shifted(n, shift) % 256];
    }
  }

  lemma {:induction false} ShiftedAway(n: nat, k: nat, j: nat)
    ensures BigEndian(Shifted(n, k), 0) == []
  {}

  // ---- frames

  datatype Frame = Frame(final: bool, opcode: nat, payload: Bytes)

  predicate Control(opcode: nat) {
    opcode >= 8
  }

  function LengthCode(n: nat): nat {
    if n <= 125 then n else if n <= 65535 then 126 else 127
  }

  function LengthField(n: nat): Bytes {
    if n <= 125 then [] else if n <= 65535 then BigEndian(n, 2) else BigEndian(n, 8)
  }

  function MaskBytes(mask: Option<Mask>): Bytes {
    if mask.None? then [] else mask.value
  }

  function Wire(payload: Bytes, mask: Option<Mask>): Bytes {
    if mask.None? then payload else Masked(payload, mask.value)
  }

  predicate Wellformed(frame: Frame) {
    && frame.opcode < 16 && |frame.payload| <= LIMIT
    && (Control(frame.opcode) ==> frame.final && |frame.payload| <= 125)
  }

  /** The bytes of a frame, with the shortest length that fits and with a mask if there is one. */
  function FrameBytes(frame: Frame, mask: Option<Mask>): Bytes
    requires Wellformed(frame)
  {
    [(if frame.final then 0x80 else 0) + frame.opcode, (if mask.Some? then 0x80 else 0) + LengthCode(|frame.payload|)]
    + LengthField(|frame.payload|) + MaskBytes(mask) + Wire(frame.payload, mask)
  }

  datatype Fault = ReservedBits | MaskDirection | NotMinimal | LengthRange

  /** What is at the start of the bytes that have arrived: not all of a frame, a faulty one, or a frame. */
  datatype Parse = Incomplete | Faulty(fault: Fault) | Parsed(frame: Frame, mask: Option<Mask>, rest: Bytes)

  /** The bytes of the length that follow the first two. */
  function ExtraLength(code: nat): nat {
    if code == 126 then 2 else if code == 127 then 8 else 0
  }

  function ParsePayload(s: Bytes, cursor: nat, first: nat, masked: bool, length: nat): Parse
    requires cursor <= |s|
  {
    if (Control(first % 16) && (first < 128 || length > 125)) || length > LIMIT then Faulty(LengthRange)
    else
      var start := cursor + if masked then 4 else 0;
      if |s| < start + length then Incomplete
      else
        var raw := s[start..start + length];
        var mask := if masked then Some(s[cursor..cursor + 4]) else None;
        Parsed(Frame(first >= 128, first % 16, Wire(raw, mask)), mask, s[start + length..])
  }

  datatype LengthParse = Short | Refused(fault: Fault) | LengthIs(length: nat, cursor: nat)

  /** The length, and where the bytes behind it start. */
  function ParseLength(s: Bytes): (r: LengthParse)
    requires |s| >= 2
    ensures r.LengthIs? ==> 2 <= r.cursor <= |s|
  {
    var code := s[1] % 128;
    var cursor := 2 + ExtraLength(code);
    if |s| < cursor then Short
    else if code <= 125 then LengthIs(code, cursor)
    else
      var length := NumberOf(s[2..cursor]);
      if code == 127 && s[2] >= 128 then Refused(LengthRange)
      else if length < 126 || (code == 127 && length <= 65535) then Refused(NotMinimal)
      else LengthIs(length, cursor)
  }

  function ParseFrame(s: Bytes, clientSide: bool): Parse {
    if |s| < 2 then Incomplete
    else if s[0] / 16 % 8 != 0 then Faulty(ReservedBits)
    else if (s[1] >= 128) == clientSide then Faulty(MaskDirection)
    else
      match ParseLength(s)
      case Short => Incomplete
      case Refused(fault) => Faulty(fault)
      case LengthIs(length, cursor) => ParsePayload(s, cursor, s[0], s[1] >= 128, length)
  }

  // ---- parsing inverts printing

  lemma PowerFacts()
    ensures Pow256(2) == 65536 && Pow256(8) == 0x1_0000_0000_0000_0000
  {
    assert Pow256(1) == 256;
    assert Pow256(3) == 0x100_0000;
    assert Pow256(4) == 0x1_0000_0000;
    assert Pow256(5) == 0x100_0000_0000;
    assert Pow256(6) == 0x1_0000_0000_0000;
    assert Pow256(7) == 0x100_0000_0000_0000;
  }

  /** The top byte of a 64-bit length within the limit is zero. */
  lemma {:induction false} TopByte(n: nat, k: nat)
    requires 0 < k && n < Pow256(k - 1)
    ensures BigEndian(n, k)[0] == 0
    decreases k
  {
    if k > 1 {
      TopByte(n / 256, k - 1);
    } else {
      assert BigEndian(n / 256, 0) == [];
    }
  }

  lemma LengthFieldIsRead(n: nat)
    requires n <= LIMIT
    ensures |LengthField(n)| == ExtraLength(LengthCode(n))
    ensures n > 125 ==> NumberOf(LengthField(n)) == n
    ensures n > 65535 ==> LengthField(n)[0] == 0
  {
    PowerFacts();
    if 125 < n <= 65535 { NumberRoundTrip(n, 2); }
    if n > 65535 {
      NumberRoundTrip(n, 8);
      assert Pow256(7) == 0x100_0000_0000_0000 by { assert 256 * Pow256(7) == Pow256(8); }
      TopByte(n, 8);
    }
  }

  lemma LengthIsParsed(s: Bytes, n: nat)
    requires |s| >= 2 && n <= LIMIT && s[1] % 128 == LengthCode(n)
    requires |s| >= 2 + |LengthField(n)| && s[2..2 + |LengthField(n)|] == LengthField(n)
    ensures ParseLength(s) == LengthIs(n, 2 + |LengthField(n)|)
  {
    LengthFieldIsRead(n);
    if n > 65535 { assert s[2] == s[2..10][0]; }
    hide LengthField, NumberOf;
  }

  lemma PrintedAgain(field: Bytes)
    requires |field| == 2 || |field| == 8
    ensures BigEndian(NumberOf(field), |field|) == field && (|field| == 2 ==> NumberOf(field) <= 65535)
  {
    hide NumberOf, BigEndian;
    BytesRoundTrip(field);
    PowerFacts();
  }

  lemma ParsedLengthIsPrinted(s: Bytes)
    requires |s| >= 2 && ParseLength(s).LengthIs?
    ensures var r := ParseLength(s);
            s[1] % 128 == LengthCode(r.length) && s[2..r.cursor] == LengthField(r.length)
  {
    var r := ParseLength(s);
    hide NumberOf, BigEndian;
    if r.cursor > 2 { PrintedAgain(s[2..r.cursor]); }
  }

  /** The parts of a printed frame. */
  lemma FrameParts(a: Byte, b: Byte, length: Bytes, mask: Bytes, wire: Bytes, rest: Bytes, s: Bytes)
    requires s == [a, b] + length + mask + wire + rest
    ensures |s| >= 2 && s[0] == a && s[1] == b
    ensures var cursor := 2 + |length|; var start := cursor + |mask|;
            && |s| >= start + |wire| && s[2..cursor] == length && s[cursor..start] == mask
            && s[start..start + |wire|] == wire && s[start + |wire|..] == rest
  {}

  function FirstByte(frame: Frame): Byte
    requires Wellformed(frame)
  {
    (if frame.final then 0x80 else 0) + frame.opcode
  }

  function SecondByte(frame: Frame, mask: Option<Mask>): Byte {
    (if mask.Some? then 0x80 else 0) + LengthCode(|frame.payload|)
  }

  lemma FirstByteBits(frame: Frame)
    requires Wellformed(frame)
    ensures var a := FirstByte(frame); a / 16 % 8 == 0 && a % 16 == frame.opcode && (a >= 128 <==> frame.final)
  {}

  lemma SecondByteBits(frame: Frame, mask: Option<Mask>)
    ensures var b := SecondByte(frame, mask); (b >= 128 <==> mask.Some?) && b % 128 == LengthCode(|frame.payload|)
  {}

  /** Where the parts of a printed frame are. */
  lemma PrintedParts(frame: Frame, mask: Option<Mask>, rest: Bytes)
    requires Wellformed(frame)
    ensures var s, n, length := FrameBytes(frame, mask) + rest, |frame.payload|, LengthField(|frame.payload|);
            var cursor := 2 + |length|; var start := cursor + |MaskBytes(mask)|;
            && |s| >= start + n && s[0] == FirstByte(frame) && s[1] == SecondByte(frame, mask) && s[2..cursor] == length
            && s[cursor..start] == MaskBytes(mask) && s[start..start + n] == Wire(frame.payload, mask) && s[start + n..] == rest
  {
    WireLength(frame.payload, mask);
    hide LengthField, Masked, Wire, MaskBytes, LengthCode, Wellformed;
    FrameParts(FirstByte(frame), SecondByte(frame, mask), LengthField(|frame.payload|), MaskBytes(mask), Wire(frame.payload, mask), rest,
               FrameBytes(frame, mask) + rest);
  }

  lemma PayloadWithinLimit(frame: Frame)
    requires Wellformed(frame)
    ensures |frame.payload| <= LIMIT
  {}

  /** Printing a frame and parsing it at the other side gives the frame back and leaves what follows. */
  lemma FrameIsParsed(frame: Frame, mask: Option<Mask>, rest: Bytes, clientSide: bool)
    requires Wellformed(frame) && mask.Some? == !clientSide
    ensures ParseFrame(FrameBytes(frame, mask) + rest, clientSide) == Parsed(frame, mask, rest)
  {
    hide *;
    var s, n, cursor := FrameBytes(frame, mask) + rest, |frame.payload|, 2 + |LengthField(|frame.payload|)|;
    PayloadWithinLimit(frame);
    FirstByteBits(frame);
    SecondByteBits(frame, mask);
    PrintedParts(frame, mask, rest);
    LengthIsParsed(s, n);
    PrintedPayload(s, cursor, FirstByte(frame), frame, mask, rest);
    ParseByParts(s, clientSide, n, cursor);
  }

  lemma ParseByParts(s: Bytes, clientSide: bool, length: nat, cursor: nat)
    requires |s| >= 2 && s[0] / 16 % 8 == 0 && (s[1] >= 128) != clientSide && ParseLength(s) == LengthIs(length, cursor)
    ensures ParseFrame(s, clientSide) == ParsePayload(s, cursor, s[0], s[1] >= 128, length)
  {
    hide ParseLength, ParsePayload;
  }

  lemma WireLength(payload: Bytes, mask: Option<Mask>)
    ensures |Wire(payload, mask)| == |payload|
  {}

  lemma PrintedPayload(s: Bytes, cursor: nat, first: Byte, frame: Frame, mask: Option<Mask>, rest: Bytes)
    requires Wellformed(frame) && first % 16 == frame.opcode && (first >= 128 <==> frame.final)
    requires var start := cursor + |MaskBytes(mask)|; var n := |frame.payload|;
             && |s| >= start + n && s[cursor..start] == MaskBytes(mask)
             && s[start..start + n] == Wire(frame.payload, mask) && s[start + n..] == rest
    ensures ParsePayload(s, cursor, first, mask.Some?, |frame.payload|) == Parsed(frame, mask, rest)
  {
    if mask.Some? { MaskedTwice(frame.payload, mask.value); }
    hide Masked;
  }

  lemma ParsedPayloadIsPrinted(s: Bytes, cursor: nat, first: Byte, masked: bool, length: nat)
    requires cursor <= |s| && ParsePayload(s, cursor, first, masked, length).Parsed?
    ensures var r := ParsePayload(s, cursor, first, masked, length); var start := cursor + |MaskBytes(r.mask)|;
            && |r.frame.payload| == length && Wellformed(r.frame) && r.mask.Some? == masked && start + length <= |s|
            && r.frame.opcode == first % 16 && r.frame.final == (first >= 128)
            && s[cursor..start] == MaskBytes(r.mask) && s[start..start + length] == Wire(r.frame.payload, r.mask)
            && s[start + length..] == r.rest
  {
    var r := ParsePayload(s, cursor, first, masked, length);
    var start := cursor + |MaskBytes(r.mask)|;
    if masked { MaskedTwice(s[start..start + length], r.mask.value); }
    hide Masked;
  }

  lemma FiveParts(s: Bytes, a: nat, b: nat, c: nat)
    requires 2 <= a <= b <= c <= |s|
    ensures s == [s[0], s[1]] + s[2..a] + s[a..b] + s[b..c] + s[c..]
  {}

  /** The parts of an accepted frame. */
  lemma ParsedParts(s: Bytes, clientSide: bool)
    requires ParseFrame(s, clientSide).Parsed?
    ensures var r, l := ParseFrame(s, clientSide), ParseLength(s);
            && Wellformed(r.frame) && r.mask.Some? == !clientSide && l.LengthIs?
            && var start := l.cursor + |MaskBytes(r.mask)|;
            && start + l.length <= |s| && l.length == |r.frame.payload|
            && s[0] == FirstByte(r.frame) && s[1] == SecondByte(r.frame, r.mask)
            && s[2..l.cursor] == LengthField(l.length) && s[l.cursor..start] == MaskBytes(r.mask)
            && s[start..start + l.length] == Wire(r.frame.payload, r.mask) && s[start + l.length..] == r.rest
  {
    hide LengthField, Wire, MaskBytes, ParseLength, ParsePayload, LengthCode;
    var l := ParseLength(s);
    ParsedLengthIsPrinted(s);
    ParsedPayloadIsPrinted(s, l.cursor, s[0], s[1] >= 128, l.length);
  }

  lemma FrameBytesOf(frame: Frame, mask: Option<Mask>)
    requires Wellformed(frame)
    ensures FrameBytes(frame, mask) ==
            [FirstByte(frame), SecondByte(frame, mask)] + LengthField(|frame.payload|) + MaskBytes(mask) + Wire(frame.payload, mask)
  {}

  /** Whatever is accepted is exactly what the other side prints for the frame: the length is minimal, the mask is present as demanded. */
  lemma ParsedIsPrinted(s: Bytes, clientSide: bool)
    requires ParseFrame(s, clientSide).Parsed?
    ensures var r := ParseFrame(s, clientSide);
            Wellformed(r.frame) && r.mask.Some? == !clientSide && s == FrameBytes(r.frame, r.mask) + r.rest
  {
    ParsedParts(s, clientSide);
    hide LengthField, LengthCode, Wire, MaskBytes, ParseFrame, ParseLength, ParsePayload, Wellformed, FirstByte, SecondByte;
    var r, l := ParseFrame(s, clientSide), ParseLength(s);
    var start := l.cursor + |MaskBytes(r.mask)|;
    FiveParts(s, l.cursor, start, start + l.length);
    FrameBytesOf(r.frame, r.mask);
  }

  /** A frame that has not arrived completely is recognised as such, and so is a fault: more bytes change only the former. */
  lemma VerdictIsStable(s: Bytes, more: Bytes, clientSide: bool)
    ensures match ParseFrame(s, clientSide)
            case Incomplete => true
            case Faulty(fault) => ParseFrame(s + more, clientSide) == Faulty(fault)
            case Parsed(frame, mask, rest) => ParseFrame(s + more, clientSide) == Parsed(frame, mask, rest + more)
  {
    var t := s + more;
    if |s| >= 2 {
      assert t[0] == s[0] && t[1] == s[1];
      var cursor := 2 + ExtraLength(s[1] % 128);
      if |s| >= cursor {
        assert t[2..cursor] == s[2..cursor];
        if cursor > 2 { assert t[2] == s[2]; }
        PayloadIsStable(s, more, cursor, s[0], s[1] >= 128, ParseLength(s));
      }
      hide NumberOf, ParsePayload;
    }
  }

  lemma SliceIsStable(s: Bytes, more: Bytes, a: nat, b: nat)
    requires a <= b <= |s|
    ensures (s + more)[a..b] == s[a..b] && (s + more)[b..] == s[b..] + more
  {}

  lemma PayloadIsStable(s: Bytes, more: Bytes, cursor: nat, first: Byte, masked: bool, length: LengthParse)
    requires cursor <= |s|
    ensures length.LengthIs? ==>
              match ParsePayload(s, cursor, first, masked, length.length)
              case Incomplete => true
              case Faulty(fault) => ParsePayload(s + more, cursor, first, masked, length.length) == Faulty(fault)
              case Parsed(frame, mask, rest) => ParsePayload(s + more, cursor, first, masked, length.length) == Parsed(frame, mask, rest + more)
  {
    hide Masked, Wire;
    if length.LengthIs? {
      var start, n := cursor + (if masked then 4 else 0), length.length;
      if |s| >= start + n {
        SliceIsStable(s, more, start, start + n);
        SliceIsStable(s, more, cursor, start);
      }
    }
  }

  // ---- the layout of a frame

  /** A bit of a number, counted from the least significant one. */
  function Bit(n: nat, k: nat): nat {
    if k == 0 then n % 2 else Bit(n / 2, k - 1)
  }

  lemma {:induction false} XorBit(a: nat, b: nat, k: nat)
    ensures Bit(Xor(a, b), k) == if Bit(a, k) == Bit(b, k) then 0 else 1
    decreases k
  {
    if a == 0 && b == 0 {
      ZeroBit(k);
    } else {
      var low, high := (a % 2 + b % 2) % 2, Xor(a / 2, b / 2);
      assert Xor(a, b) == low + 2 * high;
      assert (low + 2 * high) % 2 == low && (low + 2 * high) / 2 == high;
      if k > 0 { XorBit(a / 2, b / 2, k - 1); }
    }
  }

  lemma {:induction false} ZeroBit(k: nat)
    ensures Bit(0, k) == 0
  {
    if k > 0 { ZeroBit(k - 1); }
  }

  /** Masking flips exactly the bits that are set in the byte of the mask that belongs to the position. */
  lemma MaskFlipsBits(payload: Bytes, mask: Mask, i: nat, k: nat)
    requires i < |payload| && k < 8
    ensures Bit(Masked(payload, mask)[i], k) == if Bit(payload[i], k) == Bit(mask[i % 4], k) then 0 else 1
  {
    XorBit(payload[i], mask[i % 4], k);
    hide Bit, Xor;
  }

  lemma NumberOfTwo(s: Bytes)
    requires |s| == 2
    ensures NumberOf(s) == s[0] as int * 256 + s[1] as int
  {
    var one := s[..1];
    assert s[..|s| - 1] == one && one[..|one| - 1] == [];
    assert NumberOf(one) == s[0] as int;
  }

  /** The bytes of a frame as section 5.2 of RFC 6455 lays them out. */
  lemma FrameLayout(frame: Frame, mask: Option<Mask>)
    requires Wellformed(frame)
    ensures var bytes, n := FrameBytes(frame, mask), |frame.payload|;
            var extra := if n <= 125 then 0 else if n <= 65535 then 2 else 8;
            var start := 2 + extra + if mask.Some? then 4 else 0;
            && |bytes| == start + n
            && bytes[0] == (if frame.final then 128 else 0) + frame.opcode
            && bytes[1] == (if mask.Some? then 128 else 0) + (if n <= 125 then n else if n <= 65535 then 126 else 127)
            && (125 < n <= 65535 ==> bytes[2] as int * 256 + bytes[3] as int == n)
            && (n > 65535 ==> NumberOf(bytes[2..10]) == n)
            && (mask.Some? ==> bytes[2 + extra..start] == mask.value)
            && bytes[start..] == (if mask.Some? then Masked(frame.payload, mask.value) else frame.payload)
  {
    var n := |frame.payload|;
    PayloadWithinLimit(frame);
    LengthFieldIsRead(n);
    PrintedParts(frame, mask, []);
    FrameBytesOf(frame, mask);
    WireLength(frame.payload, mask);
    if 125 < n <= 65535 { NumberOfTwo(LengthField(n)); }
    hide FrameBytes, NumberOf, LengthField, Masked;
    assert FrameBytes(frame, mask) + [] == FrameBytes(frame, mask);
    var bytes, start := FrameBytes(frame, mask), 2 + |LengthField(n)| + |MaskBytes(mask)|;
    assert bytes[start..] == bytes[start..start + n];
  }
}
