/** Base64 (section 4 of RFC 4648): the block encoder, the streaming encoder and the decoder. */
module Base64 {
  import opened Wrappers
  import opened Octets
  import opened Text

  // ---- the alphabet

  function Letter(n: nat): char
    requires n < 64
  {
    if n < 26 then ('A' as int + n) as char
    else if n < 52 then ('a' as int + n - 26) as char
    else if n < 62 then ('0' as int + n - 52) as char
    else if n == 62 then '+' else '/'
  }

  function LetterValue(c: char): (r: Option<nat>)
    ensures r.Some? ==> r.value < 64
  {
    if 'A' <= c <= 'Z' then Some(c as int - 'A' as int)
    else if 'a' <= c <= 'z' then Some(c as int - 'a' as int + 26)
    else if '0' <= c <= '9' then Some(c as int - '0' as int + 52)
    else if c == '+' then Some(62) else if c == '/' then Some(63) else None
  }

  lemma LetterRoundTrip(n: nat)
    requires n < 64
    ensures LetterValue(Letter(n)) == Some(n) && Letter(n) != '='
  {}

  // ---- what is encoded

  /** Three bytes as one number, and the four letters of such a number. */
  function Group(a: Byte, b: Byte, c: Byte): (n: nat)
    ensures n < 0x100_0000
  {
    a as int * 65536 + b as int * 256 + c as int
  }

  function Letters(n: nat): (s: string)
    requires n < 0x100_0000
    ensures |s| == 4
  {
    [Letter(n / 262144), Letter(n / 4096 % 64), Letter(n / 64 % 64), Letter(n % 64)]
  }

  function Encoded(x: Bytes): string {
    if |x| == 0 then ""
    else if |x| == 1 then Letters(Group(x[0], 0, 0))[..2] + "=="
    else if |x| == 2 then Letters(Group(x[0], x[1], 0))[..3] + "="
    else Letters(Group(x[0], x[1], x[2])) + Encoded(x[3..])
  }

  lemma {:induction false} EncodedLength(x: Bytes)
    ensures |Encoded(x)| == (|x| + 2) / 3 * 4
    decreases |x|
  {
    hide Letters;
    if |x| >= 3 { EncodedLength(x[3..]); }
  }

  lemma {:induction false} EncodedAppend(x: Bytes, y: Bytes)
    requires |x| % 3 == 0
    ensures Encoded(x + y) == Encoded(x) + Encoded(y)
    decreases |x|
  {
    hide Letters, Group;
    if x == [] {
      assert x + y == y;
    } else {
      EncodedAppend(x[3..], y);
      assert (x + y)[3..] == x[3..] + y;
    }
  }

  // ---- the block encoder

  /** A text with a part of it replaced. */
  function Overwritten(s: string, at: nat, part: string): (r: string)
    requires at + |part| <= |s|
    ensures |r| == |s|
  {
    s[..at] + part + s[at + |part|..]
  }

  lemma OverwrittenTwice(s: string, at: nat, a: string, b: string)
    requires at + |a| + |b| <= |s|
    ensures Overwritten(Overwritten(s, at, a), at + |a|, b) == Overwritten(s, at, a + b)
  {
    var t := Overwritten(s, at, a);
    assert t[..at + |a|] == s[..at] + a;
    assert t[at + |a| + |b|..] == s[at + |a| + |b|..];
  }

  lemma OverwrittenNothing(s: string, at: nat)
    requires at <= |s|
    ensures Overwritten(s, at, "") == s
  {}

  method WriteLetters(letters: string, output: array<char>, at: nat)
    requires |letters| == 4 && at + 4 <= output.Length
    modifies output
    ensures output[..] == Overwritten(old(output[..]), at, letters)
  {
    output[at] := letters[0];
    output[at + 1] := letters[1];
    output[at + 2] := letters[2];
    output[at + 3] := letters[3];
  }

  /** `base64_encode_blocks`: whole groups are written at a place of the output. */
  method EncodeBlocks(value: Bytes, output: array<char>, at: nat)
    requires |value| % 3 == 0 && at + |value| / 3 * 4 <= output.Length
    modifies output
    ensures |Encoded(value)| == |value| / 3 * 4
    ensures output[..] == Overwritten(old(output[..]), at, Encoded(value))
  {
    hide Encoded, Letters, Overwritten;
    ghost var before := output[..];
    var offset, next := 0, at;
    EmptyEncoded();
    EncodedLength(value);
    assert value[..0] == [];
    OverwrittenNothing(before, at);
    while offset < |value|
      invariant 0 <= offset <= |value| && offset % 3 == 0 && next == at + offset / 3 * 4
      invariant |Encoded(value[..offset])| == offset / 3 * 4
      invariant output[..] == Overwritten(before, at, Encoded(value[..offset]))
    {
      var letters := Letters(Group(value[offset], value[offset + 1], value[offset + 2]));
      WriteLetters(letters, output, next);
      OneGroupMore(value, offset);
      OverwrittenTwice(before, at, Encoded(value[..offset]), letters);
      offset, next := offset + 3, next + 4;
    }
    assert value[..offset] == value;
  }

  lemma OneGroupMore(value: Bytes, offset: nat)
    requires offset % 3 == 0 && offset + 3 <= |value|
    ensures Encoded(value[..offset + 3]) == Encoded(value[..offset]) + Letters(Group(value[offset], value[offset + 1], value[offset + 2]))
  {
    hide Letters;
    var group := value[offset..offset + 3];
    assert value[..offset + 3] == value[..offset] + group;
    EncodedAppend(value[..offset], group);
    assert Encoded(group[3..]) == "";
  }

  /** `base64_encode` */
  method Encode(value: Bytes) returns (text: string)
    ensures text == Encoded(value)
  {
    hide Encoded, Letters, Overwritten;
    var groups := |value| / 3 + if |value| % 3 != 0 then 1 else 0;
    var output := new char[groups * 4];
    ghost var blank := output[..];
    var complete := |value| - |value| % 3;
    EncodeBlocks(value[..complete], output, 0);
    EncodedAppend(value[..complete], value[complete..]);
    EncodedLength(value);
    assert value == value[..complete] + value[complete..];
    if complete != |value| {
      var count := |value| - complete;
      var tail := value[complete..] + if count == 1 then [0, 0] else [0];
      EncodeBlocks(tail, output, complete / 3 * 4);
      OverwrittenTwice(blank, 0, Encoded(value[..complete]), Encoded(tail));
      output[output.Length - 1] := '=';
      if count == 1 { output[output.Length - 2] := '='; }
      Padded(value[complete..], tail);
      OverwrittenAll(blank, Encoded(value[..complete]) + Encoded(tail));
      assert output[..] == Encoded(value[..complete]) + Encoded(value[complete..]);
    } else {
      OverwrittenAll(blank, Encoded(value[..complete]));
      assert value[..complete] == value;
    }
    text := output[..];
  }

  lemma OverwrittenAll(s: string, part: string)
    requires |part| == |s|
    ensures Overwritten(s, 0, part) == part
  {}

  /** The last group with zeros in place of the missing bytes, and how the padding replaces their letters. */
  lemma Padded(x: Bytes, tail: Bytes)
    requires (|x| == 1 && tail == x + [0, 0]) || (|x| == 2 && tail == x + [0])
    ensures |Encoded(tail)| == 4
    ensures |x| == 1 ==> Encoded(x) == Encoded(tail)[..2] + "=="
    ensures |x| == 2 ==> Encoded(x) == Encoded(tail)[..3] + "="
  {
    hide Letters;
    OneGroup(tail);
  }

  lemma OneGroup(x: Bytes)
    requires |x| == 3
    ensures Encoded(x) == Letters(Group(x[0], x[1], x[2]))
  {
    hide Letters;
    assert Encoded(x[3..]) == "";
  }

  // ---- the streaming encoder

  class Encoder {
    var pending: Bytes
    var finished: bool

    ghost predicate Valid()
      reads this
    {
      |pending| < 3
    }

    constructor ()
      ensures Valid() && pending == [] && !finished
    {
      pending, finished := [], false;
    }

    /** Moves bytes into the pending group until it is full. */
    method FillPending(data: Bytes) returns (cursor: nat)
      requires Valid()
      modifies this`pending
      ensures cursor <= |data| && pending + data[cursor..] == old(pending) + data
      ensures |pending| <= 3 && (|pending| < 3 ==> cursor == |data|)
    {
      cursor := 0;
      while |pending| < 3 && cursor < |data|
        invariant cursor <= |data| && |pending| <= 3 && pending + data[cursor..] == old(pending) + data
      {
        assert data[cursor..] == [data[cursor]] + data[cursor + 1..];
        pending := pending + [data[cursor]];
        cursor := cursor + 1;
      }
    }

    /** Keeps what does not fill a group. */
    method KeepRest(data: Bytes, from: nat)
      requires from <= |data| && |pending| + |data| - from < 3
      modifies this`pending
      ensures pending == old(pending) + data[from..]
    {
      var cursor := from;
      assert data[cursor..] == data[from..];
      while cursor < |data|
        invariant from <= cursor <= |data| && pending + data[cursor..] == old(pending) + data[from..]
      {
        assert data[cursor..] == [data[cursor]] + data[cursor + 1..];
        pending := pending + [data[cursor]];
        cursor := cursor + 1;
      }
      assert pending + data[cursor..] == pending;
    }

    /** Prints the pending group when it is full. */
    method FlushPending(output: array<char>) returns (destination: nat)
      requires |pending| == 3 ==> output.Length >= 4
      modifies this`pending, output
      ensures destination == if |old(pending)| == 3 then 4 else 0
      ensures pending == if |old(pending)| == 3 then [] else old(pending)
      ensures |old(pending)| == 3 ==> |Encoded(old(pending))| == 4 && output[..] == Overwritten(old(output[..]), 0, Encoded(old(pending)))
      ensures |old(pending)| != 3 ==> output[..] == old(output[..])
    {
      hide Encoded, Overwritten;
      destination := 0;
      if |pending| == 3 {
        EncodeBlocks(pending, output, destination);
        destination := destination + 4;
        pending := [];
      }
    }

    /** Prints the whole groups behind the pending one, which fills the output. */
    static method WriteMiddle(ghost front: Bytes, middle: Bytes, ghost blank: string, output: array<char>, destination: nat)
      requires |front| % 3 == 0 && |middle| % 3 == 0 && |Encoded(front)| == destination && |blank| == output.Length
      requires output.Length == destination + |middle| / 3 * 4 && output[..] == Overwritten(blank, 0, Encoded(front))
      modifies output
      ensures output[..] == Encoded(front + middle)
    {
      hide Encoded, Overwritten;
      EmptyEncoded();
      if |middle| != 0 {
        EncodeBlocks(middle, output, destination);
      } else {
        OverwrittenNothing(output[..], destination);
      }
      OverwrittenTwice(blank, 0, Encoded(front), Encoded(middle));
      EncodedAppend(front, middle);
      OverwrittenAll(blank, Encoded(front) + Encoded(middle));
    }

    /** `update`: the output is sized in advance and filled exactly. Nothing stands for the exception after `finish`. */
    method Update(data: Bytes) returns (text: Option<string>)
      requires Valid()
      modifies this`pending
      ensures Valid()
      ensures text.None? <==> finished
      ensures text.None? ==> pending == old(pending)
      ensures text.Some? ==> text.value == Encoded(Groups(old(pending) + data)) && pending == Remainder(old(pending) + data)
    {
      if finished { return None; }
      hide Encoded, Overwritten, Groups, Remainder, OutputSize, WholeGroups;
      ghost var all := pending + data;
      var output := new char[OutputSize(|data|, |pending|)];
      ghost var blank := output[..];
      var cursor := FillPending(data);
      ghost var front := if |pending| == 3 then pending else [];
      ghost var rest := if |pending| == 3 then [] else pending;
      Sizes(|old(pending)|, |data|, cursor, |pending| == 3);
      EmptyEncoded();
      OverwrittenNothing(blank, 0);
      var destination := FlushPending(output);
      var complete := WholeGroups(|data| - cursor);
      var middle := data[cursor..cursor + complete];
      WriteMiddle(front, middle, blank, output, destination);
      Parted(front, rest, data[cursor..], all);
      text := Some(output[..]);
      Regrouped(front, rest, data, cursor, complete, all);
      KeepRest(data, cursor + complete);
    }

    /** `finish`: the last group with its padding */
    method Finish() returns (text: string)
      requires Valid()
      modifies this
      ensures Valid() && finished
      ensures text == if old(finished) then "" else Encoded(old(pending))
      ensures pending == if old(finished) then old(pending) else []
    {
      if finished { return ""; }
      finished := true;
      if |pending| == 0 { return ""; }
      var first := pending[0] as int;
      var second := if |pending| == 2 then pending[1] as int else 0;
      LastLetters(first, second);
      text := [Letter(first / 4)] + [Letter(first % 4 * 16 + second / 16)]
              + [if |pending| == 2 then Letter(second % 16 * 4) else '='] + ['='];
      pending := [];
    }

    method Reset()
      modifies this
      ensures Valid() && pending == [] && !finished
    {
      pending, finished := [], false;
    }
  }

  /** The whole groups at the start of some bytes, and what is left. */
  function Groups(x: Bytes): Bytes {
    x[..|x| - |x| % 3]
  }

  function Remainder(x: Bytes): Bytes {
    x[|x| - |x| % 3..]
  }

  /** The output size of an update, and the whole groups among some bytes. */
  function OutputSize(count: nat, pending: nat): nat {
    (count / 3 + (count % 3 + pending) / 3) * 4
  }

  function WholeGroups(count: nat): nat {
    count / 3 * 3
  }

  /** The size computed in advance is what the pending group and the groups behind it need. */
  lemma Sizes(pending: nat, count: nat, cursor: nat, full: bool)
    requires pending < 3 && cursor <= count && if full then pending + cursor == 3 else cursor == count && pending + count < 3
    ensures var complete := WholeGroups(count - cursor);
            && complete <= count - cursor && complete % 3 == 0
            && OutputSize(count, pending) == (if full then 4 else 0) + complete / 3 * 4
            && OutputSize(count, pending) >= if full then 4 else 0
  {}

  lemma Parted(front: Bytes, rest: Bytes, tail: Bytes, all: Bytes)
    requires front == [] || rest == []
    requires (if front == [] then rest else front) + tail == all
    ensures front + rest + tail == all
  {
    assert [] + rest == rest && front + [] == front;
  }

  lemma EmptyEncoded()
    ensures Encoded([]) == ""
  {}

  lemma Regrouped(front: Bytes, pending: Bytes, data: Bytes, cursor: nat, complete: nat, all: Bytes)
    requires cursor <= |data| && complete == WholeGroups(|data| - cursor)
    requires (|front| == 3 && pending == []) || (front == [] && |pending| < 3 && cursor == |data|)
    requires front + pending + data[cursor..] == all
    ensures Groups(all) == front + data[cursor..cursor + complete]
    ensures Remainder(all) == pending + data[cursor + complete..]
    ensures |pending| + |data| - (cursor + complete) < 3
  {
    var middle, rest := data[cursor..cursor + complete], data[cursor + complete..];
    assert data[cursor..] == middle + rest;
    var n := |front| + complete;
    assert n == |all| - |all| % 3;
    if front != [] {
      assert all == front + middle + rest;
    } else {
      assert all == pending;
    }
  }

  lemma LastLetters(first: nat, second: nat)
    requires first < 256 && second < 256
    ensures first / 4 < 64 && first % 4 * 16 + second / 16 < 64 && second % 16 * 4 < 64
    ensures Letters(Group(first, second, 0))[..3] == [Letter(first / 4), Letter(first % 4 * 16 + second / 16), Letter(second % 16 * 4)]
    ensures Letters(Group(first, 0, 0))[..2] == [Letter(first / 4), Letter(first % 4 * 16)]
  {
    TwoByteBits(first, second);
    TwoByteBits(first, 0);
    hide Letter, Group;
  }

  lemma TwoByteBits(first: nat, second: nat)
    requires first < 256 && second < 256
    ensures var n := Group(first, second, 0);
            n / 262144 == first / 4 && n / 4096 % 64 == first % 4 * 16 + second / 16 && n / 64 % 64 == second % 16 * 4
  {
    var n := Group(first, second, 0);
    assert n == (first / 4) * 262144 + (first % 4 * 16 + second / 16) * 4096 + (second % 16 * 4) * 64;
    SplitBits(first / 4, first % 4 * 16 + second / 16, second % 16 * 4, 0);
  }

  /** Four six-bit numbers are recovered from their bits. */
  lemma SplitBits(a: nat, b: nat, c: nat, d: nat)
    requires a < 64 && b < 64 && c < 64 && d < 64
    ensures var n := a * 262144 + b * 4096 + c * 64 + d;
            n / 262144 == a && n / 4096 % 64 == b && n / 64 % 64 == c && n % 64 == d
  {
    var n := a * 262144 + b * 4096 + c * 64 + d;
    assert n / 64 == a * 4096 + b * 64 + c;
    assert n / 4096 == a * 64 + b;
  }

  /** Any sequence of updates, closed by `finish`, prints what the one-shot encoder prints. */
  method EncodeStream(parts: seq<Bytes>) returns (text: string)
    ensures text == Encoded(Flattened(parts))
  {
    hide Encoded, Groups, Remainder;
    var encoder := new Encoder();
    ghost var whole, read: Bytes := [], [];
    text := "";
    EmptyEncoded();
    for i := 0 to |parts|
      invariant encoder.Valid() && !encoder.finished && fresh(encoder)
      invariant read + Flattened(parts[i..]) == Flattened(parts)
      invariant |whole| % 3 == 0 && whole + encoder.pending == read && text == Encoded(whole)
    {
      assert parts[i..][0] == parts[i] && parts[i..][1..] == parts[i + 1..];
      ghost var all := encoder.pending + parts[i];
      GroupsAndRemainder(all);
      var more := encoder.Update(parts[i]);
      EncodedAppend(whole, Groups(all));
      ghost var before := read;
      read := read + parts[i];
      Recombined(whole, Groups(all), Remainder(all), before, all, parts[i]);
      assert before + (parts[i] + Flattened(parts[i + 1..])) == before + parts[i] + Flattened(parts[i + 1..]);
      whole := whole + Groups(all);
      text := text + more.value;
    }
    assert read + [] == read;
    EncodedAppend(whole, encoder.pending);
    var last := encoder.Finish();
    text := text + last;
  }

  function Flattened(parts: seq<Bytes>): Bytes {
    if parts == [] then [] else parts[0] + Flattened(parts[1..])
  }

  lemma GroupsAndRemainder(x: Bytes)
    ensures Groups(x) + Remainder(x) == x && |Groups(x)| % 3 == 0
  {}

  lemma Recombined(whole: Bytes, groups: Bytes, rest: Bytes, before: Bytes, all: Bytes, part: Bytes)
    requires groups + rest == all && exists pending :: all == pending + part && whole + pending == before
    ensures whole + groups + rest == before + part
  {
    var pending :| all == pending + part && whole + pending == before;
    assert whole + (groups + rest) == whole + groups + rest;
    assert whole + (pending + part) == whole + pending + part;
  }

  // ---- the decoder

  /** The bits and the padding of the first `k` letters of a quartet. */
  function Scanned(s: string, last: bool, k: nat): Option<(nat, nat)>
    requires k <= 4 && |s| == 4
  {
    if k == 0 then Some((0, 0))
    else
      var before := Scanned(s, last, k - 1);
      if before.None? then None
      else
        var (bits, padding) := before.value;
        if s[k - 1] == '=' then (if k - 1 < 2 || !last then None else Some((bits * 64, padding + 1)))
        else if LetterValue(s[k - 1]).None? || padding > 0 then None
        else Some((bits * 64 + LetterValue(s[k - 1]).value, padding))
  }

  function Quartet(s: string, last: bool): Option<Bytes>
    requires |s| == 4
  {
    var r := Scanned(s, last, 4);
    if r.None? then None
    else
      Some(BytesOfBits(r.value.0, r.value.1))
  }

  /** The bytes of the bits of a quartet; each padding character takes one away. */
  function BytesOfBits(bits: nat, padding: nat): Bytes {
    if padding == 0 then [bits / 65536 % 256, bits / 256 % 256, bits % 256]
    else if padding == 1 then [bits / 65536 % 256, bits / 256 % 256]
    else [bits / 65536 % 256]
  }

  function Decoded(s: string): Option<Bytes>
    decreases |s|
  {
    if |s| % 4 != 0 then None
    else if s == "" then Some([])
    else
      var first := Quartet(s[..4], |s| == 4);
      if first.None? then None
      else
        var more := Decoded(s[4..]);
        if more.None? then None else Some(first.value + more.value)
  }

  // ---- the implementation of the decoder

  /** The loop over a quartet that is not made of four letters. */
  method ScanQuartet(s: string, last: bool) returns (r: Option<Bytes>)
    requires |s| == 4
    ensures r == Quartet(s, last)
  {
    var bits, padding := 0, 0;
    for index := 0 to 4
      invariant Scanned(s, last, index) == Some((bits, padding))
    {
      if s[index] == '=' {
        if index < 2 || !last {
          ScanFails(s, last, index + 1);
          return None;
        }
        padding := padding + 1;
        bits := bits * 64;
      } else {
        var position := LetterValue(s[index]);
        if position.None? || padding > 0 {
          ScanFails(s, last, index + 1);
          return None;
        }
        bits := bits * 64 + position.value;
      }
    }
    var bytes := [bits / 65536 % 256];
    if padding < 2 { bytes := bytes + [bits / 256 % 256]; }
    if padding == 0 { bytes := bytes + [bits % 256]; }
    assert bytes == BytesOfBits(bits, padding);
    r := Some(bytes);
  }

  lemma {:induction false} ScanFails(s: string, last: bool, k: nat)
    requires |s| == 4 && k <= 4 && Scanned(s, last, k) == None
    ensures Scanned(s, last, 4) == None
    decreases 4 - k
  {
    if k < 4 { ScanFails(s, last, k + 1); }
  }

  /** Four letters are scanned to their bits. */
  lemma LettersAreScanned(s: string, last: bool, a: nat, b: nat, c: nat, d: nat)
    requires |s| == 4 && LetterValue(s[0]) == Some(a) && LetterValue(s[1]) == Some(b)
    requires LetterValue(s[2]) == Some(c) && LetterValue(s[3]) == Some(d)
    ensures Scanned(s, last, 2) == Some((a * 64 + b, 0))
    ensures Scanned(s, last, 3) == Some(((a * 64 + b) * 64 + c, 0))
    ensures Scanned(s, last, 4) == Some((((a * 64 + b) * 64 + c) * 64 + d, 0))
  {
    hide LetterValue;
    assert LetterValue('=') == None by { EqualsIsNoLetter(); }
    assert Scanned(s, last, 0) == Some((0, 0));
    assert Scanned(s, last, 1) == Some((a, 0));
  }

  lemma EqualsIsNoLetter()
    ensures LetterValue('=') == None
  {}

  /** The bytes that the fast path computes. */
  lemma FastBytes(a: nat, b: nat, c: nat, d: nat)
    requires a < 64 && b < 64 && c < 64 && d < 64
    ensures var bits := ((a * 64 + b) * 64 + c) * 64 + d;
            BytesOfBits(bits, 0) == [a * 4 + b / 16, b % 16 * 16 + c / 4, c % 4 * 64 + d]
  {
    var bits := ((a * 64 + b) * 64 + c) * 64 + d;
    SplitBytes(a * 4 + b / 16, b % 16 * 16 + c / 4, c % 4 * 64 + d);
    assert bits == (a * 4 + b / 16) * 65536 + (b % 16 * 16 + c / 4) * 256 + (c % 4 * 64 + d);
  }

  /** Three bytes are recovered from their bits. */
  lemma SplitBytes(a: nat, b: nat, c: nat)
    requires a < 256 && b < 256 && c < 256
    ensures var n := a * 65536 + b * 256 + c; n / 65536 == a && n / 65536 % 256 == a && n / 256 % 256 == b && n % 256 == c
  {
    var n := a * 65536 + b * 256 + c;
    assert n / 256 == a * 256 + b;
  }

  /** `base64_decode`: the output is sized in advance and cut to what was written. */
  method Decode(value: string) returns (r: Option<Bytes>)
    ensures r == Decoded(value)
  {
    hide Quartet, LetterValue;
    if |value| % 4 != 0 { return None; }
    var output: Bytes := [];
    var offset := 0;
    assert value[0..] == value;
    assert Decoded(value).Some? ==> [] + Decoded(value).value == Decoded(value).value;
    while offset < |value|
      invariant 0 <= offset <= |value| && offset % 4 == 0
      invariant Decoded(value) == After(output, Decoded(value[offset..]))
    {
      ghost var rest := value[offset..];
      var quartet := value[offset..offset + 4];
      assert rest[..4] == quartet && rest[4..] == value[offset + 4..];
      var bytes := DecodeQuartet(quartet, offset + 4 == |value|);
      if bytes.None? { return None; }
      AfterAfter(output, bytes.value, Decoded(rest[4..]));
      output := output + bytes.value;
      offset := offset + 4;
    }
    assert Decoded("") == Some([]);
    assert output + [] == output;
    r := Some(output);
  }

  /** One quartet: four letters take the fast path. */
  method DecodeQuartet(s: string, last: bool) returns (r: Option<Bytes>)
    requires |s| == 4
    ensures r == Quartet(s, last)
  {
    hide LetterValue, Scanned;
    var a, b, c, d := LetterValue(s[0]), LetterValue(s[1]), LetterValue(s[2]), LetterValue(s[3]);
    if a.Some? && b.Some? && c.Some? && d.Some? {
      LettersAreScanned(s, last, a.value, b.value, c.value, d.value);
      FastBytes(a.value, b.value, c.value, d.value);
      return Some([a.value * 4 + b.value / 16, b.value % 16 * 16 + c.value / 4, c.value % 4 * 64 + d.value]);
    }
    r := ScanQuartet(s, last);
  }

  function After(output: Bytes, more: Option<Bytes>): Option<Bytes> {
    if more.None? then None else Some(output + more.value)
  }

  lemma AfterAfter(a: Bytes, b: Bytes, more: Option<Bytes>)
    ensures After(a, After(b, more)) == After(a + b, more)
  {
    if more.Some? { assert a + (b + more.value) == a + b + more.value; }
  }

  // ---- decoding inverts encoding

  lemma SixBits(n: nat)
    ensures ((n / 262144 * 64 + n / 4096 % 64) * 64 + n / 64 % 64) * 64 + n % 64 == n
  {
    assert n / 64 / 64 == n / 4096 && n / 4096 / 64 == n / 262144;
    assert n / 4096 == n / 262144 * 64 + n / 4096 % 64;
    assert n / 64 == n / 4096 * 64 + n / 64 % 64;
  }

  lemma LettersDecode(n: nat)
    requires n < 0x100_0000
    ensures var s := Letters(n);
            && LetterValue(s[0]) == Some(n / 262144) && LetterValue(s[1]) == Some(n / 4096 % 64)
            && LetterValue(s[2]) == Some(n / 64 % 64) && LetterValue(s[3]) == Some(n % 64)
            && ((n / 262144 * 64 + n / 4096 % 64) * 64 + n / 64 % 64) * 64 + n % 64 == n
  {
    LetterRoundTrip(n / 262144);
    LetterRoundTrip(n / 4096 % 64);
    LetterRoundTrip(n / 64 % 64);
    LetterRoundTrip(n % 64);
    SixBits(n);
    hide Letter, LetterValue;
  }

  lemma Aligned(k: nat)
    ensures k * 64 / 64 * 64 == k * 64 && k * 4096 / 4096 * 4096 == k * 4096
  {}

  lemma AlignedGroups(a: Byte, b: Byte)
    ensures Group(a, b, 0) / 64 * 64 == Group(a, b, 0) && Group(a, 0, 0) / 4096 * 4096 == Group(a, 0, 0)
  {
    Aligned(a as int * 1024 + b as int * 4);
    Aligned(a as int * 16);
  }

  lemma ThreeBytes(a: Byte, b: Byte, c: Byte)
    ensures var n := Group(a, b, c); n / 65536 % 256 == a && n / 256 % 256 == b && n % 256 == c
  {
    SplitBytes(a, b, c);
  }

  lemma GroupBytes(a: Byte, b: Byte, c: Byte)
    ensures BytesOfBits(Group(a, b, c), 0) == [a, b, c]
    ensures BytesOfBits(Group(a, b, 0) / 64 * 64, 1) == [a, b]
    ensures BytesOfBits(Group(a, 0, 0) / 4096 * 4096, 2) == [a]
  {
    AlignedGroups(a, b);
    ThreeBytes(a, b, c);
    ThreeBytes(a, b, 0);
    ThreeBytes(a, 0, 0);
    hide Group;
  }

  lemma FullQuartet(a: Byte, b: Byte, c: Byte, last: bool)
    ensures Quartet(Letters(Group(a, b, c)), last) == Some([a, b, c])
  {
    hide Letters, LetterValue, Scanned, Group, BytesOfBits;
    var n := Group(a, b, c);
    LettersDecode(n);
    GroupBytes(a, b, c);
    LettersAreScanned(Letters(n), last, n / 262144, n / 4096 % 64, n / 64 % 64, n % 64);
  }

  lemma PaddedQuartet(letters: string, s: string, n: nat)
    requires n < 0x100_0000 && letters == Letters(n)
    ensures s == letters[..3] + "=" ==> Scanned(s, true, 4) == Some((n / 64 * 64, 1))
    ensures s == letters[..2] + "==" ==> Scanned(s, true, 4) == Some((n / 4096 * 4096, 2))
  {
    LettersDecode(n);
    hide Letters, LetterValue;
    assert LetterValue('=') == None by { EqualsIsNoLetter(); }
    if s == letters[..3] + "=" || s == letters[..2] + "==" {
      assert s[0] == letters[0] && s[1] == letters[1] && s[3] == '=';
      assert Scanned(s, true, 0) == Some((0, 0));
      assert Scanned(s, true, 1) == Some((n / 262144, 0));
      assert Scanned(s, true, 2) == Some((n / 4096, 0));
      if s == letters[..3] + "=" {
        assert s[2] == letters[2];
        assert Scanned(s, true, 3) == Some((n / 64, 0));
      } else {
        assert s[2] == '=';
        assert Scanned(s, true, 3) == Some((n / 4096 * 64, 1));
      }
    }
  }

  lemma ShortQuartets(a: Byte, b: Byte)
    ensures Quartet(Letters(Group(a, b, 0))[..3] + "=", true) == Some([a, b])
    ensures Quartet(Letters(Group(a, 0, 0))[..2] + "==", true) == Some([a])
  {
    hide Letters, Scanned, Group, BytesOfBits;
    var n, m := Group(a, b, 0), Group(a, 0, 0);
    PaddedQuartet(Letters(n), Letters(n)[..3] + "=", n);
    PaddedQuartet(Letters(m), Letters(m)[..2] + "==", m);
    GroupBytes(a, b, 0);
  }

  /** Decoding what was encoded gives the bytes back. */
  lemma {:induction false} RoundTrip(x: Bytes)
    ensures Decoded(Encoded(x)) == Some(x)
    decreases |x|
  {
    hide Quartet, Letters, Group;
    EncodedLength(x);
    var s := Encoded(x);
    assert Decoded("") == Some([]);
    if |x| == 1 {
      ShortQuartets(x[0], 0);
      assert s[..4] == s && s[4..] == "" && [x[0]] + [] == x;
    } else if |x| == 2 {
      ShortQuartets(x[0], x[1]);
      assert s[..4] == s && s[4..] == "" && [x[0], x[1]] + [] == x;
    } else if |x| >= 3 {
      RoundTrip(x[3..]);
      FullQuartet(x[0], x[1], x[2], |s| == 4);
      assert s[..4] == Letters(Group(x[0], x[1], x[2])) && s[4..] == Encoded(x[3..]);
      assert x == [x[0], x[1], x[2]] + x[3..];
    }
  }

  // ---- the size of the encoding

  /** `base64_encoded_size` */
  function EncodedSize(size: nat): (r: Option<nat>)
    requires size <= MAX_U64
  {
    if size > MAX_U64 - 2 then None
    else
      var groups := (size + 2) / 3;
      if groups > MAX_U64 / 4 then None else Some(groups * 4)
  }

  /** The size is exact, or it does not fit into 64 bits. */
  lemma EncodedSizeIsExact(x: Bytes)
    requires |x| <= MAX_U64
    ensures EncodedSize(|x|) == if |Encoded(x)| <= MAX_U64 then Some(|Encoded(x)|) else None
  {
    EncodedLength(x);
    hide Encoded;
  }
}
