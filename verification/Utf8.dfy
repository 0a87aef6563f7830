/** Strict UTF-8 (section 4 of RFC 3629) as it is checked for WebSocket text. */
module Utf8 {
  import opened Wrappers
  import opened Octets
  import opened Text

  // ---- the definition: concatenations of encoded scalar values

  predicate IsScalar(c: int) {
    0 <= c < 0xD800 || 0xE000 <= c <= 0x10FFFF
  }

  function Encode(c: nat): Bytes
    requires IsScalar(c)
  {
    if c < 0x80 then [c]
    else if c < 0x800 then [0xC0 + c / 64, 0x80 + c % 64]
    else if c < 0x10000 then [0xE0 + c / 4096, 0x80 + c / 64 % 64, 0x80 + c % 64]
    else [0xF0 + c / 262144, 0x80 + c / 4096 % 64, 0x80 + c / 64 % 64, 0x80 + c % 64]
  }

  predicate AllScalars(codes: seq<nat>) {
    forall i :: 0 <= i < |codes| ==> IsScalar(codes[i])
  }

  function EncodeAll(codes: seq<nat>): Bytes
    requires AllScalars(codes)
  {
    if codes == [] then [] else Encode(codes[0]) + EncodeAll(codes[1..])
  }

  ghost predicate WellFormed(s: Bytes) {
    exists codes :: AllScalars(codes) && EncodeAll(codes) == s
  }

  // ---- the decoder

  predicate Continuation(b: Byte) {
    0x80 <= b < 0xC0
  }

  /** How many continuation bytes a leading byte announces, and the bits it contributes. */
  function Lead(b: Byte): Option<(nat, nat)> {
    if b <= 0x7F then Some((0, b))
    else if 0xC2 <= b <= 0xDF then Some((1, b - 0xC0))
    else if 0xE0 <= b <= 0xEF then Some((2, b - 0xE0))
    else if 0xF0 <= b <= 0xF4 then Some((3, b - 0xF0))
    else None
  }

  /** Six more bits. */
  function Extended(code: nat, next: Byte): nat
    requires Continuation(next)
  {
    code * 64 + (next as int - 0x80)
  }

  /** The code point of a leading value and the first `count` bytes behind the leading byte. */
  function Folded(s: Bytes, lead: nat, count: nat): Option<nat>
    requires count < |s|
  {
    if count == 0 then Some(lead)
    else
      var code := Folded(s, lead, count - 1);
      if code.None? || !Continuation(s[count]) then None else Some(Extended(code.value, s[count]))
  }

  predicate Admitted(code: nat, count: nat) {
    && (count == 2 ==> code >= 0x800) && (count == 3 ==> code >= 0x10000)
    && code <= 0x10FFFF && !(0xD800 <= code <= 0xDFFF)
  }

  /** The first scalar value and the number of its continuation bytes. */
  function First(s: Bytes): Option<(nat, nat)>
    requires s != []
  {
    var lead := Lead(s[0]);
    if lead.None? || lead.value.0 >= |s| then None
    else
      var (count, bits) := lead.value;
      var code := Folded(s, bits, count);
      if code.None? || (count > 0 && !Admitted(code.value, count)) then None else Some((code.value, count))
  }

  function Decode(s: Bytes): Option<seq<nat>> {
    if s == [] then Some([])
    else
      var first := First(s);
      if first.None? then None
      else
        FirstFits(s);
        var more := Decode(s[first.value.1 + 1..]);
        if more.None? then None else Some([first.value.0] + more.value)
  }

  lemma FirstFits(s: Bytes)
    requires s != []
    ensures First(s).Some? ==> First(s).value.1 < |s| && First(s).value.1 <= 3
  {
    hide Folded;
  }

  lemma DecodeStep(s: Bytes)
    requires s != []
    ensures var first := First(s);
            if first.None? then Decode(s) == None
            else
              && first.value.1 < |s|
              && var more := Decode(s[first.value.1 + 1..]);
              Decode(s) == if more.None? then None else Some([first.value.0] + more.value)
  {
    FirstFits(s);
    hide First;
  }

  lemma DecodeNothing()
    ensures Decode([]) == Some([])
  {}

  /** The loop over the continuation bytes behind the leading byte at `start`. */
  method Continue(s: Bytes, start: nat, lead: nat, count: nat) returns (code: Option<nat>)
    requires start + count < |s|
    ensures code == Folded(s[start..], lead, count)
  {
    ghost var rest := s[start..];
    var folded := lead;
    var index := start + 1;
    for k := 0 to count
      invariant index == start + 1 + k && Folded(rest, lead, k) == Some(folded)
    {
      var next := s[index];
      assert next == rest[k + 1];
      index := index + 1;
      if !Continuation(next) {
        FoldedFails(rest, lead, k + 1, count);
        return None;
      }
      folded := Extended(folded, next);
    }
    code := Some(folded);
  }

  /** `valid_utf8` */
  method Valid(s: Bytes) returns (valid: bool)
    ensures valid <==> WellFormed(s)
  {
    DecodeIsWellFormed(s);
    hide Decode, Admitted, Folded, WellFormed;
    var index := 0;
    assert s[0..] == s;
    while index < |s|
      invariant 0 <= index <= |s|
      invariant Decode(s).Some? <==> Decode(s[index..]).Some?
    {
      ghost var rest := s[index..];
      DecodeStep(rest);
      var lead := Lead(s[index]);
      if lead.None? { return false; }
      var count, bits := lead.value.0, lead.value.1;
      if index + 1 + count > |s| { return false; }
      var code := Continue(s, index, bits, count);
      if code.None? || (count > 0 && !Admitted(code.value, count)) { return false; }
      assert First(rest) == Some((code.value, count));
      index := index + 1 + count;
      assert rest[count + 1..] == s[index..];
    }
    assert s[index..] == [];
    DecodeNothing();
    valid := true;
  }

  lemma {:induction false} FoldedFails(s: Bytes, lead: nat, k: nat, count: nat)
    requires k <= count < |s| && Folded(s, lead, k) == None
    ensures Folded(s, lead, count) == None
    decreases count - k
  {
    if k < count { FoldedFails(s, lead, k + 1, count); }
  }

  // ---- decoding inverts encoding

  lemma FoldedByHand(s: Bytes, lead: nat)
    ensures |s| > 1 && Continuation(s[1]) ==> Folded(s, lead, 1) == Some(Extended(lead, s[1]))
    ensures |s| > 2 && Continuation(s[1]) && Continuation(s[2]) ==> Folded(s, lead, 2) == Some(Extended(Extended(lead, s[1]), s[2]))
    ensures |s| > 3 && Continuation(s[1]) && Continuation(s[2]) && Continuation(s[3]) ==>
              Folded(s, lead, 3) == Some(Extended(Extended(Extended(lead, s[1]), s[2]), s[3]))
  {
    if |s| > 1 { assert Folded(s, lead, 0) == Some(lead); }
  }

  lemma Split64(a: nat, b: nat)
    requires b < 64
    ensures (a * 64 + b) / 64 == a && (a * 64 + b) % 64 == b
  {}

  lemma Split4096(c: nat)
    ensures c / 64 / 64 == c / 4096 && c / 4096 / 64 == c / 262144
    ensures c == c / 64 * 64 + c % 64 && c / 64 == c / 4096 * 64 + c / 64 % 64 && c / 4096 == c / 262144 * 64 + c / 4096 % 64
  {}

  /** The bytes after the leading one carry six bits each. */
  lemma FirstByCount(s: Bytes, count: nat, bits: nat)
    requires count < |s| && count <= 3 && Lead(s[0]) == Some((count, bits))
    requires forall k :: 1 <= k <= count ==> Continuation(s[k])
    ensures var code := if count == 0 then bits
                        else if count == 1 then Extended(bits, s[1])
                        else if count == 2 then Extended(Extended(bits, s[1]), s[2])
                        else Extended(Extended(Extended(bits, s[1]), s[2]), s[3]);
            First(s) == if count > 0 && !Admitted(code, count) then None else Some((code, count))
  {
    FoldedByHand(s, bits);
    assert Folded(s, bits, 0) == Some(bits);
    hide Folded, Admitted;
  }

  lemma FirstOfEncoded(c: nat, rest: Bytes)
    requires IsScalar(c)
    ensures 1 <= |Encode(c)| <= 4 && First(Encode(c) + rest) == Some((c, |Encode(c)| - 1))
  {
    hide First;
    var s, e := Encode(c) + rest, Encode(c);
    Split4096(c);
    var count := |e| - 1;
    forall k | 0 <= k <= count ensures s[k] == e[k] {}
    var bits: nat := if c < 0x80 then c else if c < 0x800 then c / 64 else if c < 0x10000 then c / 4096 else c / 262144;
    assert Lead(s[0]) == Some((count, bits));
    FirstByCount(s, count, bits);
  }

  lemma {:induction false} DecodeOfEncoded(codes: seq<nat>)
    requires AllScalars(codes)
    ensures Decode(EncodeAll(codes)) == Some(codes)
  {
    hide First, Encode, Decode, IsScalar;
    if codes == [] {
      DecodeNothing();
    } else {
      var first, more := Encode(codes[0]), EncodeAll(codes[1..]);
      assert IsScalar(codes[0]);
      FirstOfEncoded(codes[0], more);
      DecodeOfEncoded(codes[1..]);
      DecodeStep(first + more);
      assert (first + more)[|first|..] == more;
      assert [codes[0]] + codes[1..] == codes;
    }
  }

  lemma FirstIsEncoded(s: Bytes)
    requires s != [] && First(s).Some?
    ensures var (code, count) := First(s).value; IsScalar(code) && count < |s| && s[..count + 1] == Encode(code)
  {
    var (count, bits) := Lead(s[0]).value;
    FoldedParts(s, bits, count);
    FirstByCount(s, count, bits);
    hide First, Folded;
    match count
    case 0 => assert s[..1] == [s[0]];
    case 1 => TwoBytes(s, bits);
    case 2 => ThreeBytes(s, bits);
    case 3 => FourBytes(s, bits);
  }

  lemma TwoBytes(s: Bytes, bits: nat)
    requires |s| >= 2 && s[0] == 0xC0 + bits && 2 <= bits < 32 && Continuation(s[1])
    ensures s[..2] == Encode(Extended(bits, s[1]))
  {
    Split64(bits, s[1] - 0x80);
    assert s[..2] == [s[0], s[1]];
  }

  lemma Unpack(bits: nat, b1: nat, b2: nat, b3: nat)
    requires b1 < 64 && b2 < 64 && b3 < 64
    ensures var high := bits * 64 + b1; var middle := high * 64 + b2; var c := middle * 64 + b3;
            && c % 64 == b3 && c / 64 % 64 == b2 && c / 4096 % 64 == b1 && c / 262144 == bits
            && middle / 4096 == bits && middle / 64 % 64 == b1 && middle % 64 == b2
  {
    var high := bits * 64 + b1;
    var middle := high * 64 + b2;
    Split64(bits, b1);
    Split64(high, b2);
    Split64(middle, b3);
    Split4096(middle * 64 + b3);
    Split4096(middle);
  }

  lemma ThreeBytes(s: Bytes, bits: nat)
    requires |s| >= 3 && s[0] == 0xE0 + bits && bits < 16 && Continuation(s[1]) && Continuation(s[2])
    requires IsScalar(Extended(Extended(bits, s[1]), s[2])) && Extended(Extended(bits, s[1]), s[2]) >= 0x800
    ensures s[..3] == Encode(Extended(Extended(bits, s[1]), s[2]))
  {
    var c := Extended(Extended(bits, s[1]), s[2]);
    Unpack(bits, s[1] as int - 0x80, s[2] as int - 0x80, 0);
    assert c / 4096 == bits && c / 64 % 64 == s[1] as int - 0x80 && c % 64 == s[2] as int - 0x80;
    assert c < 0x10000;
    hide Extended;
    assert s[..3] == [s[0], s[1], s[2]];
  }

  lemma FourBytes(s: Bytes, bits: nat)
    requires |s| >= 4 && s[0] == 0xF0 + bits && bits < 5 && Continuation(s[1]) && Continuation(s[2]) && Continuation(s[3])
    requires 0x10000 <= Extended(Extended(Extended(bits, s[1]), s[2]), s[3]) <= 0x10FFFF
    ensures s[..4] == Encode(Extended(Extended(Extended(bits, s[1]), s[2]), s[3]))
  {
    var c := Extended(Extended(Extended(bits, s[1]), s[2]), s[3]);
    Unpack(bits, s[1] as int - 0x80, s[2] as int - 0x80, s[3] as int - 0x80);
    assert c / 262144 == bits && c / 4096 % 64 == s[1] as int - 0x80 && c / 64 % 64 == s[2] as int - 0x80 && c % 64 == s[3] as int - 0x80;
    hide Extended;
    assert s[..4] == [s[0], s[1], s[2], s[3]];
  }

  lemma {:induction false} FoldedParts(s: Bytes, lead: nat, count: nat)
    requires count < |s| && Folded(s, lead, count).Some?
    ensures forall k :: 1 <= k <= count ==> Continuation(s[k])
  {
    if count > 0 { FoldedParts(s, lead, count - 1); }
  }

  lemma EncodedCons(code: nat, codes: seq<nat>)
    requires IsScalar(code) && AllScalars(codes)
    ensures AllScalars([code] + codes) && EncodeAll([code] + codes) == Encode(code) + EncodeAll(codes)
  {
    hide Encode, IsScalar;
    assert ([code] + codes)[1..] == codes;
  }

  lemma {:induction false} DecodedIsEncoded(s: Bytes)
    requires Decode(s).Some?
    ensures AllScalars(Decode(s).value) && EncodeAll(Decode(s).value) == s
    decreases |s|
  {
    hide First, Encode, Decode, IsScalar, AllScalars;
    if s == [] {
      DecodeNothing();
      NoScalars();
    } else {
      DecodeStep(s);
      FirstIsEncoded(s);
      var (code, count) := First(s).value;
      var rest := s[count + 1..];
      DecodedIsEncoded(rest);
      EncodedCons(code, Decode(rest).value);
      assert s == s[..count + 1] + rest;
    }
  }

  lemma NoScalars()
    ensures AllScalars([]) && EncodeAll([]) == []
  {}

  /** A text is decoded exactly when it is a concatenation of encoded scalar values. */
  lemma DecodeIsWellFormed(s: Bytes)
    ensures Decode(s).Some? <==> WellFormed(s)
  {
    if Decode(s).Some? { DecodedIsEncoded(s); }
    if WellFormed(s) {
      var codes :| AllScalars(codes) && EncodeAll(codes) == s;
      DecodeOfEncoded(codes);
    }
  }

  // ---- cutting a text

  /** Within three bytes before any cut there is a cut that does not split a character. */
  lemma {:induction false} CutNearby(codes: seq<nat>, n: nat) returns (k: nat)
    requires AllScalars(codes) && n <= |EncodeAll(codes)|
    ensures k <= n <= k + 3 && WellFormed(EncodeAll(codes)[..k])
  {
    k := 0;
    assert EncodeAll([]) == [];
    if codes != [] && |Encode(codes[0])| <= n {
      var first, more := Encode(codes[0]), EncodeAll(codes[1..]);
      var j := CutNearby(codes[1..], n - |first|);
      k := |first| + j;
      var tail :| AllScalars(tail) && EncodeAll(tail) == more[..j];
      var all := [codes[0]] + tail;
      assert all[1..] == tail;
      assert EncodeAll(codes)[..k] == first + more[..j];
      assert EncodeAll(all) == first + more[..j];
    }
  }

  /** The longest well-formed prefix of at most `limit` bytes. */
  ghost predicate LongestPrefix(r: Bytes, s: Bytes, limit: nat) {
    && r <= s && |r| <= limit && WellFormed(r)
    && forall k :: |r| < k <= limit && k <= |s| ==> !WellFormed(s[..k])
  }

  /** The truncation of a close reason. */
  method Truncate(s: Bytes, limit: nat) returns (r: Bytes)
    requires WellFormed(s)
    ensures LongestPrefix(r, s, limit)
    ensures |s| <= limit ==> r == s
    ensures |s| > limit ==> limit <= |r| + 3
  {
    r := s;
    if |r| > limit { r := r[..limit]; }
    assert s[..|s|] == s;
    ghost var kept := 0;
    ghost var codes :| AllScalars(codes) && EncodeAll(codes) == s;
    if |s| > limit { kept := CutNearby(codes, limit); }
    assert EncodeAll([]) == [];
    while true
      invariant r == s[..|r|] && |r| <= |s| && |r| <= limit
      invariant forall k :: |r| < k <= limit && k <= |s| ==> !WellFormed(s[..k])
      invariant |s| <= limit ==> r == s
      invariant |s| > limit ==> kept <= |r|
      decreases |r|
    {
      var valid := Valid(r);
      if valid || r == [] { break; }
      assert |s| > limit ==> r != s[..kept];
      r := r[..|r| - 1];
    }
  }
}
