/** Which texts are Base64, and what they decode to, in terms of the values of their letters. */
module Base64Texts {
  import opened Wrappers
  import opened Octets
  import opened Text
  import opened Base64

  /** The number of padding characters at the end, at most two. */
  function Padding(s: string): nat {
    if s == "" || s[|s| - 1] != '=' then 0 else if |s| == 1 || s[|s| - 2] != '=' then 1 else 2
  }

  /** Whole quartets of letters, with at most two padding characters at the very end. */
  predicate IsBase64(s: string) {
    |s| % 4 == 0 && forall i :: 0 <= i < |s| - Padding(s) ==> LetterValue(s[i]).Some?
  }

  predicate QuartetShape(s: string, last: bool)
    requires |s| == 4
  {
    && (Padding(s) > 0 ==> last) && forall i :: 0 <= i < 4 - Padding(s) ==> LetterValue(s[i]).Some?
  }

  lemma QuartetAccepted(s: string, last: bool)
    requires |s| == 4
    ensures Quartet(s, last).Some? <==> QuartetShape(s, last)
  {
    EqualsIsNoLetter();
    hide LetterValue, BytesOfBits;
    assert Scanned(s, last, 0) == Some((0, 0));
    ScanStep(s, last, 0);
    ScanStep(s, last, 1);
    ScanStep(s, last, 2);
    ScanStep(s, last, 3);
    hide Scanned;
  }

  lemma ScanStep(s: string, last: bool, k: nat)
    requires |s| == 4 && k < 4
    ensures Scanned(s, last, k + 1) ==
            var before := Scanned(s, last, k);
            if before.None? then None
            else if s[k] == '=' then (if k < 2 || !last then None else Some((before.value.0 * 64, before.value.1 + 1)))
            else if LetterValue(s[k]).None? || before.value.1 > 0 then None
            else Some((before.value.0 * 64 + LetterValue(s[k]).value, before.value.1))
  {}

  /** A text is decoded exactly when it is Base64. */
  lemma {:induction false} DecodableTexts(s: string)
    ensures Decoded(s).Some? <==> IsBase64(s)
    decreases |s|
  {
    hide LetterValue, Quartet;
    if |s| % 4 == 0 && s != "" {
      var first, rest := s[..4], s[4..];
      QuartetAccepted(first, |s| == 4);
      DecodableTexts(rest);
      if |s| == 4 {
        assert first == s && rest == "";
      } else {
        EqualsIsNoLetter();
        assert Padding(rest) == Padding(s);
        ShapesMeet(s, first, rest);
      }
    }
  }

  lemma ShapesMeet(s: string, first: string, rest: string)
    requires |s| % 4 == 0 && |s| > 4 && first == s[..4] && rest == s[4..] && Padding(rest) == Padding(s) && LetterValue('=') == None
    ensures IsBase64(s) <==> QuartetShape(first, false) && IsBase64(rest)
  {
    hide LetterValue;
    assert forall i :: 0 <= i < |rest| ==> rest[i] == s[i + 4];
    if IsBase64(s) {
      assert forall i :: 0 <= i < 4 ==> first[i] == s[i] && LetterValue(s[i]).Some?;
      forall i | 0 <= i < |rest| - Padding(rest) ensures LetterValue(rest[i]).Some? { assert LetterValue(s[i + 4]).Some?; }
    }
    if QuartetShape(first, false) && IsBase64(rest) {
      forall i | 0 <= i < |s| - Padding(s) ensures LetterValue(s[i]).Some? {
        if i < 4 { assert first[i] == s[i]; } else { assert rest[i - 4] == s[i]; }
      }
    }
  }

  /** The bytes of a quartet are the leading bits of its letters, six from each. */
  lemma QuartetBits(s: string, last: bool)
    requires |s| == 4 && QuartetShape(s, last)
    ensures var x, a, b := Quartet(s, last), LetterValue(s[0]), LetterValue(s[1]);
            && x.Some? && a.Some? && b.Some? && |x.value| == 3 - Padding(s)
            && (Padding(s) == 2 ==> x.value[0] == (a.value * 64 + b.value) / 16)
            && (Padding(s) == 1 ==>
                  && LetterValue(s[2]).Some?
                  && x.value[0] as int * 256 + x.value[1] as int == ((a.value * 64 + b.value) * 64 + LetterValue(s[2]).value) / 4)
            && (Padding(s) == 0 ==>
                  && LetterValue(s[2]).Some? && LetterValue(s[3]).Some?
                  && x.value[0] as int * 65536 + x.value[1] as int * 256 + x.value[2] as int ==
                     ((a.value * 64 + b.value) * 64 + LetterValue(s[2]).value) * 64 + LetterValue(s[3]).value)
  {
    EqualsIsNoLetter();
    QuartetAccepted(s, last);
    var a, b := LetterValue(s[0]).value, LetterValue(s[1]).value;
    var c := if Padding(s) < 2 then LetterValue(s[2]).value else 0;
    var d := if Padding(s) == 0 then LetterValue(s[3]).value else 0;
    hide LetterValue, BytesOfBits;
    assert Scanned(s, last, 0) == Some((0, 0));
    ScanStep(s, last, 0);
    ScanStep(s, last, 1);
    ScanStep(s, last, 2);
    ScanStep(s, last, 3);
    hide Scanned;
    BitsToBytes(a, b, c, d, Padding(s));
  }

  lemma BitsToBytes(a: nat, b: nat, c: nat, d: nat, padding: nat)
    requires a < 64 && b < 64 && c < 64 && d < 64 && padding <= 2
    requires (padding > 0 ==> d == 0) && (padding == 2 ==> c == 0)
    ensures var bits := ((a * 64 + b) * 64 + c) * 64 + d; var x := BytesOfBits(bits, padding);
            && |x| == 3 - padding
            && (padding == 2 ==> x[0] == (a * 64 + b) / 16)
            && (padding == 1 ==> x[0] as int * 256 + x[1] as int == ((a * 64 + b) * 64 + c) / 4)
            && (padding == 0 ==> Group(x[0], x[1], x[2]) == bits)
  {
    var bits := ((a * 64 + b) * 64 + c) * 64 + d;
    FastBytes(a, b, c, d);
    assert BytesOfBits(bits, 0) == [a * 4 + b / 16, b % 16 * 16 + c / 4, c % 4 * 64 + d];
    assert BytesOfBits(bits, 1) == BytesOfBits(bits, 0)[..2] && BytesOfBits(bits, 2) == BytesOfBits(bits, 0)[..1];
    hide BytesOfBits;
  }

  /** Every encoding is Base64. */
  lemma EncodedIsBase64(x: Bytes)
    ensures IsBase64(Encoded(x))
  {
    hide Encoded, Decoded, IsBase64;
    RoundTrip(x);
    DecodableTexts(Encoded(x));
  }
}
