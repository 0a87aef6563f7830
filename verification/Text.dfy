/** Text helpers shared by the protocol modules: searching, trimming, case folding and numbers.
    One `char` stands for one byte of text. */
module Text {
  import opened Wrappers

  // ---- searching

  predicate At(s: string, i: int, pattern: string) {
    0 <= i && i + |pattern| <= |s| && s[i..i + |pattern|] == pattern
  }

  /** `find`: the first occurrence of a pattern at or after `from`, or -1. */
  function Find(s: string, pattern: string, from: nat): (r: int)
    ensures r == -1 || from <= r
    ensures r != -1 ==> At(s, r, pattern)
    ensures forall i :: from <= i && (r == -1 || i < r) ==> !At(s, i, pattern)
    decreases |s| - from
  {
    if from > |s| then -1 else if At(s, from, pattern) then from else Find(s, pattern, from + 1)
  }

  /** An occurrence is the first one as soon as nothing before it matches. */
  lemma FindIs(s: string, pattern: string, from: nat, i: nat)
    requires from <= i && At(s, i, pattern)
    requires forall j :: from <= j < i ==> !At(s, j, pattern)
    ensures Find(s, pattern, from) == i
  {}

  lemma AtInMiddle(a: string, pattern: string, b: string)
    ensures At(a + pattern + b, |a|, pattern)
  {
    assert (a + pattern + b)[|a|..|a| + |pattern|] == pattern;
  }

  /** Characters that only see a prefix of `s` do not care about what follows it. */
  lemma AtPrefix(s: string, more: string, i: int, pattern: string)
    requires i + |pattern| <= |s|
    ensures At(s + more, i, pattern) == At(s, i, pattern)
  {
    if 0 <= i { assert (s + more)[i..i + |pattern|] == s[i..i + |pattern|]; }
  }

  lemma AtDrop(s: string, n: nat, i: int, pattern: string)
    requires n <= |s| && n <= i
    ensures At(s[n..], i - n, pattern) == At(s, i, pattern)
  {
    if i + |pattern| <= |s| { assert s[n..][i - n..i - n + |pattern|] == s[i..i + |pattern|]; }
  }

  lemma CharAt(s: string, i: nat, c: char)
    requires i < |s|
    ensures At(s, i, [c]) <==> s[i] == c
  {
    assert s[i..i + 1] == [s[i]];
  }

  predicate Free(s: string, c: char) {
    forall i :: 0 <= i < |s| ==> s[i] != c
  }

  predicate OneLine(s: string) {
    Free(s, '\r') && Free(s, '\n')
  }

  lemma FindAbsent(s: string, c: char)
    requires Free(s, c)
    ensures Find(s, [c], 0) == -1
  {
    forall i | 0 <= i ensures !At(s, i, [c]) { if i + 1 <= |s| { assert s[i..i + 1][0] == s[i]; } }
  }

  lemma FindInSuffix(s: string, pattern: string, from: nat)
    requires from <= |s|
    ensures Find(s[from..], pattern, 0) == if Find(s, pattern, from) == -1 then -1 else Find(s, pattern, from) - from
  {
    var r := Find(s, pattern, from);
    forall i: nat ensures At(s[from..], i, pattern) == At(s, i + from, pattern) { AtDrop(s, from, i + from, pattern); }
    if r != -1 {
      assert At(s[from..], r - from, pattern);
      FindIs(s[from..], pattern, 0, r - from);
    }
  }

  lemma FoundWithin(s: string, pattern: string, from: nat)
    ensures Find(s, pattern, from) == -1 || from <= Find(s, pattern, from) <= |s| - |pattern|
  {}

  /** `rfind` of a character: its last occurrence, or -1. */
  function FindLast(s: string, c: char): (r: int)
    ensures -1 <= r < |s|
    ensures r != -1 ==> s[r] == c
    ensures forall i :: r < i < |s| ==> s[i] != c
  {
    if s == "" then -1 else if s[|s| - 1] == c then |s| - 1 else FindLast(s[..|s| - 1], c)
  }

  // ---- searching a text that grows at its end

  lemma FoundInPrefix(s: string, more: string, pattern: string)
    requires Find(s, pattern, 0) != -1
    ensures Find(s + more, pattern, 0) == Find(s, pattern, 0)
  {
    var r := Find(s, pattern, 0);
    FoundWithin(s, pattern, 0);
    forall i | 0 <= i <= r ensures At(s + more, i, pattern) == At(s, i, pattern) { AtPrefix(s, more, i, pattern); }
    FindIs(s + more, pattern, 0, r);
  }

  lemma NotInPrefix(s: string, more: string, pattern: string)
    requires Find(s, pattern, 0) == -1
    ensures Find(s + more, pattern, 0) == -1 || Find(s + more, pattern, 0) + |pattern| > |s|
  {
    forall i | 0 <= i && i + |pattern| <= |s| ensures !At(s + more, i, pattern) { AtPrefix(s, more, i, pattern); }
  }

  /** A later search may start where a match could still begin. */
  lemma FindResumed(s: string, more: string, pattern: string, from: nat)
    requires Find(s, pattern, 0) == -1 && (from == 0 || from + |pattern| <= |s| + 1)
    ensures Find(s + more, pattern, from) == Find(s + more, pattern, 0)
  {
    var t := s + more;
    forall j | 0 <= j < from ensures !At(t, j, pattern) { AtPrefix(s, more, j, pattern); }
    var r := Find(t, pattern, from);
    if r != -1 { FindIs(t, pattern, 0, r); }
  }

  // ---- joining

  function Join(pieces: seq<string>): string {
    if pieces == [] then "" else pieces[0] + Join(pieces[1..])
  }

  lemma EmptyFirst(s: string)
    ensures "" + s == s && s + "" == s
  {}

  lemma Regroup<T>(a: seq<T>, b: seq<T>, c: seq<T>)
    ensures a + (b + c) == a + b + c
  {}

  lemma JoinNone()
    ensures Join([]) == ""
  {}

  lemma JoinOne(s: string)
    ensures Join([s]) == s
  {
    assert [s][1..] == [];
  }

  lemma JoinFirst(block: string, blocks: seq<string>)
    ensures Join([block] + blocks) == block + Join(blocks)
  {
    assert ([block] + blocks)[1..] == blocks;
  }

  lemma {:induction false} JoinAppend(a: seq<string>, b: seq<string>)
    ensures Join(a + b) == Join(a) + Join(b)
  {
    if a == [] {
      assert a + b == b;
    } else {
      assert (a + b)[1..] == a[1..] + b;
      JoinAppend(a[1..], b);
    }
  }

  // ---- ASCII case

  function LowerChar(c: char): char {
    if 'A' <= c <= 'Z' then (c as int + 32) as char else c
  }

  function Lower(s: string): (r: string)
    ensures |r| == |s| && forall i :: 0 <= i < |s| ==> r[i] == LowerChar(s[i])
  {
    seq(|s|, i requires 0 <= i < |s| => LowerChar(s[i]))
  }

  predicate EqualsIgnoreCase(a: string, b: string) {
    |a| == |b| && forall i :: 0 <= i < |a| ==> LowerChar(a[i]) == LowerChar(b[i])
  }

  // ---- trimming

  predicate Blank(c: char) {
    c == ' ' || c == '\t'
  }

  function TrimLeft(s: string): string {
    if s != "" && Blank(s[0]) then TrimLeft(s[1..]) else s
  }

  function TrimRight(s: string): string {
    if s != "" && Blank(s[|s| - 1]) then TrimRight(s[..|s| - 1]) else s
  }

  function TrimBlank(s: string): string {
    TrimRight(TrimLeft(s))
  }

  /** Without blanks at either end, which is what a field value looks like after parsing. */
  predicate Trimmed(s: string) {
    s == "" || (!Blank(s[0]) && !Blank(s[|s| - 1]))
  }

  lemma {:induction false} TrimRightKeeps(s: string)
    ensures TrimRight(s) <= s
    ensures TrimRight(s) != "" ==> !Blank(TrimRight(s)[|TrimRight(s)| - 1])
    decreases |s|
  {
    if s != "" && Blank(s[|s| - 1]) { TrimRightKeeps(s[..|s| - 1]); }
  }

  lemma TrimmedStays(s: string)
    requires Trimmed(s)
    ensures TrimBlank(s) == s && TrimBlank(" " + s) == s
  {
    assert (" " + s)[1..] == s;
    assert TrimLeft(" " + s) == TrimLeft(s) == s;
  }

  /** `isspace` in the C locale */
  predicate IsSpace(c: char) {
    c == ' ' || '\t' <= c <= '\r'
  }

  function SpaceLeft(s: string): string {
    if s != "" && IsSpace(s[0]) then SpaceLeft(s[1..]) else s
  }

  function SpaceRight(s: string): string {
    if s != "" && IsSpace(s[|s| - 1]) then SpaceRight(s[..|s| - 1]) else s
  }

  /** `trim` */
  function Trim(s: string): string {
    SpaceRight(SpaceLeft(s))
  }

  predicate Tight(s: string) {
    s == "" || (!IsSpace(s[0]) && !IsSpace(s[|s| - 1]))
  }

  lemma TightStays(s: string)
    requires Tight(s)
    ensures Trim(s) == s && Trim(" " + s) == s
  {
    assert (" " + s)[1..] == s;
    assert SpaceLeft(" " + s) == SpaceLeft(s) == s;
  }

  // ---- header fields

  /** The characters of a field name. */
  predicate TokenChar(c: char) {
    && '\U{20}' < c < '\U{7f}'
    && c != '(' && c != ')' && c != '<' && c != '>' && c != '@' && c != ',' && c != ';' && c != ':' && c != '\\'
    && c != '"' && c != '/' && c != '[' && c != ']' && c != '?' && c != '=' && c != '{' && c != '}'
  }

  predicate FieldChar(c: char) {
    c == '\t' || (c >= '\U{20}' && c != '\U{7f}')
  }

  predicate ValidName(s: string) {
    s != "" && forall i :: 0 <= i < |s| ==> TokenChar(s[i])
  }

  predicate ValidValue(s: string) {
    forall i :: 0 <= i < |s| ==> FieldChar(s[i])
  }

  // ---- numbers

  const MAX_U64: nat := 0xFFFF_FFFF_FFFF_FFFF

  function DigitValue(c: char): Option<nat> {
    if '0' <= c <= '9' then Some(c as int - '0' as int)
    else if 'a' <= c <= 'f' then Some(c as int - 'a' as int + 10)
    else if 'A' <= c <= 'F' then Some(c as int - 'A' as int + 10)
    else None
  }

  predicate IsDigit(c: char, base: nat) {
    DigitValue(c).Some? && DigitValue(c).value < base
  }

  function Digit(d: nat): (c: char)
    requires d < 16
    ensures DigitValue(c) == Some(d)
  {
    if d < 10 then ('0' as int + d) as char else ('a' as int + d - 10) as char
  }

  predicate AllDigits(s: string, base: nat) {
    forall i :: 0 <= i < |s| ==> IsDigit(s[i], base)
  }

  function Value(s: string, base: nat): nat
    requires AllDigits(s, base)
  {
    if s == "" then 0
    else
      assert IsDigit(s[|s| - 1], base);
      Value(s[..|s| - 1], base) * base + DigitValue(s[|s| - 1]).value
  }

  /** `from_chars` of an unsigned 64-bit number that has to use the whole text. */
  function ParseNumber(s: string, base: nat): Option<nat> {
    if s == "" || !AllDigits(s, base) then None
    else if Value(s, base) > MAX_U64 then None
    else Some(Value(s, base))
  }

  /** Unsigned division with its remainder. */
  function DivMod(n: nat, base: nat): (r: (nat, nat))
    requires base == 10 || base == 16
    ensures n == r.0 * base + r.1 && r.1 < base
    ensures base <= n ==> r.0 < n
  {
    if base == 10 then (n / 10, n % 10) else (n / 16, n % 16)
  }

  /** `to_chars` and `to_string` */
  function NumberText(n: nat, base: nat): (s: string)
    requires base == 10 || base == 16
    ensures s != "" && AllDigits(s, base)
    decreases n
  {
    hide DivMod;
    if n < base then [Digit(n)] else NumberText(DivMod(n, base).0, base) + [Digit(DivMod(n, base).1)]
  }

  lemma ValueSnoc(s: string, d: nat, base: nat)
    requires d < base <= 16
    requires AllDigits(s, base)
    ensures AllDigits(s + [Digit(d)], base) && Value(s + [Digit(d)], base) == Value(s, base) * base + d
  {
    var t := s + [Digit(d)];
    assert t[..|t| - 1] == s;
  }

  lemma {:induction false} NumberTextValue(n: nat, base: nat)
    requires base == 10 || base == 16
    ensures Value(NumberText(n, base), base) == n
  {
    hide DivMod, Value, Digit, DigitValue;
    if n < base {
      ValueSnoc("", n, base);
      assert "" + [Digit(n)] == NumberText(n, base);
      EmptyValue(base);
    } else {
      NumberTextValue(DivMod(n, base).0, base);
      ValueSnoc(NumberText(DivMod(n, base).0, base), DivMod(n, base).1, base);
    }
  }

  lemma EmptyValue(base: nat)
    ensures Value("", base) == 0
  {}

  /** Printing a number and parsing it again gives the number back. */
  lemma NumberRoundTrip(n: nat, base: nat)
    requires (base == 10 || base == 16) && n <= MAX_U64
    ensures ParseNumber(NumberText(n, base), base) == Some(n)
  {
    NumberTextValue(n, base);
  }
}
