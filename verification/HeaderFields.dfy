/** Header fields as they are printed: one per line, in HTTP messages and in multipart parts. */
module HeaderFields {
  import opened Text

  type Field = (string, string)

  const CRLF := "\r\n"
  const HEAD_END := "\r\n\r\n"

  function FieldLines(fields: seq<Field>): string {
    if fields == [] then "" else fields[0].0 + ": " + fields[0].1 + CRLF + FieldLines(fields[1..])
  }

  lemma {:induction false} FieldLinesAppend(a: seq<Field>, b: seq<Field>)
    ensures FieldLines(a + b) == FieldLines(a) + FieldLines(b)
  {
    if a == [] {
      assert a + b == b;
    } else {
      assert (a + b)[1..] == a[1..] + b;
      FieldLinesAppend(a[1..], b);
    }
  }

  lemma FieldLinesOne(field: Field)
    ensures FieldLines([field]) == field.0 + ": " + field.1 + CRLF
  {
    assert [field][1..] == [];
  }

  /** A field that can be printed on one line. */
  predicate Printable(field: Field) {
    ValidName(field.0) && OneLine(field.1)
  }

  predicate AllPrintable(fields: seq<Field>) {
    forall i :: 0 <= i < |fields| ==> Printable(fields[i])
  }

  function Line(field: Field): string {
    field.0 + ": " + field.1
  }

  /** The lines of a block, without the line end of the last one. */
  function JoinLines(fields: seq<Field>): string
    requires fields != []
  {
    if |fields| == 1 then Line(fields[0]) else Line(fields[0]) + CRLF + JoinLines(fields[1..])
  }

  lemma {:induction false} JoinedFieldLines(fields: seq<Field>)
    requires fields != []
    ensures FieldLines(fields) == JoinLines(fields) + CRLF
  {
    if |fields| == 1 {
      FieldLinesOne(fields[0]);
      assert fields == [fields[0]];
    } else {
      JoinedFieldLines(fields[1..]);
    }
  }

  lemma NameChars(name: string)
    requires ValidName(name)
    ensures OneLine(name) && Free(name, ':') && Tight(name)
  {
    assert TokenChar(name[0]) && TokenChar(name[|name| - 1]);
    forall i | 0 <= i < |name| ensures name[i] != '\r' && name[i] != '\n' && name[i] != ':' { assert TokenChar(name[i]); }
  }

  lemma LineChars(field: Field)
    requires Printable(field)
    ensures OneLine(Line(field)) && |Line(field)| > 0 && Line(field)[0] != '\r'
  {
    NameChars(field.0);
    var line := Line(field);
    forall i | 0 <= i < |line| ensures line[i] != '\r' && line[i] != '\n' {
      assert line[i] == if i < |field.0| then field.0[i] else if i < |field.0| + 2 then ": "[i - |field.0|] else field.1[i - |field.0| - 2];
    }
  }

  lemma FindLineEnd(line: string, rest: string)
    requires OneLine(line)
    ensures Find(line + CRLF + rest, CRLF, 0) == |line|
    ensures (line + CRLF + rest)[0..|line|] == line && (line + CRLF + rest)[|line| + 2..] == rest
    ensures Find(line, CRLF, 0) == -1
  {
    var s := line + CRLF + rest;
    AtInMiddle(line, CRLF, rest);
    forall i | 0 <= i < |line| ensures !At(s, i, CRLF) && !At(line, i, CRLF) {
      if i + 2 <= |s| { assert s[i..i + 2][0] == line[i]; }
      if i + 2 <= |line| { assert line[i..i + 2][0] == line[i]; }
    }
    FindIs(s, CRLF, 0, |line|);
  }

  lemma ValidIsOneLine(s: string)
    requires ValidValue(s)
    ensures OneLine(s)
  {
    forall i | 0 <= i < |s| ensures s[i] != '\r' && s[i] != '\n' { assert FieldChar(s[i]); }
  }

  /** The end of the header block is found where it was printed. */
  lemma {:induction false} NoEarlyHeadEnd(fields: seq<Field>, rest: string, i: nat)
    requires fields != [] && AllPrintable(fields) && i < |JoinLines(fields)|
    ensures !At(JoinLines(fields) + HEAD_END + rest, i, HEAD_END)
    decreases |fields|
  {
    var line := Line(fields[0]);
    var s := JoinLines(fields) + HEAD_END + rest;
    LineChars(fields[0]);
    if i < |line| {
      if i + 4 <= |s| { assert s[i..i + 4][0] == s[i] == line[i]; }
    } else {
      LineChars(fields[1]);
      var tail := JoinLines(fields[1..]);
      assert s == line + CRLF + (tail + HEAD_END + rest);
      if i == |line| {
        assert s[i..i + 4][2] == s[i + 2] == tail[0] == Line(fields[1])[0];
      } else if i == |line| + 1 {
        assert s[i] == '\n';
        if i + 4 <= |s| { assert s[i..i + 4][0] == s[i]; }
      } else {
        var n := |line| + 2;
        NoEarlyHeadEnd(fields[1..], rest, i - n);
        assert s[n..] == tail + HEAD_END + rest;
        AtDrop(s, n, i, HEAD_END);
      }
    }
  }
}
