/** The text form of a row: contracts/record_schema.py. */
module RecordSchema {
  import opened Options

  type Field = Option<string>
  type Row = seq<Field>

  // ---------------------------------------------------------------- printing

  function Text(f: Field): string {
    match f
    case None => ""
    case Some(s) => s
  }

  /** The texts separated by commas. */
  function Join(parts: seq<string>): string {
    if parts == [] then "" else if |parts| == 1 then parts[0] else parts[0] + "," + Join(parts[1..])
  }

  function Texts(row: Row): seq<string> {
    seq(|row|, i requires 0 <= i < |row| => Text(row[i]))
  }

  method FormatRow(row: Row) returns (line: string)
    ensures line == Join(Texts(row))
  {
    var parts: seq<string> := [];
    var i := 0;
    while i < |row|
      invariant i <= |row| && parts == Texts(row)[..i]
    {
      if row[i].None? {
        parts := parts + [""];
      } else {
        parts := parts + [row[i].value];
      }
      i := i + 1;
    }
    assert parts == Texts(row);
    line := Join(parts);
  }

  // ---------------------------------------------------------------- parsing

  predicate IsBreak(c: char) {
    c == '\r' || c == '\n'
  }

  /** The line without its trailing carriage returns and line feeds. */
  function Strip(line: string): (s: string)
    ensures s <= line && (s != [] ==> !IsBreak(s[|s| - 1]))
    ensures forall i :: |s| <= i < |line| ==> IsBreak(line[i])
  {
    if line != [] && IsBreak(line[|line| - 1]) then Strip(line[..|line| - 1]) else line
  }

  /** The texts between the commas. */
  function Split(s: string): (parts: seq<string>)
    ensures |parts| >= 1
  {
    if s == [] then [[]]
    else
      var rest := Split(s[1..]);
      if s[0] == ',' then [[]] + rest else [[s[0]] + rest[0]] + rest[1..]
  }

  function Parsed(part: string): Field {
    if part == "" then None else Some(part)
  }

  function ParseLine(line: string): (row: Row)
    ensures |row| >= 1
  {
    var parts := Split(Strip(line));
    seq(|parts|, i requires 0 <= i < |parts| => Parsed(parts[i]))
  }

  // ---------------------------------------------------------------- round trips

  predicate CommaFree(s: string) {
    ',' !in s
  }

  lemma {:induction false} SplitHead(a: string, s: string)
    requires CommaFree(a)
    ensures Split(a + s) == [a + Split(s)[0]] + Split(s)[1..]
  {
    hide Split;
    var tail := Split(s);
    if a == [] {
      assert a + s == s && a + tail[0] == tail[0];
      assert tail == [tail[0]] + tail[1..];
    } else {
      SplitHead(a[1..], s);
      SplitStep(a + s);
      assert (a + s)[1..] == a[1..] + s && (a + s)[0] == a[0];
      FrontChar(a, tail[0], tail[1..]);
    }
  }

  lemma FrontChar(a: string, s: string, parts: seq<string>)
    requires a != []
    ensures [[a[0]] + ([a[1..] + s] + parts)[0]] + ([a[1..] + s] + parts)[1..] == [a + s] + parts
  {
    assert [a[0]] + (a[1..] + s) == a + s;
  }

  /** Splitting undoes joining. */
  lemma {:induction false} SplitJoin(parts: seq<string>)
    requires parts != [] && forall i :: 0 <= i < |parts| ==> CommaFree(parts[i])
    ensures Split(Join(parts)) == parts
  {
    var head := parts[0];
    if |parts| == 1 {
      SplitHead(head, "");
      assert head + "" == head && Split("") == [""];
      assert Join(parts) == head;
    } else {
      SplitJoin(parts[1..]);
      var tail := "," + Join(parts[1..]);
      assert tail[1..] == Join(parts[1..]);
      SplitHead(head, tail);
      assert Join(parts) == head + tail;
      assert Split(tail) == [[]] + parts[1..];
      assert head + [] == head && parts == [head] + parts[1..];
    }
  }

  /** Joining undoes splitting, and no part holds a comma. */
  lemma {:induction false} JoinSplit(s: string)
    ensures Join(Split(s)) == s
    ensures forall i :: 0 <= i < |Split(s)| ==> CommaFree(Split(s)[i])
  {
    if s != [] {
      JoinSplit(s[1..]);
      var rest := Split(s[1..]);
      hide Split;
      SplitStep(s);
      assert s == [s[0]] + s[1..];
      if s[0] == ',' {
        JoinComma(rest);
      } else {
        JoinChar(s[0], rest);
      }
    } else {
      assert Split(s) == [[]];
    }
  }

  lemma SplitStep(s: string)
    requires s != []
    ensures Split(s) == if s[0] == ',' then [[]] + Split(s[1..]) else [[s[0]] + Split(s[1..])[0]] + Split(s[1..])[1..]
  {
  }

  lemma JoinComma(parts: seq<string>)
    requires parts != []
    ensures Join([[]] + parts) == "," + Join(parts)
  {
    assert ([[]] + parts)[1..] == parts;
  }

  lemma JoinChar(c: char, parts: seq<string>)
    requires parts != []
    ensures Join([[c] + parts[0]] + parts[1..]) == [c] + Join(parts)
  {
    var parts' := [[c] + parts[0]] + parts[1..];
    assert parts'[1..] == parts[1..];
    if |parts| > 1 {
      assert [c] + (parts[0] + "," + Join(parts[1..])) == [c] + parts[0] + "," + Join(parts[1..]);
    }
  }

  lemma {:induction false} StripFixed(s: string)
    requires s == [] || !IsBreak(s[|s| - 1])
    ensures Strip(s) == s
  {
  }

  /** Printing a parsed line gives the line back without its line end. */
  lemma PrintParsed(line: string)
    ensures Join(Texts(ParseLine(line))) == Strip(line)
  {
    var parts := Split(Strip(line));
    JoinSplit(Strip(line));
    assert Texts(ParseLine(line)) == parts;
  }

  /** The rows whose text can be read back: at least one field, no empty text, no comma, and no
      line break at the very end. */
  predicate Printable(row: Row) {
    && row != []
    && (forall i :: 0 <= i < |row| ==> row[i].Some? ==> row[i].value != "" && CommaFree(row[i].value))
    && (row[|row| - 1].Some? ==> !IsBreak(row[|row| - 1].value[|row[|row| - 1].value| - 1]))
  }

  /** The end of a joined text is the end of its last part. */
  lemma {:induction false} JoinEnd(parts: seq<string>)
    requires parts != []
    ensures parts[|parts| - 1] != "" ==>
              Join(parts) != "" && Join(parts)[|Join(parts)| - 1] == parts[|parts| - 1][|parts[|parts| - 1]| - 1]
    ensures parts[|parts| - 1] == "" ==> Join(parts) == "" || Join(parts)[|Join(parts)| - 1] == ','
  {
    if |parts| > 1 {
      JoinEnd(parts[1..]);
      var rest := Join(parts[1..]);
      assert Join(parts) == parts[0] + "," + rest;
      if rest == "" {
        assert Join(parts) == parts[0] + ",";
      }
    }
  }

  lemma ReadBack(row: Row)
    requires Printable(row)
    ensures ParseLine(Join(Texts(row))) == row
  {
    hide Split, Join, Strip;
    var parts := Texts(row);
    JoinEnd(parts);
    StripFixed(Join(parts));
    forall i | 0 <= i < |parts|
      ensures CommaFree(parts[i])
    {
    }
    SplitJoin(parts);
    assert ParseLine(Join(parts)) == seq(|parts|, i requires 0 <= i < |parts| => Parsed(parts[i]));
  }

  lemma ParsedPrintable(line: string)
    ensures Printable(ParseLine(line))
  {
    var s := Strip(line);
    var parts, row := Split(s), ParseLine(line);
    JoinSplit(s);
    JoinEnd(parts);
  }

  /** A row is read back from its text exactly when it is printable: nulls and nonempty texts
      without commas, at least one of them, the last not ending in a line break. */
  lemma RoundTripExactly(row: Row)
    ensures ParseLine(Join(Texts(row))) == row <==> Printable(row)
  {
    if Printable(row) {
      ReadBack(row);
    }
    ParsedPrintable(Join(Texts(row)));
  }

  // ---------------------------------------------------------------- line ends and commas

  /** A line feed, a carriage return or both at the end of a line do not matter. */
  lemma LineEnds(line: string)
    ensures ParseLine(line + "\n") == ParseLine(line + "\r") == ParseLine(line + "\r\n") == ParseLine(line)
  {
    StripBreak(line, '\n');
    StripBreak(line, '\r');
    StripBreak(line + "\r", '\n');
    assert line + "\r" + "\n" == line + "\r\n";
  }

  lemma StripBreak(line: string, c: char)
    requires c == '\r' || c == '\n'
    ensures Strip(line + [c]) == Strip(line)
  {
    assert (line + [c])[..|line|] == line;
  }

  /** Nothing else is stripped. */
  lemma OtherEnds(line: string, c: char)
    requires c != '\r' && c != '\n'
    ensures Strip(line + [c]) == line + [c]
  {
  }

  function Commas(s: string): nat {
    if s == [] then 0 else Commas(s[1..]) + if s[0] == ',' then 1 else 0
  }

  /** A line has one field more than it has commas. */
  lemma {:induction false} FieldsAreCommas(s: string)
    ensures |Split(s)| == Commas(s) + 1
  {
    if s != [] {
      FieldsAreCommas(s[1..]);
    }
  }

  lemma FieldCount(line: string)
    ensures |ParseLine(line)| == Commas(Strip(line)) + 1
  {
    FieldsAreCommas(Strip(line));
  }
}
