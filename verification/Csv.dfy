/** The CSV export, and a reader for section 2 of RFC 4180 that takes any character as text data. */
module Csv {
  import opened Wrappers
  import opened Text

  const CRLF := "\r\n"

  /** `s.replace('"', "\"\"")`. */
  function DoubleQuotes(s: string): string {
    if s == "" then "" else (if s[0] == '"' then "\"\"" else [s[0]]) + DoubleQuotes(s[1..])
  }

  function EscapeField(s: string): string {
    if ',' in s || '"' in s || '\n' in s || '\r' in s then "\"" + DoubleQuotes(s) + "\"" else s
  }

  function EscapeFields(fields: seq<string>): seq<string> {
    seq(|fields|, i requires 0 <= i < |fields| => EscapeField(fields[i]))
  }

  function RecordText(fields: seq<string>): string {
    Join(EscapeFields(fields), ",") + CRLF
  }

  function FileText(records: seq<seq<string>>): string {
    if records == [] then "" else RecordText(records[0]) + FileText(records[1..])
  }

  lemma {:induction false} FileTextGrows(records: seq<seq<string>>, last: seq<string>)
    ensures FileText(records + [last]) == FileText(records) + RecordText(last)
  {
    if records == [] {
      assert [last][1..] == [] && records + [last] == [last];
      assert RecordText(last) + "" == RecordText(last);
    } else {
      assert (records + [last])[1..] == records[1..] + [last];
      FileTextGrows(records[1..], last);
    }
  }

  method RowsToCsv(columns: seq<string>, rows: seq<seq<string>>) returns (out: string)
    ensures out == FileText([columns] + rows)
  {
    out := "";
    out := out + Join(EscapeFields(columns), ",");
    out := out + CRLF;
    FileTextGrows([], columns);
    assert [] + [columns] == [columns] && [columns] + rows[..0] == [columns];
    for i := 0 to |rows|
      invariant out == FileText([columns] + rows[..i])
    {
      FileTextGrows([columns] + rows[..i], rows[i]);
      assert [columns] + rows[..i + 1] == [columns] + rows[..i] + [rows[i]];
      out := out + Join(EscapeFields(rows[i]), ",");
      out := out + CRLF;
    }
    assert rows[..|rows|] == rows;
  }

  // ---------------------------------------------------------------------------------------------
  // The reader. Each parser returns what it read and the rest of the text.

  predicate IsTextData(c: char) {
    c != ',' && c != '"' && c != '\r' && c != '\n'
  }

  function ReadPlain(s: string): (r: (string, string))
    ensures |r.1| <= |s|
  {
    if s == "" || !IsTextData(s[0]) then ("", s)
    else
      var (field, rest) := ReadPlain(s[1..]);
      ([s[0]] + field, rest)
  }

  /** The part of an escaped field after its opening quote. */
  function ReadQuoted(s: string): (r: Option<(string, string)>)
    ensures r.Some? ==> |r.value.1| < |s|
  {
    if s == "" then None
    else if s[0] != '"' then
      match ReadQuoted(s[1..])
      case None => None
      case Some((field, rest)) => Some(([s[0]] + field, rest))
    else if |s| > 1 && s[1] == '"' then
      match ReadQuoted(s[2..])
      case None => None
      case Some((field, rest)) => Some((['"'] + field, rest))
    else Some(("", s[1..]))
  }

  function ReadField(s: string): (r: Option<(string, string)>)
    ensures r.Some? ==> |r.value.1| <= |s|
  {
    if s != "" && s[0] == '"' then ReadQuoted(s[1..]) else Some(ReadPlain(s))
  }

  /** `record = field *(COMMA field)`. */
  function ReadRecord(s: string): (r: Option<(seq<string>, string)>)
    ensures r.Some? ==> |r.value.1| <= |s| && r.value.0 != []
    decreases |s|
  {
    match ReadField(s)
    case None => None
    case Some((field, rest)) =>
      if rest != "" && rest[0] == ',' then
        match ReadRecord(rest[1..])
        case None => None
        case Some((fields, rest')) => Some(([field] + fields, rest'))
      else Some(([field], rest))
  }

  /** `file = *(record CRLF)`; a last record without a line break is read too. */
  function ReadFile(s: string): Option<seq<seq<string>>>
    decreases |s|
  {
    if s == "" then Some([])
    else match ReadRecord(s)
      case None => None
      case Some((record, rest)) =>
        if rest == "" then Some([record])
        else if |rest| < 2 || rest[0] != '\r' || rest[1] != '\n' then None
        else match ReadFile(rest[2..])
          case None => None
          case Some(records) => Some([record] + records)
  }

  // ---------------------------------------------------------------------------------------------

  /** A field is written in quotes exactly if it holds a comma, a quote, or part of a line break. */
  lemma QuotedExactly(s: string)
    ensures EscapeField(s) == s <==> forall i :: 0 <= i < |s| ==> IsTextData(s[i])
    ensures EscapeField(s) != s ==> EscapeField(s) == "\"" + DoubleQuotes(s) + "\""
  {
    DoublingKeepsLength(s);
  }

  lemma {:induction false} DoublingKeepsLength(s: string)
    ensures |DoubleQuotes(s)| >= |s|
  {
    if s != "" { DoublingKeepsLength(s[1..]); }
  }

  /** What may follow a field. */
  predicate EndsField(tail: string) {
    tail != "" && (tail[0] == ',' || tail[0] == '\r')
  }

  lemma {:induction false} ReadPlainField(s: string, tail: string)
    requires EndsField(tail) && forall i :: 0 <= i < |s| ==> IsTextData(s[i])
    ensures ReadPlain(s + tail) == (s, tail)
  {
    if s == "" {
      assert s + tail == tail;
    } else {
      assert (s + tail)[1..] == s[1..] + tail;
      ReadPlainField(s[1..], tail);
      assert [s[0]] + s[1..] == s;
    }
  }

  lemma {:induction false} ReadQuotedField(s: string, tail: string)
    requires EndsField(tail)
    ensures ReadQuoted(DoubleQuotes(s) + "\"" + tail) == Some((s, tail))
  {
    if s == "" {
      assert DoubleQuotes(s) + "\"" + tail == ['"'] + tail;
      assert (['"'] + tail)[1..] == tail;
    } else {
      var rest := DoubleQuotes(s[1..]) + "\"" + tail;
      ReadQuotedField(s[1..], tail);
      assert [s[0]] + s[1..] == s;
      ReadOneQuoted(s[0], rest, s[1..], tail);
      var one := if s[0] == '"' then "\"\"" else [s[0]];
      assert DoubleQuotes(s) + "\"" + tail == one + rest;
    }
  }

  /** One character of an escaped field, its quote doubled, before the rest of the field. */
  lemma ReadOneQuoted(c: char, rest: string, field: string, tail: string)
    requires ReadQuoted(rest) == Some((field, tail))
    ensures ReadQuoted((if c == '"' then "\"\"" else [c]) + rest) == Some(([c] + field, tail))
  {
    if c == '"' {
      assert ("\"\"" + rest)[2..] == rest;
    } else {
      assert ([c] + rest)[1..] == rest;
    }
  }

  lemma ReadEscapedField(s: string, tail: string)
    requires EndsField(tail)
    ensures ReadField(EscapeField(s) + tail) == Some((s, tail))
  {
    if ',' in s || '"' in s || '\n' in s || '\r' in s {
      ReadQuotedField(s, tail);
      OpenQuote(DoubleQuotes(s), tail);
    } else {
      ReadPlainField(s, tail);
      PlainStart(s, tail);
    }
  }

  lemma OpenQuote(body: string, tail: string)
    ensures ReadField("\"" + body + "\"" + tail) == ReadQuoted(body + "\"" + tail)
  {
    assert ("\"" + body + "\"" + tail)[1..] == body + "\"" + tail;
  }

  lemma PlainStart(s: string, tail: string)
    requires EndsField(tail) && '"' !in s
    ensures ReadField(s + tail) == Some(ReadPlain(s + tail))
  {
    assert (s + tail)[0] == if s == "" then tail[0] else s[0];
  }

  lemma {:induction false} ReadJoined(fields: seq<string>, tail: string)
    requires fields != [] && tail != "" && tail[0] == '\r'
    ensures ReadRecord(Join(EscapeFields(fields), ",") + tail) == Some((fields, tail))
  {
    var text := Join(EscapeFields(fields), ",") + tail;
    assert EscapeFields(fields)[0] == EscapeField(fields[0]);
    if |fields| == 1 {
      assert text == EscapeField(fields[0]) + tail;
      ReadEscapedField(fields[0], tail);
      assert [fields[0]] == fields;
    } else {
      assert EscapeFields(fields)[1..] == EscapeFields(fields[1..]);
      var rest := "," + (Join(EscapeFields(fields[1..]), ",") + tail);
      assert text == EscapeField(fields[0]) + rest;
      ReadEscapedField(fields[0], rest);
      assert rest[1..] == Join(EscapeFields(fields[1..]), ",") + tail;
      ReadJoined(fields[1..], tail);
      assert [fields[0]] + fields[1..] == fields;
    }
  }

  lemma ReadOneRecord(fields: seq<string>, tail: string)
    requires fields != []
    ensures ReadRecord(RecordText(fields) + tail) == Some((fields, CRLF + tail))
  {
    assert RecordText(fields) + tail == Join(EscapeFields(fields), ",") + (CRLF + tail);
    ReadJoined(fields, CRLF + tail);
  }

  lemma {:induction false} ReadRecords(records: seq<seq<string>>)
    requires forall i :: 0 <= i < |records| ==> records[i] != []
    ensures ReadFile(FileText(records)) == Some(records)
  {
    if records != [] {
      var rest := FileText(records[1..]);
      ReadOneRecord(records[0], rest);
      assert (CRLF + rest)[..2] == CRLF && (CRLF + rest)[2..] == rest;
      ReadRecords(records[1..]);
      assert [records[0]] + records[1..] == records;
    }
  }

  lemma {:induction false} RecordsAreNonEmpty(s: string)
    ensures ReadFile(s).Some? ==> forall i :: 0 <= i < |ReadFile(s).value| ==> ReadFile(s).value[i] != []
    decreases |s|
  {
    if s != "" && ReadRecord(s).Some? {
      var rest := ReadRecord(s).value.1;
      if |rest| >= 2 { RecordsAreNonEmpty(rest[2..]); }
    }
  }

  /** Reading an export back gives its header and rows, exactly when each has a field. */
  lemma ExportReadsBack(columns: seq<string>, rows: seq<seq<string>>)
    ensures ReadFile(FileText([columns] + rows)) == Some([columns] + rows)
      <==> columns != [] && forall i :: 0 <= i < |rows| ==> rows[i] != []
  {
    var records := [columns] + rows;
    if columns != [] && forall i :: 0 <= i < |rows| ==> rows[i] != [] {
      ReadRecords(records);
    }
    if ReadFile(FileText(records)) == Some(records) {
      RecordsAreNonEmpty(FileText(records));
      assert records[0] == columns && forall i :: 0 <= i < |rows| ==> records[i + 1] == rows[i];
    }
  }
}
