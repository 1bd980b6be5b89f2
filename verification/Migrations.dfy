/** Migration files: what `makemigrations` writes, and what `sqlmigrate` reads back. */
module Migrations {
  import opened Wrappers
  import opened Decimal
  import opened Text
  import Utf8

  // ---------------------------------------------------------------------------------------------
  // Lines.

  /** The characters with the Unicode property White_Space. */
  predicate IsWhitespace(c: char) {
    var u := c as int;
    || 0x09 <= u <= 0x0D || u == 0x20 || u == 0x85 || u == 0xA0 || u == 0x1680 || 0x2000 <= u <= 0x200A
    || u == 0x2028 || u == 0x2029 || u == 0x202F || u == 0x205F || u == 0x3000
  }

  function TrimStart(s: string): string {
    if s != "" && IsWhitespace(s[0]) then TrimStart(s[1..]) else s
  }

  function TrimEnd(s: string): string {
    if s != "" && IsWhitespace(s[|s| - 1]) then TrimEnd(s[..|s| - 1]) else s
  }

  function Trim(s: string): string {
    TrimEnd(TrimStart(s))
  }

  predicate EndsInCr(s: string) {
    s != "" && s[|s| - 1] == '\r'
  }

  function StripCr(s: string): string {
    if EndsInCr(s) then s[..|s| - 1] else s
  }

  /** Lines from the pieces between line feeds: the last piece has no line ending to lose. */
  function PieceLines(pieces: seq<string>): seq<string>
    requires |pieces| > 0
  {
    if |pieces| == 1 then (if pieces[0] == "" then [] else pieces)
    else [StripCr(pieces[0])] + PieceLines(pieces[1..])
  }

  /** `text.lines()`. */
  function Lines(text: string): seq<string> {
    PieceLines(Split(text, '\n'))
  }

  predicate IsUp(line: string) {
    Trim(line) == "-- up"
  }

  predicate IsDown(line: string) {
    Trim(line) == "-- down"
  }

  predicate Blank(s: string) {
    forall i :: 0 <= i < |s| ==> IsWhitespace(s[i])
  }

  /** The line is the marker with nothing but whitespace around it. */
  predicate MarkedBy(line: string, marker: string) {
    exists i, j :: 0 <= i <= j <= |line| && Cut(line, i, j, marker)
  }

  predicate Cut(line: string, i: nat, j: nat, marker: string)
    requires i <= j <= |line|
  {
    Blank(line[..i]) && line[i..j] == marker && Blank(line[j..])
  }

  /** Where trimming starts and ends. */
  lemma {:induction false} TrimStartCuts(s: string) returns (i: nat)
    ensures i <= |s| && Blank(s[..i]) && TrimStart(s) == s[i..] && (i < |s| ==> !IsWhitespace(s[i]))
  {
    if s != "" && IsWhitespace(s[0]) {
      i := TrimStartCuts(s[1..]);
      i := i + 1;
      assert s[i..] == s[1..][i - 1..] && s[..i] == [s[0]] + s[1..][..i - 1];
    } else {
      i := 0;
      assert s[0..] == s;
    }
  }

  lemma {:induction false} TrimEndCuts(s: string) returns (j: nat)
    ensures j <= |s| && Blank(s[j..]) && TrimEnd(s) == s[..j] && (j > 0 ==> !IsWhitespace(s[j - 1]))
  {
    if s != "" && IsWhitespace(s[|s| - 1]) {
      j := TrimEndCuts(s[..|s| - 1]);
      assert s[j..] == s[..|s| - 1][j..] + [s[|s| - 1]] && s[..j] == s[..|s| - 1][..j];
    } else {
      j := |s|;
      assert s[..j] == s;
    }
  }

  lemma TrimIsCut(s: string)
    ensures MarkedBy(s, Trim(s))
  {
    var i := TrimStartCuts(s);
    var j := TrimEndCuts(s[i..]);
    assert s[i..][..j] == s[i..i + j] && s[i..][j..] == s[i + j..];
    assert Cut(s, i, i + j, Trim(s));
  }

  lemma CutAround(s: string, i: nat, j: nat, m: string)
    requires i <= j <= |s| && Cut(s, i, j, m)
    ensures forall k :: 0 <= k < i || j <= k < |s| ==> IsWhitespace(s[k])
    ensures m != "" ==> i < j && s[i] == m[0] && s[j - 1] == m[|m| - 1]
  {
    forall k | 0 <= k < i || j <= k < |s| ensures IsWhitespace(s[k]) {
      assert if k < i then s[k] == s[..i][k] else s[k] == s[j..][k - j];
    }
  }

  /** No two texts without whitespace at their ends are cut out of one line. */
  lemma OneCut(s: string, i: nat, j: nat, m: string, i': nat, j': nat, m': string)
    requires i <= j <= |s| && i' <= j' <= |s| && Cut(s, i, j, m) && Cut(s, i', j', m')
    requires TightEnds(m) && TightEnds(m') && m != ""
    ensures m == m'
  {
    CutAround(s, i, j, m);
    CutAround(s, i', j', m');
  }

  predicate TightEnds(m: string) {
    m != "" ==> !IsWhitespace(m[0]) && !IsWhitespace(m[|m| - 1])
  }

  lemma TrimIsTight(s: string)
    ensures TightEnds(Trim(s))
  {
    var i := TrimStartCuts(s);
    var j := TrimEndCuts(s[i..]);
    if j > 0 { assert s[i..][..j][0] == s[i] && s[i..][..j][j - 1] == s[i..][j - 1]; }
  }

  /** Trimming leaves a text exactly when the line is that text with nothing but whitespace around it. */
  lemma TrimExactly(line: string, marker: string)
    requires marker != "" && TightEnds(marker)
    ensures Trim(line) == marker <==> MarkedBy(line, marker)
  {
    TrimIsCut(line);
    TrimIsTight(line);
    var i', j' :| 0 <= i' <= j' <= |line| && Cut(line, i', j', Trim(line));
    if MarkedBy(line, marker) {
      var i, j :| 0 <= i <= j <= |line| && Cut(line, i, j, marker);
      OneCut(line, i, j, marker, i', j', Trim(line));
    }
  }

  // ---------------------------------------------------------------------------------------------
  // The up section.

  /** The lines after an up marker and before the first down marker, other up markers dropped. */
  function UpLines(lines: seq<string>, inUp: bool): seq<string> {
    if lines == [] then []
    else if IsUp(lines[0]) then UpLines(lines[1..], true)
    else if IsDown(lines[0]) then []
    else (if inUp then [lines[0]] else []) + UpLines(lines[1..], inUp)
  }

  function SectionUp(text: string): string {
    Join(UpLines(Lines(text), false), "\n")
  }

  /** One line of the scan. */
  lemma NextLine(upLines: seq<string>, lines: seq<string>, i: nat, inUp: bool)
    requires i < |lines|
    ensures var (kept, rest) := (upLines + UpLines(lines[i..], inUp), lines[i + 1..]);
      if Trim(lines[i]) == "-- up" then kept == upLines + UpLines(rest, true)
      else if Trim(lines[i]) == "-- down" then kept == upLines
      else kept == (if inUp then upLines + [lines[i]] else upLines) + UpLines(rest, inUp)
  {
    assert lines[i..][1..] == lines[i + 1..];
  }

  method ReadSectionUp(text: string) returns (up: string)
    ensures up == SectionUp(text)
  {
    var lines := Lines(text);
    var upLines: seq<string> := [];
    var inUp := false;
    var i := 0;
    while i < |lines|
      invariant i <= |lines|
      invariant upLines + UpLines(lines[i..], inUp) == UpLines(lines, false)
    {
      var line := lines[i];
      NextLine(upLines, lines, i, inUp);
      i := i + 1;
      if Trim(line) == "-- up" {
        inUp := true;
        continue;
      }
      if Trim(line) == "-- down" {
        break;
      }
      if inUp {
        upLines := upLines + [line];
      }
    }
    assert upLines == UpLines(lines, false);
    up := Join(upLines, "\n");
  }

  /** The file `makemigrations` writes. */
  function Body(sql: seq<string>, down: seq<string>): string {
    "-- up\n" + Join(sql, "\n") + "\n-- down\n" + Join(down, "\n")
  }

  predicate CleanPiece(piece: string) {
    !IsUp(piece) && !IsDown(piece) && !EndsInCr(piece)
  }

  /** Such a piece, said of its characters. */
  lemma CleanExactly(piece: string)
    ensures CleanPiece(piece) <==>
      && !MarkedBy(piece, "-- up") && !MarkedBy(piece, "-- down")
      && (piece != "" ==> piece[|piece| - 1] != '\r')
  {
    TrimExactly(piece, "-- up");
    TrimExactly(piece, "-- down");
  }

  /** No line of the SQL reads as a marker, and none ends in a carriage return. */
  predicate Clean(sql: string) {
    AllClean(Split(sql, '\n'))
  }

  function Stripped(pieces: seq<string>): seq<string> {
    seq(|pieces|, i requires 0 <= i < |pieces| => StripCr(pieces[i]))
  }

  lemma {:induction false} PieceLinesConcat(a: seq<string>, b: seq<string>)
    requires |b| > 0
    ensures PieceLines(a + b) == Stripped(a) + PieceLines(b)
  {
    if a == [] {
      assert a + b == b;
    } else {
      assert (a + b)[1..] == a[1..] + b;
      PieceLinesConcat(a[1..], b);
      assert Stripped(a) == [StripCr(a[0])] + Stripped(a[1..]);
    }
  }

  /** The length of the pieces, each with one separator. */
  function Weight(pieces: seq<string>): nat {
    if pieces == [] then 0 else |pieces[0]| + 1 + Weight(pieces[1..])
  }

  lemma {:induction false} JoinWeight(pieces: seq<string>)
    ensures |Join(pieces, "\n")| == if pieces == [] then 0 else Weight(pieces) - 1
  {
    if |pieces| > 1 { JoinWeight(pieces[1..]); }
  }

  predicate AllClean(pieces: seq<string>) {
    forall i :: 0 <= i < |pieces| ==> CleanPiece(pieces[i])
  }

  /** One more line in front of an up section. */
  lemma ReadOne(piece: string, tail: seq<string>)
    ensures var kept := UpLines([StripCr(piece)] + tail, true);
      var later := UpLines(tail, true);
      if CleanPiece(piece) then
        kept == [piece] + later && Weight(kept) == |piece| + 1 + Weight(later)
      else
        Weight(kept) < |piece| + 1 + Weight(later)
  {
    var line, later := StripCr(piece), UpLines(tail, true);
    assert ([line] + tail)[1..] == tail;
    assert ([line] + later)[1..] == later;
  }

  lemma FirstPiece(pieces: seq<string>, rest: seq<string>)
    requires pieces != []
    ensures Stripped(pieces) + rest == [StripCr(pieces[0])] + (Stripped(pieces[1..]) + rest)
    ensures AllClean(pieces) <==> CleanPiece(pieces[0]) && AllClean(pieces[1..])
  {
    assert forall i :: 1 <= i < |pieces| ==> pieces[i] == pieces[1..][i - 1];
  }

  /** Reading clean lines up to the down marker keeps them all; any other line costs something. */
  lemma {:induction false} ReadUp(pieces: seq<string>, rest: seq<string>)
    requires rest != [] && IsDown(rest[0]) && !IsUp(rest[0])
    ensures var kept := UpLines(Stripped(pieces) + rest, true);
      if AllClean(pieces) then kept == pieces else Weight(kept) < Weight(pieces)
  {
    if pieces == [] {
      assert Stripped(pieces) + rest == rest;
    } else {
      ReadUp(pieces[1..], rest);
      ReadOne(pieces[0], Stripped(pieces[1..]) + rest);
      FirstPiece(pieces, rest);
      assert pieces == [pieces[0]] + pieces[1..];
    }
  }

  lemma MarkersRead()
    ensures IsUp("-- up") && !IsDown("-- up") && IsDown("-- down") && !IsUp("-- down")
    ensures StripCr("-- up") == "-- up" && StripCr("-- down") == "-- down"
  {
    assert |"-- up"| != |"-- down"|;
  }

  lemma BodyLines(sql: string, down: string)
    ensures exists after: seq<string> ::
      Lines("-- up\n" + sql + "\n-- down\n" + down)
      == ["-- up"] + (Stripped(Split(sql, '\n')) + (["-- down"] + after))
  {
    MarkersRead();
    var tail := "-- down" + ['\n'] + down;
    assert "-- up\n" + sql + "\n-- down\n" + down == "-- up" + ['\n'] + (sql + ['\n'] + tail);
    SplitAtFirst("-- up", '\n', sql + ['\n'] + tail);
    SplitConcat(sql, '\n', tail);
    SplitAtFirst("-- down", '\n', down);
    PieceLinesConcat(["-- up"], Split(sql, '\n') + Split(tail, '\n'));
    PieceLinesConcat(Split(sql, '\n'), Split(tail, '\n'));
    PieceLinesConcat(["-- down"], Split(down, '\n'));
    assert Stripped(["-- up"]) == ["-- up"] && Stripped(["-- down"]) == ["-- down"];
    assert Split(tail, '\n') == ["-- down"] + Split(down, '\n');
    assert Lines("-- up\n" + sql + "\n-- down\n" + down)
        == ["-- up"] + (Stripped(Split(sql, '\n')) + (["-- down"] + PieceLines(Split(down, '\n'))));
  }

  /** The up section of a written file is the up SQL, exactly when that SQL is clean. */
  lemma UpSectionReadsBack(sql: seq<string>, down: seq<string>)
    ensures SectionUp(Body(sql, down)) == Join(sql, "\n") <==>
      forall piece :: piece in Split(Join(sql, "\n"), '\n') ==>
        && !MarkedBy(piece, "-- up") && !MarkedBy(piece, "-- down")
        && (piece != "" ==> piece[|piece| - 1] != '\r')
  {
    CleanSectionReadsBack(sql, down);
    forall piece ensures CleanPiece(piece) <==>
      && !MarkedBy(piece, "-- up") && !MarkedBy(piece, "-- down")
      && (piece != "" ==> piece[|piece| - 1] != '\r')
    {
      CleanExactly(piece);
    }
  }

  lemma CleanSectionReadsBack(sql: seq<string>, down: seq<string>)
    ensures SectionUp(Body(sql, down)) == Join(sql, "\n") <==> Clean(Join(sql, "\n"))
  {
    var up := Join(sql, "\n");
    var pieces := Split(up, '\n');
    BodyLines(up, Join(down, "\n"));
    var after: seq<string> :| Lines(Body(sql, down)) == ["-- up"] + (Stripped(pieces) + (["-- down"] + after));
    var lines := Lines(Body(sql, down));
    MarkersRead();
    assert lines[1..] == Stripped(pieces) + (["-- down"] + after);
    var kept := UpLines(lines, false);
    assert kept == UpLines(lines[1..], true);
    ReadUp(pieces, ["-- down"] + after);
    JoinSplit(up, '\n');
    assert ['\n'] == "\n";
    if !Clean(up) {
      JoinWeight(kept);
      JoinWeight(pieces);
      if kept == [] { EmptyIsClean(); }
    }
  }

  lemma EmptyIsClean()
    ensures Clean("")
  {
    assert Split("", '\n') == [""];
  }

  // ---------------------------------------------------------------------------------------------
  // Numbers. File names are bytes.

  /** The number a file name starts with: its first four bytes, when the name is a text and they are a numeral. */
  function Prefix(name: string): Option<int> {
    if Utf8.Valid(name) && |name| >= 4 && Utf8.Boundary(name, 4) then ParseInt(name[..4], 0, U32_MAX) else None
  }

  function Largest(names: seq<string>): (n: nat) {
    if names == [] then 0
    else
      var front := Largest(names[..|names| - 1]);
      match Prefix(names[|names| - 1])
      case None => front
      case Some(p) => if p > front then p else front
  }

  function NextNumber(names: seq<string>): nat {
    Largest(names) + 1
  }

  /** `{n:04}_auto.sql`. */
  function FileName(n: nat): string {
    ZeroPadded(n, 4) + "_auto.sql"
  }

  predicate IsAscii(s: string) {
    forall i :: 0 <= i < |s| ==> s[i] as int <= 0x7F
  }

  /** After one-byte characters a valid text goes on with a character. */
  lemma {:induction false} AsciiThenBoundary(s: string, n: nat)
    requires Utf8.Valid(s) && n <= |s| && IsAscii(s[..n])
    ensures Utf8.Boundary(s, n)
  {
    if n > 0 {
      assert s[0] == s[..n][0];
      assert s[1..][..n - 1] == s[..n][1..];
      AsciiThenBoundary(s[1..], n - 1);
    }
  }

  lemma NumeralIsAscii(s: string, sign: string, digits: string, n: int)
    requires Numeral(s, sign, digits, 0, n)
    ensures IsAscii(s)
  {
    forall i | 0 <= i < |s| ensures s[i] as int <= 0x7F {
      assert if i < |sign| then s[i] == sign[i] else IsDigit(s[i]) by {
        if i >= |sign| { assert s[i] == digits[i - |sign|]; }
      }
    }
  }

  /** A name has a number exactly if it is UTF-8 and starts with four characters that are a numeral. */
  lemma PrefixExactly(name: string, n: int)
    ensures Prefix(name) == Some(n) <==>
      Utf8.Valid(name) && |name| >= 4 && 0 <= n <= U32_MAX
      && exists sign, digits :: Numeral(name[..4], sign, digits, 0, n)
  {
    if |name| >= 4 {
      ParseIntExact(name[..4], 0, U32_MAX, n);
      if Utf8.Valid(name) {
        forall sign, digits | Numeral(name[..4], sign, digits, 0, n) ensures Utf8.Boundary(name, 4) {
          NumeralIsAscii(name[..4], sign, digits, n);
          AsciiThenBoundary(name, 4);
        }
      }
    }
  }

  lemma PrefixBound(name: string)
    requires Prefix(name).Some?
    ensures 0 <= Prefix(name).value <= 9999
  {
    var digits := if name[0] == '+' then name[1..4] else name[..4];
    assert name[..4][1..] == name[1..4];
    ValueBound(digits);
    assert Pow10(1) == 10 && Pow10(2) == 100 && Pow10(3) == 1000 && Pow10(4) == 10000;
  }

  /** No file name carries a number above `n`. */
  predicate AllUpTo(names: seq<string>, n: int) {
    forall i :: 0 <= i < |names| && Prefix(names[i]).Some? ==> Prefix(names[i]).value <= n
  }

  lemma AllUpToOneMore(names: seq<string>, n: int, m: int)
    requires names != [] && AllUpTo(names[..|names| - 1], n) && n <= m
    requires Prefix(names[|names| - 1]).Some? ==> Prefix(names[|names| - 1]).value <= m
    ensures AllUpTo(names, m)
  {
    var front := names[..|names| - 1];
    forall i | 0 <= i < |names| && Prefix(names[i]).Some? ensures Prefix(names[i]).value <= m {
      assert i < |front| ==> names[i] == front[i];
    }
  }

  lemma {:induction false} LargestBound(names: seq<string>)
    ensures Largest(names) <= 9999 && AllUpTo(names, Largest(names))
  {
    if names != [] {
      var front, last := names[..|names| - 1], names[|names| - 1];
      LargestBound(front);
      if Prefix(last).Some? { PrefixBound(last); }
      AllUpToOneMore(names, Largest(front), Largest(names));
    }
  }

  lemma {:induction false} LargestIsUsed(names: seq<string>)
    ensures Largest(names) > 0 ==> exists i :: 0 <= i < |names| && Prefix(names[i]) == Some(Largest(names))
  {
    if names != [] {
      var front := names[..|names| - 1];
      LargestIsUsed(front);
      if Largest(front) > 0 {
        var i :| 0 <= i < |front| && Prefix(front[i]) == Some(Largest(front));
        assert names[i] == front[i];
      }
    }
  }

  /** The number chosen is above every number in use, by one above the largest. */
  lemma NumberExceedsAll(names: seq<string>)
    ensures 1 <= NextNumber(names) <= 10000
    ensures forall i :: 0 <= i < |names| && Prefix(names[i]).Some? ==> Prefix(names[i]).value < NextNumber(names)
    ensures NextNumber(names) > 1 ==>
      exists i :: 0 <= i < |names| && Prefix(names[i]) == Some(NextNumber(names) - 1)
  {
    LargestBound(names);
    LargestIsUsed(names);
  }

  lemma FourDigits(n: nat)
    requires n <= 9999
    ensures |ToString(n)| <= 4
  {
    assert n / 10 <= 999 && n / 10 / 10 <= 99 && n / 10 / 10 / 10 <= 9;
    assert |ToString(n / 10 / 10 / 10)| == 1;
    assert |ToString(n / 10 / 10)| <= 2;
    assert |ToString(n / 10)| <= 3;
  }

  lemma FileNameIsText(n: nat)
    ensures Utf8.Valid(FileName(n))
  {
    var padded := ZeroPadded(n, 4);
    assert AllDigits(padded);
    forall i | 0 <= i < |FileName(n)| ensures Utf8.In(FileName(n)[i], 0, 0x7F) {
      if i < |padded| {
        assert IsDigit(FileName(n)[i]);
      } else {
        assert FileName(n)[i] == "_auto.sql"[i - |padded|];
      }
    }
    Utf8.AsciiIsValid(FileName(n));
  }

  /** A chosen name carries its number, up to 9999. */
  lemma NumberReadsBack(n: nat)
    requires n <= 9999
    ensures Prefix(FileName(n)) == Some(n)
  {
    FourDigits(n);
    FileNameIsText(n);
    var digits := ToString(n);
    ValueOfToString(n);
    ValueOfZeros(4 - |digits|, digits);
    var name := FileName(n);
    var padded := ZeroPadded(n, 4);
    assert padded == Zeros(4 - |digits|) + digits;
    assert name[..4] == padded;
    assert IsDigit(padded[0]) && name[4] == '_';
  }

  lemma TenThousandDigits(n: nat)
    requires n == 10000
    ensures ToString(n / 10) == "1000" && ToString(n) == "10000"
  {
    assert n / 10 == 1000 && n / 10 / 10 == 100 && n / 10 / 10 / 10 == 10 && n / 10 / 10 / 10 / 10 == 1;
    assert ToString(n / 10 / 10 / 10) == "10";
    assert ToString(n / 10 / 10) == "100";
    assert ToString(n / 10) == "1000";
  }

  lemma LeadingDigits(name: string, n: nat)
    requires |ToString(n)| == 4 && n <= U32_MAX && ToString(n) <= name && Utf8.Valid(name) && Utf8.Boundary(name, 4)
    ensures Prefix(name) == Some(n)
  {
    assert name[..4] == ToString(n);
    ValueOfToString(n);
    assert IsDigit(ToString(n)[0]);
  }

  lemma OverflowName(n: nat)
    requires n == 10000
    ensures FileName(n) == "10000_auto.sql" && Prefix(FileName(n)) == Some(n / 10)
  {
    TenThousandDigits(n);
    FileNameIsText(n);
    assert ZeroPadded(n, 4) == Zeros(0) + ToString(n);
    assert FileName(n)[4] == '0';
    LeadingDigits(FileName(n), n / 10);
  }

  /** The file is a new one, unless the numbers have run out and the overflow name is taken. */
  lemma NameIsNew(names: seq<string>)
    ensures FileName(NextNumber(names)) !in names <==> Largest(names) < 9999 || "10000_auto.sql" !in names
  {
    LargestBound(names);
    var n := NextNumber(names);
    if n <= 9999 {
      NumberReadsBack(n);
    } else {
      OverflowName(n);
    }
  }

  /** After writing the file, the next run chooses the next number, exactly while numbers last. */
  lemma NumbersAdvance(names: seq<string>)
    ensures NextNumber(names + [FileName(NextNumber(names))]) == NextNumber(names) + 1 <==> Largest(names) < 9999
    ensures Largest(names) == 9999 ==> NextNumber(names + [FileName(NextNumber(names))]) == NextNumber(names)
  {
    LargestBound(names);
    var n := NextNumber(names);
    var more := names + [FileName(n)];
    assert more[..|more| - 1] == names;
    if n <= 9999 {
      NumberReadsBack(n);
    } else {
      OverflowName(n);
    }
  }
}
