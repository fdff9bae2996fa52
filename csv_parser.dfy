/**
 * The CSV reader of the import pipeline (src/utils/csvParser.ts): `parseCSV`, which
 * cuts the text into non-blank lines, trims the header cells and tokenizes every
 * other line with a quote-toggling scanner, and `convertCSVToStudents`, which maps
 * each token row onto a student record, validates it and files it as accepted or
 * failed.
 */
module CsvParser {
  import opened Text
  import opened Seqs
  import opened StudentTypes
  import opened Validation

  // ---------------------------------------------------------------------------
  // Lines
  // ---------------------------------------------------------------------------

  /** `p` without one trailing carriage return. */
  function DropCR(p: string): (r: string)
    ensures if p != [] && p[|p| - 1] == '\r' then r + "\r" == p else r == p
  {
    if p != [] && p[|p| - 1] == '\r' then p[..|p| - 1] else p
  }

  /**
   * `content.split(/\r?\n/)`: the pieces between line breaks, where a break is `\n`
   * together with the one `\r` right before it, if any.
   */
  function SplitLines(content: string): (lines: seq<string>)
    ensures |lines| == 1 + Occurrences(content, '\n')
  {
    var pieces := Split(content, '\n');
    seq(|pieces|, k requires 0 <= k < |pieces| => if k < |pieces| - 1 then DropCR(pieces[k]) else pieces[k])
  }

  /** `.filter(line => line.trim() !== '')`. */
  function NonBlankLines(content: string): seq<string> {
    Filter(SplitLines(content), (line: string) => !Blank(line))
  }

  /** `map(v => v.trim())`. */
  function TrimAll(cells: seq<string>): (r: seq<string>)
    ensures |r| == |cells|
  {
    seq(|cells|, k requires 0 <= k < |cells| => Trim(cells[k]))
  }

  lemma TrimAllConcat(a: seq<string>, b: seq<string>)
    ensures TrimAll(a + b) == TrimAll(a) + TrimAll(b)
  {
  }

  /** `lines[0].split(',').map(header => header.trim())`: quotes are not honoured here. */
  function HeaderCells(line: string): (headers: seq<string>)
    ensures |headers| == 1 + Occurrences(line, ',')
  {
    TrimAll(Split(line, ','))
  }

  // ---------------------------------------------------------------------------
  // The quote-toggling tokenizer
  // ---------------------------------------------------------------------------

  /**
   * The untrimmed cells the scanner collects from `line` when it starts with quote
   * state `inQuotes`: a `"` flips the state and is dropped, a `,` outside quotes ends
   * the current cell, and every other character is appended to it.
   */
  function RawFields(line: string, inQuotes: bool): (cells: seq<string>)
    ensures |cells| >= 1
  {
    if line == [] then [""]
    else if line[0] == '"' then RawFields(line[1..], !inQuotes)
    else if line[0] == ',' && !inQuotes then [""] + RawFields(line[1..], inQuotes)
    else
      var rest := RawFields(line[1..], inQuotes);
      [[line[0]] + rest[0]] + rest[1..]
  }

  /** The trimmed token row of one data line; the quote state starts false on every line. */
  function LineTokens(line: string): seq<string> {
    TrimAll(RawFields(line, false))
  }

  /**
   * The token row the scanner ends with when it has pushed `values`, holds `current`
   * and the rest of the line splits into the raw cells `rest`.
   */
  function Pending(values: seq<string>, current: string, rest: seq<string>): seq<string>
    requires |rest| >= 1
  {
    values + TrimAll([current + rest[0]] + rest[1..])
  }

  lemma StartScan(line: string)
    ensures Pending([], "", RawFields(line, false)) == LineTokens(line)
  {
    var r := RawFields(line, false);
    assert "" + r[0] == r[0];
    assert [r[0]] + r[1..] == r;
  }

  /** A comma outside quotes pushes the trimmed current cell and starts an empty one. */
  lemma CommaStep(values: seq<string>, current: string, rest: seq<string>)
    requires |rest| >= 1
    ensures Pending(values, current, [""] + rest) == Pending(values + [Trim(current)], "", rest)
  {
    assert current + "" == current;
    assert "" + rest[0] == rest[0];
    assert [rest[0]] + rest[1..] == rest;
    TrimAllConcat([current], rest);
  }

  /** Any other character is appended to the current cell. */
  lemma CharStep(values: seq<string>, current: string, c: char, rest: seq<string>)
    requires |rest| >= 1
    ensures Pending(values, current, [[c] + rest[0]] + rest[1..]) == Pending(values, current + [c], rest)
  {
    assert current + ([c] + rest[0]) == (current + [c]) + rest[0];
  }

  /** The scanner of `parseCSV`: one pass over `line`. */
  method TokenizeLine(line: string) returns (values: seq<string>)
    ensures values == LineTokens(line)
  {
    values := [];
    var currentValue := "";
    var insideQuotes := false;
    var i := 0;
    StartScan(line);
    assert line[0..] == line;
    while i < |line|
      invariant 0 <= i <= |line|
      invariant Pending(values, currentValue, RawFields(line[i..], insideQuotes)) == LineTokens(line)
    {
      var c := line[i];
      ghost var rest := RawFields(line[i + 1..], insideQuotes);
      assert line[i..][1..] == line[i + 1..];
      if c == '"' {
        insideQuotes := !insideQuotes;
      } else if c == ',' && !insideQuotes {
        CommaStep(values, currentValue, rest);
        values := values + [Trim(currentValue)];
        currentValue := "";
      } else {
        CharStep(values, currentValue, c, rest);
        currentValue := currentValue + [c];
      }
      i := i + 1;
    }
    assert line[i..] == [];
    assert currentValue + "" == currentValue;
    values := values + [Trim(currentValue)];
  }

  /** Number of commas of `line` that the scanner sees outside quotes. */
  function Separators(line: string, inQuotes: bool): nat {
    if line == [] then 0
    else if line[0] == '"' then Separators(line[1..], !inQuotes)
    else (if line[0] == ',' && !inQuotes then 1 else 0) + Separators(line[1..], inQuotes)
  }

  /** A line yields one token more than it has commas outside quotes. */
  lemma {:induction false} RawFieldsCount(line: string, inQuotes: bool)
    ensures |RawFields(line, inQuotes)| == 1 + Separators(line, inQuotes)
  {
    if line != [] {
      if line[0] == '"' {
        RawFieldsCount(line[1..], !inQuotes);
      } else {
        RawFieldsCount(line[1..], inQuotes);
      }
    }
  }

  lemma TokenCount(line: string)
    ensures |LineTokens(line)| == 1 + Separators(line, false)
  {
    RawFieldsCount(line, false);
  }

  /** The scanner drops every `"`, so no cell contains one. */
  lemma {:induction false} RawFieldsNoQuote(line: string, inQuotes: bool)
    ensures forall k :: 0 <= k < |RawFields(line, inQuotes)| ==> '"' !in RawFields(line, inQuotes)[k]
  {
    if line != [] {
      if line[0] == '"' {
        RawFieldsNoQuote(line[1..], !inQuotes);
      } else {
        RawFieldsNoQuote(line[1..], inQuotes);
        var rest := RawFields(line[1..], inQuotes);
        if !(line[0] == ',' && !inQuotes) {
          var cells := [[line[0]] + rest[0]] + rest[1..];
          assert forall k :: 1 <= k < |cells| ==> cells[k] == rest[k];
        } else {
          var cells := [""] + rest;
          assert forall k :: 1 <= k < |cells| ==> cells[k] == rest[k - 1];
        }
      }
    }
  }

  lemma TokensNoQuote(line: string)
    ensures forall k :: 0 <= k < |LineTokens(line)| ==> '"' !in LineTokens(line)[k]
  {
    RawFieldsNoQuote(line, false);
  }

  /** Without any `"`, the scanner is a plain split on commas. */
  lemma {:induction false} RawFieldsUnquoted(line: string)
    requires '"' !in line
    ensures RawFields(line, false) == Split(line, ',')
  {
    if line != [] {
      assert line[1..] == line[1..] && forall c :: c in line[1..] ==> c in line;
      RawFieldsUnquoted(line[1..]);
    }
  }

  lemma TokensUnquoted(line: string)
    requires '"' !in line
    ensures LineTokens(line) == TrimAll(Split(line, ','))
  {
    RawFieldsUnquoted(line);
  }

  // ---------------------------------------------------------------------------
  // parseCSV
  // ---------------------------------------------------------------------------

  /** `{ data, headers }`. */
  datatype ParsedCsv = ParsedCsv(data: seq<seq<string>>, headers: seq<string>)

  /** The token rows of the data lines: every line after the header line. */
  function DataRows(lines: seq<string>): (rows: seq<seq<string>>)
    requires |lines| >= 1
    ensures |rows| == |lines| - 1
    ensures forall k :: 0 <= k < |rows| ==> rows[k] == LineTokens(lines[k + 1])
  {
    seq(|lines| - 1, k requires 0 <= k < |lines| - 1 => LineTokens(lines[k + 1]))
  }

  /**
   * What `parseCSV(content)` returns: the header cells of the first non-blank line
   * and one token row per later non-blank line; `None` where `lines[0]` is undefined
   * and `lines[0].split` throws.
   */
  function ParseResult(content: string): Option<ParsedCsv> {
    var lines := NonBlankLines(content);
    if lines == [] then None else Some(ParsedCsv(DataRows(lines), HeaderCells(lines[0])))
  }

  /** `parseCSV`, with the scanner run over every data line in turn. */
  method ParseCsv(content: string) returns (r: Option<ParsedCsv>)
    ensures r == ParseResult(content)
  {
    var lines := NonBlankLines(content);
    if lines == [] {
      return None;
    }
    var headers := HeaderCells(lines[0]);
    var data := TokenizeRows(lines);
    r := Some(ParsedCsv(data, headers));
  }

  /** The `for (let i = 1; i < lines.length; i++)` loop of `parseCSV`. */
  method TokenizeRows(lines: seq<string>) returns (data: seq<seq<string>>)
    requires |lines| >= 1
    ensures data == DataRows(lines)
  {
    data := [];
    var k := 1;
    while k < |lines|
      invariant 1 <= k <= |lines|
      invariant |data| == k - 1
      invariant forall j :: 0 <= j < k - 1 ==> data[j] == LineTokens(lines[j + 1])
    {
      var values := TokenizeLine(lines[k]);
      data := data + [values];
      k := k + 1;
    }
  }

  /** The scanner always yields at least one token, so no data row is empty. */
  lemma ParsedRowsNonEmpty(content: string)
    requires ParseResult(content).Some?
    ensures forall k :: 0 <= k < |ParseResult(content).value.data| ==> |ParseResult(content).value.data[k]| >= 1
  {
    var lines := NonBlankLines(content);
    forall k | 1 <= k < |lines| ensures |LineTokens(lines[k])| >= 1 {
      TokenCount(lines[k]);
    }
  }

  /** A piece of a split holds only characters of the split string. */
  lemma {:induction false} SplitChars(s: string, d: char)
    ensures forall k, c :: 0 <= k < |Split(s, d)| && c in Split(s, d)[k] ==> c in s
  {
    if s != [] {
      SplitChars(s[1..], d);
      var rest := Split(s[1..], d);
      var r := Split(s, d);
      forall k, c | 0 <= k < |r| && c in r[k] ensures c in s {
        assert s == [s[0]] + s[1..];
        if s[0] != d {
          assert r == [[s[0]] + rest[0]] + rest[1..];
          if k == 0 {
            assert c == s[0] || c in rest[0];
          } else {
            assert r[k] == rest[k];
          }
        } else {
          assert r == [""] + rest;
          assert k > 0 && r[k] == rest[k - 1];
        }
      }
    }
  }

  lemma {:induction false} JoinChars(parts: seq<string>, d: char, c: char)
    requires c in Join(parts, d) && c != d
    ensures exists k :: 0 <= k < |parts| && c in parts[k]
  {
    if |parts| > 1 {
      if c !in parts[0] {
        JoinChars(parts[1..], d, c);
        var k :| 0 <= k < |parts[1..]| && c in parts[1..][k];
        assert parts[1..][k] == parts[k + 1];
      }
    }
  }

  lemma BlankChars(s: string)
    ensures Blank(s) <==> forall i :: 0 <= i < |s| ==> IsSpace(s[i])
  {
    BlankIffTrimEmpty(s);
  }

  /** A line of the text holds only characters of the text. */
  lemma LineChars(content: string, k: int, c: char)
    requires 0 <= k < |SplitLines(content)| && c in SplitLines(content)[k]
    ensures c in content
  {
    var pieces := Split(content, '\n');
    SplitChars(content, '\n');
    var p := pieces[k];
    if k < |pieces| - 1 && p != [] && p[|p| - 1] == '\r' {
      assert c in p[..|p| - 1];
      assert c in p;
    }
  }

  /** Every character of the text other than a line break lies on some line. */
  lemma CharOnLine(content: string, c: char)
    requires c in content && c != '\n' && c != '\r'
    ensures exists k :: 0 <= k < |SplitLines(content)| && c in SplitLines(content)[k]
  {
    var pieces := Split(content, '\n');
    JoinSplit(content, '\n');
    JoinChars(pieces, '\n', c);
    var k :| 0 <= k < |pieces| && c in pieces[k];
    var p := pieces[k];
    assert SplitLines(content)[k] == if k < |pieces| - 1 then DropCR(p) else p;
    if k < |pieces| - 1 && p != [] && p[|p| - 1] == '\r' {
      assert p == p[..|p| - 1] + "\r";
    }
    assert c in SplitLines(content)[k];
  }

  /** `parseCSV` fails exactly when the text is empty or whitespace only. */
  lemma ParseFailsIffBlank(content: string)
    ensures ParseResult(content).None? <==> Blank(content)
  {
    var lines := SplitLines(content);
    BlankChars(content);
    if Blank(content) {
      forall k | 0 <= k < |lines| ensures Blank(lines[k]) {
        BlankChars(lines[k]);
        forall i | 0 <= i < |lines[k]| ensures IsSpace(lines[k][i]) {
          LineChars(content, k, lines[k][i]);
        }
      }
      FilterNone(lines, (line: string) => !Blank(line));
    } else {
      var i :| 0 <= i < |content| && !IsSpace(content[i]);
      CharOnLine(content, content[i]);
      var k :| 0 <= k < |lines| && content[i] in lines[k];
      BlankChars(lines[k]);
      assert !Blank(lines[k]);
      assert lines[k] in NonBlankLines(content);
    }
  }

  // ---------------------------------------------------------------------------
  // convertCSVToStudents
  // ---------------------------------------------------------------------------

  /** `headers.findIndex(h => h.toLowerCase() === key)`, searching from position `from`. */
  function FindHeader(headers: seq<string>, key: string, from: nat): (r: int)
    requires from <= |headers|
    ensures r == -1 || from <= r < |headers|
    ensures r >= 0 ==> ToLower(headers[r]) == key && forall j :: from <= j < r ==> ToLower(headers[j]) != key
    ensures r == -1 ==> forall j :: from <= j < |headers| ==> ToLower(headers[j]) != key
    decreases |headers| - from
  {
    if from == |headers| then -1
    else if ToLower(headers[from]) == key then from
    else FindHeader(headers, key, from + 1)
  }

  /** The column of the first header equal to `key` ignoring ASCII case, or -1. */
  function HeaderIndex(headers: seq<string>, key: string): (r: int)
    ensures r == -1 || 0 <= r < |headers|
    ensures r >= 0 ==> ToLower(headers[r]) == key && forall j :: 0 <= j < r ==> ToLower(headers[j]) != key
    ensures r == -1 ==> forall j :: 0 <= j < |headers| ==> ToLower(headers[j]) != key
  {
    FindHeader(headers, key, 0)
  }

  /** The column of each field (-1 when there is none). */
  datatype Columns = Columns(name: int, email: int, grade: int, course: int, enrollmentDate: int)

  function ColumnsOf(headers: seq<string>): Columns {
    Columns(
      HeaderIndex(headers, "name"),
      HeaderIndex(headers, "email"),
      HeaderIndex(headers, "grade"),
      HeaderIndex(headers, "course"),
      HeaderIndex(headers, "enrollmentdate"))
  }

  /** `index >= 0 && row[index]`: the cell when it exists and is not the empty string. */
  function CellAt(row: seq<string>, index: int): (r: Option<string>)
    ensures r.Some? <==> 0 <= index < |row| && row[index] != ""
    ensures r.Some? ==> r.value == row[index]
  {
    if 0 <= index < |row| && row[index] != "" then Some(row[index]) else None
  }

  function CellOr(row: seq<string>, index: int, default: string): string {
    match CellAt(row, index)
    case Some(v) => v
    case None => default
  }

  /**
   * What the JavaScript runtime supplies while row `rowIndex` is converted:
   * `Date.now()`, the day part of `new Date().toISOString()`, and `parseFloat`.
   */
  datatype Runtime = Runtime(now: nat -> nat, today: nat -> string, parseFloat: string -> Grade)

  /** `temp-${Date.now()}-${rowIndex}`. */
  function TempId(rt: Runtime, rowIndex: nat): string {
    "temp-" + NatToString(rt.now(rowIndex)) + "-" + NatToString(rowIndex)
  }

  /** The `studentData` record built from one token row. */
  function RowStudent(row: seq<string>, cols: Columns, rowIndex: nat, rt: Runtime): (s: Student)
  {
    Student(
      TempId(rt, rowIndex),
      CellOr(row, cols.name, ""),
      CellOr(row, cols.email, ""),
      match CellAt(row, cols.grade) { case Some(v) => rt.parseFloat(v) case None => Num(0.0) },
      CellOr(row, cols.course, ""),
      CellOr(row, cols.enrollmentDate, rt.today(rowIndex)))
  }

  /** `new Date().toISOString().split('T')[0]` names a real day, with a four-digit year, at every row. */
  ghost predicate TodayIsRealDay(rt: Runtime) {
    forall i: nat :: exists y: nat, m: nat, d: nat :: IsRealDate(y, m, d) && rt.today(i) == IsoDate(y, m, d)
  }

  /** Today's date is accepted by the date rule. */
  lemma TodayAccepted(rt: Runtime, rowIndex: nat)
    requires TodayIsRealDay(rt)
    ensures IsValidDate(rt.today(rowIndex))
  {
    var today := rt.today(rowIndex);
    assert exists y: nat, m: nat, d: nat :: IsRealDate(y, m, d) && today == IsoDate(y, m, d);
    var y: nat, m: nat, d: nat :| IsRealDate(y, m, d) && today == IsoDate(y, m, d);
    IsoDateIsValid(y, m, d);
  }

  /** A row with no date cell takes today's date, which the date rule accepts. */
  lemma DefaultDateAccepted(row: seq<string>, cols: Columns, rowIndex: nat, rt: Runtime)
    requires TodayIsRealDay(rt)
    requires CellAt(row, cols.enrollmentDate).None?
    ensures RowStudent(row, cols, rowIndex, rt).enrollmentDate == rt.today(rowIndex)
    ensures !Broken(RowStudent(row, cols, rowIndex, rt), EnrollmentDateNotValid)
  {
    TodayAccepted(rt, rowIndex);
  }

  /**
   * The row `,bad-email,150,,2024-13-40`, read as the first data row under the header
   * `name,email,grade,course,enrollmentDate` (whose columns are 0 to 4, see
   * `PerformanceReport.ExportHeadersImport`) at clock 0, is the record `BadRow`, and it
   * fails with five errors on spreadsheet row 2.
   */
  lemma BadRowFromCsv(rt: Runtime)
    requires rt.now(0) == 0 && rt.parseFloat("150") == Num(150.0)
    ensures RowStudent(["", "bad-email", "150", "", "2024-13-40"], Columns(0, 1, 2, 3, 4), 0, rt) == BadRow
    ensures ValidateStudent(RowStudent(["", "bad-email", "150", "", "2024-13-40"], Columns(0, 1, 2, 3, 4), 0, rt), 2)
      == [ErrorOf(2, NameRequired), ErrorOf(2, EmailNotValid), ErrorOf(2, GradeOutOfRange),
          ErrorOf(2, CourseRequired), ErrorOf(2, EnrollmentDateNotValid)]
  {
    assert NatToString(0) == "0";
    assert TempId(rt, 0) == "temp-0-0";
    ValidateStudentExample();
  }

  /** `row.length === 0 || (row.length === 1 && row[0] === '')`. */
  predicate IsSkipped(row: seq<string>) {
    |row| == 0 || (|row| == 1 && row[0] == "")
  }

  /** `{ students, errors }`. */
  datatype Conversion = Conversion(students: seq<Student>, errors: seq<RowFailure>)

  /** The outcome of rows `data[i..]`, each with its own index for the id and the row number. */
  function ConvertFrom(data: seq<seq<string>>, cols: Columns, rt: Runtime, i: nat): Conversion
    requires i <= |data|
    decreases |data| - i
  {
    if i == |data| then Conversion([], [])
    else
      var rest := ConvertFrom(data, cols, rt, i + 1);
      if IsSkipped(data[i]) then rest
      else
        var s := RowStudent(data[i], cols, i, rt);
        var errs := ValidateStudent(s, i + 2);
        if |errs| > 0 then Conversion(rest.students, [RowFailure(data[i], errs)] + rest.errors)
        else Conversion([s] + rest.students, rest.errors)
  }

  /** What `convertCSVToStudents(data, headers)` returns. */
  function Converted(data: seq<seq<string>>, headers: seq<string>, rt: Runtime): Conversion {
    ConvertFrom(data, ColumnsOf(headers), rt, 0)
  }

  /** `convertCSVToStudents`: the `forEach` over the rows, pushing to `students` or `errors`. */
  method ConvertCsvToStudents(data: seq<seq<string>>, headers: seq<string>, rt: Runtime)
    returns (students: seq<Student>, errors: seq<RowFailure>)
    ensures Conversion(students, errors) == Converted(data, headers, rt)
  {
    var cols := ColumnsOf(headers);
    ghost var total := ConvertFrom(data, cols, rt, 0);
    students, errors := [], [];
    var rowIndex := 0;
    while rowIndex < |data|
      invariant 0 <= rowIndex <= |data|
      invariant students + ConvertFrom(data, cols, rt, rowIndex).students == total.students
      invariant errors + ConvertFrom(data, cols, rt, rowIndex).errors == total.errors
    {
      var row := data[rowIndex];
      if IsSkipped(row) {
        SkippedRow(data, cols, rt, rowIndex);
      } else {
        var studentData := RowStudent(row, cols, rowIndex, rt);
        var validationErrors := ValidateStudentSteps(studentData, rowIndex + 2);
        if |validationErrors| > 0 {
          FailedRow(data, cols, rt, rowIndex, errors);
          errors := errors + [RowFailure(row, validationErrors)];
        } else {
          AcceptedRow(data, cols, rt, rowIndex, students);
          students := students + [studentData];
        }
      }
      rowIndex := rowIndex + 1;
    }
    assert ConvertFrom(data, cols, rt, rowIndex) == Conversion([], []);
    assert students + [] == students && errors + [] == errors;
  }

  /** A skipped row adds nothing. */
  lemma SkippedRow(data: seq<seq<string>>, cols: Columns, rt: Runtime, i: nat)
    requires i < |data| && IsSkipped(data[i])
    ensures ConvertFrom(data, cols, rt, i) == ConvertFrom(data, cols, rt, i + 1)
  {
  }

  /** A row with errors adds its failure to `errors` and nothing to `students`. */
  lemma FailedRow(data: seq<seq<string>>, cols: Columns, rt: Runtime, i: nat, errors: seq<RowFailure>)
    requires i < |data| && !IsSkipped(data[i])
    requires |ValidateStudent(RowStudent(data[i], cols, i, rt), i + 2)| > 0
    ensures ConvertFrom(data, cols, rt, i).students == ConvertFrom(data, cols, rt, i + 1).students
    ensures errors + ConvertFrom(data, cols, rt, i).errors
      == (errors + [RowFailure(data[i], ValidateStudent(RowStudent(data[i], cols, i, rt), i + 2))])
         + ConvertFrom(data, cols, rt, i + 1).errors
  {
    var f := RowFailure(data[i], ValidateStudent(RowStudent(data[i], cols, i, rt), i + 2));
    var rest := ConvertFrom(data, cols, rt, i + 1).errors;
    assert ConvertFrom(data, cols, rt, i).errors == [f] + rest;
    assert errors + ([f] + rest) == (errors + [f]) + rest;
  }

  /** A row without errors adds its record to `students` and nothing to `errors`. */
  lemma AcceptedRow(data: seq<seq<string>>, cols: Columns, rt: Runtime, i: nat, students: seq<Student>)
    requires i < |data| && !IsSkipped(data[i])
    requires |ValidateStudent(RowStudent(data[i], cols, i, rt), i + 2)| == 0
    ensures ConvertFrom(data, cols, rt, i).errors == ConvertFrom(data, cols, rt, i + 1).errors
    ensures students + ConvertFrom(data, cols, rt, i).students
      == (students + [RowStudent(data[i], cols, i, rt)]) + ConvertFrom(data, cols, rt, i + 1).students
  {
    var s := RowStudent(data[i], cols, i, rt);
    var rest := ConvertFrom(data, cols, rt, i + 1).students;
    assert ConvertFrom(data, cols, rt, i).students == [s] + rest;
    assert students + ([s] + rest) == (students + [s]) + rest;
  }

  /** Every row that is not skipped ends up in exactly one of the two lists. */
  lemma {:induction false} ConvertCounts(data: seq<seq<string>>, cols: Columns, rt: Runtime, i: nat)
    requires i <= |data|
    ensures |ConvertFrom(data, cols, rt, i).students| + |ConvertFrom(data, cols, rt, i).errors|
      == CountWhere(data[i..], (row: seq<string>) => !IsSkipped(row))
    decreases |data| - i
  {
    if i < |data| {
      ConvertCounts(data, cols, rt, i + 1);
      assert data[i..][1..] == data[i + 1..];
    }
  }

  /** The records row `i` adds in front of those of the rows after it. */
  lemma StudentsStep(data: seq<seq<string>>, cols: Columns, rt: Runtime, i: nat)
    requires i < |data|
    ensures var s := RowStudent(data[i], cols, i, rt);
      ConvertFrom(data, cols, rt, i).students
        == (if !IsSkipped(data[i]) && ValidateStudent(s, i + 2) == [] then [s] else []) + ConvertFrom(data, cols, rt, i + 1).students
  {
    var next := ConvertFrom(data, cols, rt, i + 1);
    assert [] + next.students == next.students;
  }

  /** The failure row `i` adds in front of those of the rows after it. */
  lemma ErrorsStep(data: seq<seq<string>>, cols: Columns, rt: Runtime, i: nat)
    requires i < |data|
    ensures var errs := ValidateStudent(RowStudent(data[i], cols, i, rt), i + 2);
      ConvertFrom(data, cols, rt, i).errors
        == (if !IsSkipped(data[i]) && errs != [] then [RowFailure(data[i], errs)] else []) + ConvertFrom(data, cols, rt, i + 1).errors
  {
    var next := ConvertFrom(data, cols, rt, i + 1);
    assert [] + next.errors == next.errors;
  }

  /** A valid row from `i` on has its record among the students. */
  lemma {:induction false} AcceptedPlaced(data: seq<seq<string>>, cols: Columns, rt: Runtime, i: nat, j: nat)
    requires i <= j < |data| && !IsSkipped(data[j])
    requires ValidateStudent(RowStudent(data[j], cols, j, rt), j + 2) == []
    ensures RowStudent(data[j], cols, j, rt) in ConvertFrom(data, cols, rt, i).students
    decreases j - i
  {
    var x := RowStudent(data[j], cols, j, rt);
    StudentsStep(data, cols, rt, i);
    var s := RowStudent(data[i], cols, i, rt);
    var head: seq<Student> := if !IsSkipped(data[i]) && ValidateStudent(s, i + 2) == [] then [s] else [];
    var next := ConvertFrom(data, cols, rt, i + 1).students;
    if i < j {
      AcceptedPlaced(data, cols, rt, i + 1, j);
      InConcat(x, head, next);
    } else {
      assert head == [x];
      InConcat(x, head, next);
    }
  }

  /** A failing row from `i` on has its failure among the errors. */
  lemma {:induction false} FailurePlaced(data: seq<seq<string>>, cols: Columns, rt: Runtime, i: nat, j: nat)
    requires i <= j < |data| && !IsSkipped(data[j])
    requires ValidateStudent(RowStudent(data[j], cols, j, rt), j + 2) != []
    ensures RowFailure(data[j], ValidateStudent(RowStudent(data[j], cols, j, rt), j + 2)) in ConvertFrom(data, cols, rt, i).errors
    decreases j - i
  {
    var x := RowFailure(data[j], ValidateStudent(RowStudent(data[j], cols, j, rt), j + 2));
    ErrorsStep(data, cols, rt, i);
    var errs := ValidateStudent(RowStudent(data[i], cols, i, rt), i + 2);
    var head: seq<RowFailure> := if !IsSkipped(data[i]) && errs != [] then [RowFailure(data[i], errs)] else [];
    var next := ConvertFrom(data, cols, rt, i + 1).errors;
    if i < j {
      FailurePlaced(data, cols, rt, i + 1, j);
      InConcat(x, head, next);
    } else {
      assert head == [x];
      InConcat(x, head, next);
    }
  }

  /**
   * Every row from `i` on that is not skipped is placed: its record among the students
   * when it has no errors, otherwise its failure among the errors.
   */
  lemma ConvertPlacesRow(data: seq<seq<string>>, cols: Columns, rt: Runtime, i: nat, j: nat)
    requires i <= j < |data| && !IsSkipped(data[j])
    ensures var errs := ValidateStudent(RowStudent(data[j], cols, j, rt), j + 2);
      && (errs == [] ==> RowStudent(data[j], cols, j, rt) in ConvertFrom(data, cols, rt, i).students)
      && (errs != [] ==> RowFailure(data[j], errs) in ConvertFrom(data, cols, rt, i).errors)
  {
    if ValidateStudent(RowStudent(data[j], cols, j, rt), j + 2) == [] {
      AcceptedPlaced(data, cols, rt, i, j);
    } else {
      FailurePlaced(data, cols, rt, i, j);
    }
  }

  /** Row `i` comes first both in all the rows and in the rows before `m`. */
  lemma StudentsSplitStep(data: seq<seq<string>>, cols: Columns, rt: Runtime, i: nat, m: nat)
    requires i < m <= |data|
    requires ConvertFrom(data, cols, rt, i + 1).students
      == ConvertFrom(data[..m], cols, rt, i + 1).students + ConvertFrom(data, cols, rt, m).students
    ensures ConvertFrom(data, cols, rt, i).students
      == ConvertFrom(data[..m], cols, rt, i).students + ConvertFrom(data, cols, rt, m).students
  {
    StudentsStep(data, cols, rt, i);
    StudentsStep(data[..m], cols, rt, i);
    assert data[..m][i] == data[i];
    var s := RowStudent(data[i], cols, i, rt);
    var head: seq<Student> := if !IsSkipped(data[i]) && ValidateStudent(s, i + 2) == [] then [s] else [];
    Regrouped(ConvertFrom(data, cols, rt, i).students, ConvertFrom(data[..m], cols, rt, i).students,
      head, ConvertFrom(data[..m], cols, rt, i + 1).students, ConvertFrom(data, cols, rt, i + 1).students,
      ConvertFrom(data, cols, rt, m).students);
  }

  /**
   * Converting works row by row: the rows before `m` contribute their records ahead
   * of those of the rows from `m` on.
   */
  lemma {:induction false} StudentsSplit(data: seq<seq<string>>, cols: Columns, rt: Runtime, i: nat, m: nat)
    requires i <= m <= |data|
    ensures ConvertFrom(data, cols, rt, i).students
      == ConvertFrom(data[..m], cols, rt, i).students + ConvertFrom(data, cols, rt, m).students
    decreases m - i
  {
    if i < m {
      StudentsSplit(data, cols, rt, i + 1, m);
      StudentsSplitStep(data, cols, rt, i, m);
    } else {
      var back := ConvertFrom(data, cols, rt, m).students;
      assert ConvertFrom(data[..m], cols, rt, i).students == [];
      assert [] + back == back;
    }
  }

  /** Row `i` comes first both in all the rows and in the rows before `m`. */
  lemma ErrorsSplitStep(data: seq<seq<string>>, cols: Columns, rt: Runtime, i: nat, m: nat)
    requires i < m <= |data|
    requires ConvertFrom(data, cols, rt, i + 1).errors
      == ConvertFrom(data[..m], cols, rt, i + 1).errors + ConvertFrom(data, cols, rt, m).errors
    ensures ConvertFrom(data, cols, rt, i).errors
      == ConvertFrom(data[..m], cols, rt, i).errors + ConvertFrom(data, cols, rt, m).errors
  {
    ErrorsStep(data, cols, rt, i);
    ErrorsStep(data[..m], cols, rt, i);
    assert data[..m][i] == data[i];
    var errs := ValidateStudent(RowStudent(data[i], cols, i, rt), i + 2);
    var head: seq<RowFailure> := if !IsSkipped(data[i]) && errs != [] then [RowFailure(data[i], errs)] else [];
    Regrouped(ConvertFrom(data, cols, rt, i).errors, ConvertFrom(data[..m], cols, rt, i).errors,
      head, ConvertFrom(data[..m], cols, rt, i + 1).errors, ConvertFrom(data, cols, rt, i + 1).errors,
      ConvertFrom(data, cols, rt, m).errors);
  }

  /** Likewise, the rows before `m` contribute their failures ahead of those of the rows from `m` on. */
  lemma {:induction false} ErrorsSplit(data: seq<seq<string>>, cols: Columns, rt: Runtime, i: nat, m: nat)
    requires i <= m <= |data|
    ensures ConvertFrom(data, cols, rt, i).errors
      == ConvertFrom(data[..m], cols, rt, i).errors + ConvertFrom(data, cols, rt, m).errors
    decreases m - i
  {
    if i < m {
      ErrorsSplit(data, cols, rt, i + 1, m);
      ErrorsSplitStep(data, cols, rt, i, m);
    } else {
      var back := ConvertFrom(data, cols, rt, m).errors;
      assert ConvertFrom(data[..m], cols, rt, i).errors == [];
      assert [] + back == back;
    }
  }

  /** Each failure reports at least one error, and the first row numbers strictly increase. */
  predicate RowsIncreasing(failures: seq<RowFailure>) {
    && (forall k :: 0 <= k < |failures| ==> failures[k].errors != [])
    && (forall k, l :: 0 <= k < l < |failures| ==> failures[k].errors[0].row < failures[l].errors[0].row)
  }

  lemma ConsIncreasing(f: RowFailure, rest: seq<RowFailure>, n: int)
    requires RowsIncreasing(rest) && f.errors != [] && f.errors[0].row == n
    requires forall l :: 0 <= l < |rest| ==> rest[l].errors[0].row > n
    ensures RowsIncreasing([f] + rest)
  {
    var all := [f] + rest;
    assert forall l :: 1 <= l < |all| ==> all[l] == rest[l - 1];
  }

  /** The failures come in row order: their row numbers strictly increase. */
  lemma {:induction false} ConvertFailuresOrdered(data: seq<seq<string>>, cols: Columns, rt: Runtime, i: nat)
    requires i <= |data|
    ensures RowsIncreasing(ConvertFrom(data, cols, rt, i).errors)
    decreases |data| - i
  {
    if i < |data| {
      ConvertFailuresOrdered(data, cols, rt, i + 1);
      var rest := ConvertFrom(data, cols, rt, i + 1).errors;
      var errs := ValidateStudent(RowStudent(data[i], cols, i, rt), i + 2);
      if !IsSkipped(data[i]) && errs != [] {
        ConvertFailures(data, cols, rt, i + 1);
        assert forall l :: 0 <= l < |rest| ==> rest[l].errors[0].row > i + 2;
        var f := RowFailure(data[i], errs);
        FailureRowNumbers(data, cols, rt, f, i);
        assert f.errors[0] in f.errors;
        ConsIncreasing(f, rest, i + 2);
      }
    }
  }

  /** Every accepted record meets all the rules of `validateStudent`. */
  lemma {:induction false} ConvertAcceptsValid(data: seq<seq<string>>, cols: Columns, rt: Runtime, i: nat)
    requires i <= |data|
    ensures forall k :: 0 <= k < |ConvertFrom(data, cols, rt, i).students| ==>
      MeetsAllRules(ConvertFrom(data, cols, rt, i).students[k])
    decreases |data| - i
  {
    if i < |data| {
      ConvertAcceptsValid(data, cols, rt, i + 1);
      var rest := ConvertFrom(data, cols, rt, i + 1);
      if !IsSkipped(data[i]) {
        var s := RowStudent(data[i], cols, i, rt);
        ValidateStudentEmpty(s, i + 2);
        var all := [s] + rest.students;
        assert forall k :: 1 <= k < |all| ==> all[k] == rest.students[k - 1];
      }
    }
  }

  /** `f` is the failure of data row `j`: its cells and the errors of its record, reported for row `j + 2`. */
  predicate FailureOfRow(data: seq<seq<string>>, cols: Columns, rt: Runtime, f: RowFailure, j: nat)
    requires j < |data|
  {
    && !IsSkipped(data[j])
    && f.rowData == data[j]
    && f.errors == ValidateStudent(RowStudent(data[j], cols, j, rt), j + 2)
    && f.errors != []
  }

  /**
   * Every failure is that of a non-skipped row at or after `i`, namely the row whose
   * index plus two its first error reports.
   */
  lemma {:induction false} ConvertFailures(data: seq<seq<string>>, cols: Columns, rt: Runtime, i: nat)
    requires i <= |data|
    ensures forall k :: 0 <= k < |ConvertFrom(data, cols, rt, i).errors| ==>
      FailureAt(data, cols, rt, ConvertFrom(data, cols, rt, i).errors[k], i)
    decreases |data| - i
  {
    if i < |data| {
      ConvertFailures(data, cols, rt, i + 1);
      var rest := ConvertFrom(data, cols, rt, i + 1).errors;
      var all := ConvertFrom(data, cols, rt, i).errors;
      forall k | 0 <= k < |rest| ensures FailureAt(data, cols, rt, rest[k], i) {
        LaterFailure(data, cols, rt, rest[k], i);
      }
      var errs := ValidateStudent(RowStudent(data[i], cols, i, rt), i + 2);
      if !IsSkipped(data[i]) && errs != [] {
        assert all == [RowFailure(data[i], errs)] + rest;
        NewFailure(data, cols, rt, i);
      } else {
        assert all == rest;
      }
    }
  }

  /** A failure of a row from `i + 1` on is one from `i` on. */
  lemma LaterFailure(data: seq<seq<string>>, cols: Columns, rt: Runtime, f: RowFailure, i: nat)
    requires FailureAt(data, cols, rt, f, i + 1)
    ensures FailureAt(data, cols, rt, f, i)
  {
  }

  lemma NewFailure(data: seq<seq<string>>, cols: Columns, rt: Runtime, i: nat)
    requires i < |data| && !IsSkipped(data[i])
    requires ValidateStudent(RowStudent(data[i], cols, i, rt), i + 2) != []
    ensures FailureAt(data, cols, rt, RowFailure(data[i], ValidateStudent(RowStudent(data[i], cols, i, rt), i + 2)), i)
  {
    ValidateStudentReports(RowStudent(data[i], cols, i, rt), i + 2);
  }

  /** `f` is the failure of a row from `i` on: the row its first error's number points to. */
  predicate FailureAt(data: seq<seq<string>>, cols: Columns, rt: Runtime, f: RowFailure, i: nat) {
    && f.errors != []
    && i <= f.errors[0].row - 2 < |data|
    && FailureOfRow(data, cols, rt, f, f.errors[0].row - 2)
  }

  /** Every reported error of a failed row carries that row's number: its index plus two. */
  lemma FailureRowNumbers(data: seq<seq<string>>, cols: Columns, rt: Runtime, f: RowFailure, j: nat)
    requires j < |data| && FailureOfRow(data, cols, rt, f, j)
    ensures forall e :: e in f.errors ==> e.row == j + 2
  {
    ValidateStudentReports(RowStudent(data[j], cols, j, rt), j + 2);
  }

  // ---------------------------------------------------------------------------
  // One file: parse, then convert
  // ---------------------------------------------------------------------------

  /**
   * What reading one file's text yields: the converted rows, or `None` when
   * `parseCSV` throws inside `reader.onload`, so that the file's promise never settles.
   */
  function FileOutcome(content: string, rt: Runtime): Option<Conversion> {
    match ParseResult(content)
    case None => None
    case Some(p) => Some(Converted(p.data, p.headers, rt))
  }

  /** The `onload` handler of `processCSVFiles` for one file. */
  method ProcessFile(content: string, rt: Runtime) returns (r: Option<Conversion>)
    ensures r == FileOutcome(content, rt)
  {
    var parsed := ParseCsv(content);
    match parsed
    case None => r := None;
    case Some(p) =>
      var students, errors := ConvertCsvToStudents(p.data, p.headers, rt);
      r := Some(Conversion(students, errors));
  }

  // ---------------------------------------------------------------------------
  // Worked examples
  // ---------------------------------------------------------------------------

  /** A run of characters the scanner only appends goes to the front of the current cell. */
  lemma {:induction false} AppendRun(x: string, tail: string, inQuotes: bool)
    requires '"' !in x && (inQuotes || ',' !in x)
    ensures RawFields(x + tail, inQuotes)
      == [x + RawFields(tail, inQuotes)[0]] + RawFields(tail, inQuotes)[1..]
    decreases |x|
  {
    var r := RawFields(tail, inQuotes);
    if x == [] {
      assert x + tail == tail;
      assert x + r[0] == r[0];
      assert [r[0]] + r[1..] == r;
    } else {
      assert (x + tail)[0] == x[0] && (x + tail)[1..] == x[1..] + tail;
      assert x[0] in x && forall c :: c in x[1..] ==> c in x;
      AppendRun(x[1..], tail, inQuotes);
      assert [x[0]] + (x[1..] + r[0]) == x + r[0];
    }
  }

  lemma QuoteFlip(t: string, inQuotes: bool)
    ensures RawFields("\"" + t, inQuotes) == RawFields(t, !inQuotes)
  {
    assert ("\"" + t)[1..] == t;
  }

  lemma CommaCut(t: string)
    ensures RawFields("," + t, false) == [""] + RawFields(t, false)
  {
    assert ("," + t)[1..] == t;
  }

  /**
   * A cell between quotes keeps its commas and loses its quotes: the line
   * `a,"b",c` yields the cells `a`, `b` and `c` even where `b` holds commas.
   */
  lemma QuotedCell(a: string, b: string, c: string)
    requires '"' !in a && '"' !in b && '"' !in c && ',' !in a && ',' !in c
    ensures RawFields(a + ",\"" + b + "\"," + c, false) == [a, b, c]
  {
    var rest := b + ("\"" + ("," + c));
    QuotedTail(b, c);
    QuoteFlip(rest, false);
    CommaCut("\"" + rest);
    var opening := "," + ("\"" + rest);
    assert RawFields(opening, false) == ["", b, c];
    AppendRun(a, opening, false);
    assert a + "" == a;
    QuotedLine(a, b, c);
  }

  /** The scanner inside quotes, from the quoted cell `b` to the end of the line. */
  lemma QuotedTail(b: string, c: string)
    requires '"' !in b && '"' !in c && ',' !in c
    ensures RawFields(b + ("\"" + ("," + c)), true) == [b, c]
  {
    AppendRun(c, "", false);
    assert c + "" == c;
    assert RawFields(c, false) == [c];
    CommaCut(c);
    var closing := "\"" + ("," + c);
    QuoteFlip("," + c, true);
    assert RawFields(closing, true) == ["", c];
    AppendRun(b, closing, true);
    assert b + "" == b;
  }

  lemma QuotedLine(a: string, b: string, c: string)
    ensures a + ",\"" + b + "\"," + c == a + ("," + ("\"" + (b + ("\"" + ("," + c)))))
  {
  }
}
