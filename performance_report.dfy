/**
 * The performance report page (src/pages/PerformanceReport.tsx): the grade-threshold
 * lists, the average badge, and the CSV text the export button writes. `data` is the
 * query result, `None` while it is undefined.
 */
module PerformanceReport {
  import opened Text
  import opened Seqs
  import opened StudentTypes
  import opened CsvParser

  // ---------------------------------------------------------------------------
  // Thresholds
  // ---------------------------------------------------------------------------

  /** `Number(student.grade) >= 90`; NaN compares false. */
  predicate IsTopPerformer(s: Student) {
    s.grade.Num? && s.grade.value >= 90.0
  }

  /** `Number(student.grade) < 70`. */
  predicate NeedsImprovement(s: Student) {
    s.grade.Num? && s.grade.value < 70.0
  }

  /** `performanceData?.filter(…) || []`. */
  function TopPerformers(data: Option<seq<Student>>): seq<Student> {
    if data.None? then [] else Filter(data.value, IsTopPerformer)
  }

  function NeedingImprovement(data: Option<seq<Student>>): seq<Student> {
    if data.None? then [] else Filter(data.value, NeedsImprovement)
  }

  /**
   * The two lists hold exactly the rows at or above 90 and below 70, each as often as
   * it occurs in the data, so their lengths are the counts the page shows; no row is
   * on both.
   */
  lemma ThresholdSpec(data: seq<Student>)
    ensures forall k :: 0 <= k < |data| ==> (data[k] in TopPerformers(Some(data)) <==> IsTopPerformer(data[k]))
    ensures forall k :: 0 <= k < |data| ==> (data[k] in NeedingImprovement(Some(data)) <==> NeedsImprovement(data[k]))
    ensures forall s :: !(s in TopPerformers(Some(data)) && s in NeedingImprovement(Some(data)))
    ensures |TopPerformers(Some(data))| == CountWhere(data, IsTopPerformer)
    ensures |NeedingImprovement(Some(data))| == CountWhere(data, NeedsImprovement)
    ensures forall x :: multiset(TopPerformers(Some(data)))[x] == if IsTopPerformer(x) then multiset(data)[x] else 0
    ensures forall x :: multiset(NeedingImprovement(Some(data)))[x] == if NeedsImprovement(x) then multiset(data)[x] else 0
  {
    FilterLength(data, IsTopPerformer);
    FilterLength(data, NeedsImprovement);
    FilterMultiset(data, IsTopPerformer);
    FilterMultiset(data, NeedsImprovement);
  }

  /** Both filters work piecewise, so each list keeps the data order. */
  lemma ThresholdsConcat(a: seq<Student>, b: seq<Student>)
    ensures TopPerformers(Some(a + b)) == TopPerformers(Some(a)) + TopPerformers(Some(b))
    ensures NeedingImprovement(Some(a + b)) == NeedingImprovement(Some(a)) + NeedingImprovement(Some(b))
  {
    FilterConcat(a, b, IsTopPerformer);
    FilterConcat(a, b, NeedsImprovement);
  }

  // ---------------------------------------------------------------------------
  // The average grade and its badge
  // ---------------------------------------------------------------------------

  /** `Number(student?.grade || 0)`: NaN becomes 0. */
  function GradeValue(s: Student): real {
    if s.grade.Num? then s.grade.value else 0.0
  }

  function GradeSum(data: seq<Student>): real {
    if data == [] then 0.0 else GradeSum(data[..|data| - 1]) + GradeValue(data[|data| - 1])
  }

  /**
   * `reduce(…) / (performanceData?.length || 1)`, in exact arithmetic; with no data
   * the sum is undefined and the quotient NaN.
   */
  function AverageGrade(data: Option<seq<Student>>): Grade {
    if data.None? then NaN
    else Num(GradeSum(data.value) / (if |data.value| == 0 then 1 else |data.value|) as real)
  }

  /** Grades within 0..100 give an average within 0..100; no rows give 0. */
  lemma AverageBounds(data: seq<Student>)
    requires forall k :: 0 <= k < |data| ==> 0.0 <= GradeValue(data[k]) <= 100.0
    ensures 0.0 <= AverageGrade(Some(data)).value <= 100.0
    ensures data == [] ==> AverageGrade(Some(data)) == Num(0.0)
  {
    SumBounds(data);
  }

  lemma {:induction false} SumBounds(data: seq<Student>)
    requires forall k :: 0 <= k < |data| ==> 0.0 <= GradeValue(data[k]) <= 100.0
    ensures 0.0 <= GradeSum(data) <= 100.0 * |data| as real
  {
    if data != [] {
      var init := data[..|data| - 1];
      assert forall k :: 0 <= k < |init| ==> init[k] == data[k];
      SumBounds(init);
    }
  }

  datatype Label = Excellent | Good | NeedsWork

  datatype BadgeVariant = Success | Warning | DestructiveBadge

  /** The badge text: from 80 "Excellent", from 70 "Good", else (NaN included) "Needs Improvement". */
  function AverageLabel(avg: Grade): Label {
    if avg.Num? && avg.value >= 80.0 then Excellent
    else if avg.Num? && avg.value >= 70.0 then Good
    else NeedsWork
  }

  function LabelText(l: Label): string {
    match l
    case Excellent => "Excellent"
    case Good => "Good"
    case NeedsWork => "Needs Improvement"
  }

  function LabelRank(l: Label): nat {
    match l
    case NeedsWork => 0
    case Good => 1
    case Excellent => 2
  }

  /** The badge colour, chosen by the same thresholds as its text. */
  function Badge(avg: Grade): BadgeVariant {
    if avg.Num? && avg.value >= 80.0 then Success
    else if avg.Num? && avg.value >= 70.0 then Warning
    else DestructiveBadge
  }

  /**
   * A higher average never gets a lower label, and the badge colour always goes with
   * the label: success with "Excellent", warning with "Good", destructive otherwise.
   */
  lemma BadgeSpec(a: real, b: real, avg: Grade)
    ensures a <= b ==> LabelRank(AverageLabel(Num(a))) <= LabelRank(AverageLabel(Num(b)))
    ensures (Badge(avg) == Success <==> AverageLabel(avg) == Excellent)
    ensures (Badge(avg) == Warning <==> AverageLabel(avg) == Good)
    ensures AverageLabel(NaN) == NeedsWork
  {
  }

  // ---------------------------------------------------------------------------
  // The CSV export
  // ---------------------------------------------------------------------------

  /** `headers`, in the order the cells follow. */
  const ExportHeaders: seq<string> := ["name", "email", "grade", "course", "enrollmentDate"]

  /** `"${value}"`, without escaping. */
  function Quote(value: string): string {
    "\"" + value + "\""
  }

  /** The five field texts of a row in header order; `gradeText` is JavaScript's number formatting. */
  function RowCells(s: Student, gradeText: Grade -> string): seq<string> {
    [s.name, s.email, gradeText(s.grade), s.course, s.enrollmentDate]
  }

  /** Every cell wrapped in quotes, in order. */
  function QuotedCells(cells: seq<string>): (r: seq<string>)
    ensures |r| == |cells|
    ensures forall k :: 0 <= k < |cells| ==> r[k] == Quote(cells[k])
  {
    if cells == [] then [] else [Quote(cells[0])] + QuotedCells(cells[1..])
  }

  /** One exported row: the quoted cells joined by commas. */
  function ExportLine(s: Student, gradeText: Grade -> string): string {
    Join(QuotedCells(RowCells(s, gradeText)), ',')
  }

  /** The whole `csvContent`: the header line, then one line per row, joined by `\n`. */
  function ExportCsv(data: seq<Student>, gradeText: Grade -> string): string {
    Join([Join(ExportHeaders, ',')] + ExportRows(data, gradeText), '\n')
  }

  /** One exported line per student, in data order. */
  function ExportRows(data: seq<Student>, gradeText: Grade -> string): (r: seq<string>)
    ensures |r| == |data|
    ensures forall k :: 0 <= k < |data| ==> r[k] == ExportLine(data[k], gradeText)
  {
    if data == [] then [] else [ExportLine(data[0], gradeText)] + ExportRows(data[1..], gradeText)
  }

  /** No row field holds a line break, so every row stays on its own line. */
  predicate OneLine(s: Student, gradeText: Grade -> string) {
    forall k :: 0 <= k < 5 ==> '\n' !in RowCells(s, gradeText)[k]
  }

  lemma HeaderLine()
    ensures Join(ExportHeaders, ',') == "name,email,grade,course,enrollmentDate"
  {
  }

  lemma {:induction false} JoinNoChar(parts: seq<string>, d: char, c: char)
    requires c != d && forall k :: 0 <= k < |parts| ==> c !in parts[k]
    ensures c !in Join(parts, d)
  {
    if |parts| > 1 {
      JoinNoChar(parts[1..], d, c);
    }
  }

  /**
   * The export splits back into the header line followed by one line per row, in data
   * order, so it has one line more than there are rows.
   */
  lemma ExportLines(data: seq<Student>, gradeText: Grade -> string)
    requires forall k :: 0 <= k < |data| ==> OneLine(data[k], gradeText)
    ensures Split(ExportCsv(data, gradeText), '\n') == [Join(ExportHeaders, ',')] + ExportRows(data, gradeText)
    ensures |Split(ExportCsv(data, gradeText), '\n')| == |data| + 1
    ensures Split(ExportCsv(data, gradeText), '\n')[0] == "name,email,grade,course,enrollmentDate"
  {
    var rows := ExportRows(data, gradeText);
    var lines := [Join(ExportHeaders, ',')] + rows;
    HeaderLine();
    forall k | 0 <= k < |lines| ensures '\n' !in lines[k] {
      if k == 0 {
        HeaderOneLine();
      } else {
        assert lines[k] == rows[k - 1];
        ExportLineOneLine(data[k - 1], gradeText);
      }
    }
    SplitJoin(lines, '\n');
  }

  lemma HeaderOneLine()
    ensures '\n' !in Join(ExportHeaders, ',')
  {
    forall k | 0 <= k < |ExportHeaders| ensures '\n' !in ExportHeaders[k] {
      var h := ExportHeaders[k];
      assert forall i :: 0 <= i < |h| ==> 'A' <= h[i] <= 'z';
    }
    JoinNoChar(ExportHeaders, ',', '\n');
  }

  /** A row whose fields hold no line break exports as a single line. */
  lemma ExportLineOneLine(s: Student, gradeText: Grade -> string)
    requires OneLine(s, gradeText)
    ensures '\n' !in ExportLine(s, gradeText)
  {
    var cells := RowCells(s, gradeText);
    var quoted := QuotedCells(cells);
    forall j | 0 <= j < |quoted| ensures '\n' !in quoted[j] {
      assert quoted[j] == "\"" + cells[j] + "\"";
    }
    JoinNoChar(quoted, ',', '\n');
  }

  /**
   * Cells that hold no `"` come back unchanged when their quoted, comma-joined line
   * goes through the import scanner, whatever commas they contain.
   */
  lemma {:induction false} QuotedLineScans(cells: seq<string>)
    requires |cells| >= 1
    requires forall k :: 0 <= k < |cells| ==> '"' !in cells[k]
    ensures RawFields(Join(QuotedCells(cells), ','), false) == cells
  {
    var quoted := QuotedCells(cells);
    var c := cells[0];
    if |cells| == 1 {
      assert Join(quoted, ',') == Quote(c);
      LastQuoted(c);
    } else {
      var rest := Join(QuotedCells(cells[1..]), ',');
      QuotedLineScans(cells[1..]);
      assert Join(quoted, ',') == Quote(c) + [','] + rest;
      QuotedHead(c, rest);
      assert cells == [c] + cells[1..];
    }
  }

  /** A quoted last cell scans back to its text. */
  lemma LastQuoted(c: string)
    requires '"' !in c
    ensures RawFields(Quote(c), false) == [c]
  {
    assert Quote(c) == "\"" + (c + "\"");
    QuoteFlip(c + "\"", false);
    AppendRun(c, "\"", true);
    QuoteFlip("", true);
    assert c + "" == c;
  }

  /** A quoted cell followed by a comma scans to its text, then to whatever the rest scans to. */
  lemma QuotedHead(c: string, rest: string)
    requires '"' !in c
    ensures RawFields(Quote(c) + [','] + rest, false) == [c] + RawFields(rest, false)
  {
    var after := "\"" + ("," + rest);
    assert Quote(c) + [','] + rest == "\"" + (c + after);
    QuoteFlip(c + after, false);
    AppendRun(c, after, true);
    QuoteFlip("," + rest, true);
    CommaCut(rest);
    assert c + "" == c;
  }

  /**
   * An exported row without `"` in its fields reads back, through the CSV import
   * scanner, as its five field texts, each trimmed.
   */
  lemma ExportLineReimports(s: Student, gradeText: Grade -> string)
    requires forall k :: 0 <= k < 5 ==> '"' !in RowCells(s, gradeText)[k]
    ensures LineTokens(ExportLine(s, gradeText)) == TrimAll(RowCells(s, gradeText))
  {
    QuotedLineScans(RowCells(s, gradeText));
  }

  /** The export's header line names the five columns the import looks up, in column order. */
  lemma ExportHeadersImport()
    ensures ColumnsOf(HeaderCells(Join(ExportHeaders, ','))) == Columns(0, 1, 2, 3, 4)
  {
    ExportHeaderCells();
    ExportColumns();
  }

  lemma ExportHeaderCells()
    ensures HeaderCells(Join(ExportHeaders, ',')) == ExportHeaders
  {
    var h := ExportHeaders;
    forall k | 0 <= k < |h| ensures ',' !in h[k] {
      PlainHeader(k);
    }
    SplitJoin(h, ',');
    forall k | 0 <= k < |h| ensures Trim(h[k]) == h[k] {
      PlainHeader(k);
    }
    assert TrimAll(h) == h;
  }

  /** Export header `k` holds no comma and no surrounding white space. */
  lemma PlainHeader(k: nat)
    requires k < |ExportHeaders|
    ensures ',' !in ExportHeaders[k] && Trim(ExportHeaders[k]) == ExportHeaders[k]
  {
    var s := ExportHeaders[k];
    assert forall i :: 0 <= i < |s| ==> 'A' <= s[i] <= 'z';
    forall i | 0 <= i < |s| ensures s[i] != ',' {
    }
    TrimOfUnpadded(s);
  }

  lemma ExportColumns()
    ensures ColumnsOf(ExportHeaders) == Columns(0, 1, 2, 3, 4)
  {
    LowerHeader(0);
    LowerHeader(1);
    LowerHeader(2);
    LowerHeader(3);
    LowerHeader(4);
    DistinctColumns(ExportHeaders);
  }

  /** Header `k` of the export lower-cases to the key the import looks for in column `k`. */
  lemma LowerHeader(k: nat)
    requires k < 5
    ensures ToLower(ExportHeaders[k]) == ["name", "email", "grade", "course", "enrollmentdate"][k]
  {
    var h := ExportHeaders[k];
    if k == 4 {
      LowerDate(h);
    } else {
      assert forall i :: 0 <= i < |h| ==> 'a' <= h[i] <= 'z';
      LowerOfLower(h);
    }
  }

  lemma LowerOfLower(s: string)
    requires forall i :: 0 <= i < |s| ==> 'a' <= s[i] <= 'z'
    ensures ToLower(s) == s
  {
  }

  lemma LowerDate(s: string)
    requires s == "enrollmentDate"
    ensures ToLower(s) == "enrollmentdate"
  {
    assert ToLower(s)[10] == 'd';
  }

  /** Headers whose lower-case forms are the five keys, in key order, give columns 0 to 4. */
  lemma DistinctColumns(h: seq<string>)
    requires |h| == 5
    requires ToLower(h[0]) == "name" && ToLower(h[1]) == "email" && ToLower(h[2]) == "grade"
    requires ToLower(h[3]) == "course" && ToLower(h[4]) == "enrollmentdate"
    ensures ColumnsOf(h) == Columns(0, 1, 2, 3, 4)
  {
    FirstHeaderAt(h, "name", 0);
    FirstHeaderAt(h, "email", 1);
    FirstHeaderAt(h, "grade", 2);
    FirstHeaderAt(h, "course", 3);
    FirstHeaderAt(h, "enrollmentdate", 4);
  }

  /** The header lookup settles on column `k` when `k` is the first header matching `key`. */
  lemma FirstHeaderAt(headers: seq<string>, key: string, k: nat)
    requires k < |headers| && ToLower(headers[k]) == key
    requires forall j :: 0 <= j < k ==> ToLower(headers[j]) != key
    ensures HeaderIndex(headers, key) == k
  {
  }

  /** What the export button produces. */
  datatype ExportFile = NoExport | CsvExport(text: string) | JsonExport

  /** `handleExport`: nothing without data; the JSON text itself is not modelled. */
  function HandleExport(data: Option<seq<Student>>, format: string, gradeText: Grade -> string): (r: ExportFile)
    ensures data.None? ==> r == NoExport
    ensures data.Some? && format == "csv" ==> r == CsvExport(ExportCsv(data.value, gradeText))
  {
    if data.None? then NoExport
    else if format == "csv" then CsvExport(ExportCsv(data.value, gradeText))
    else if format == "json" then JsonExport
    else NoExport
  }
}
