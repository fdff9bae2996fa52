/**
 * The batch-import card (src/components/BatchImport.tsx): it holds the chosen files,
 * reads every one of them through the CSV pipeline, folds the per-file results into
 * one `ImportResult` and hands the accepted records to the page.
 */
module BatchImport {
  import opened Text
  import opened StudentTypes
  import opened Validation
  import opened CsvParser

  // ---------------------------------------------------------------------------
  // Reading the files (the per-file part of `processCSVFiles`)
  // ---------------------------------------------------------------------------

  /** `{ file, students, errors }`: what one file contributes. */
  datatype FileResult = FileResult(file: string, students: seq<Student>, errors: seq<RowFailure>)

  /**
   * `Promise.all` settles only when every file's `onload` resolves its promise, and a
   * file whose text `parseCSV` rejects never does. File `k` reads the clock through `rt(k)`.
   */
  predicate AllSettle(files: seq<UploadedFile>, rt: nat -> Runtime) {
    forall k :: 0 <= k < |files| ==> FileOutcome(files[k].content, rt(k)).Some?
  }

  /** The `results` array `processCSVFiles` resolves with, one entry per file in order. */
  function Results(files: seq<UploadedFile>, rt: nat -> Runtime): (results: seq<FileResult>)
    requires AllSettle(files, rt)
    ensures |results| == |files|
    ensures forall k :: 0 <= k < |files| ==>
      && results[k].file == files[k].name
      && results[k].students == FileOutcome(files[k].content, rt(k)).value.students
      && results[k].errors == FileOutcome(files[k].content, rt(k)).value.errors
  {
    seq(|files|, k requires 0 <= k < |files| =>
      FileResult(files[k].name, FileOutcome(files[k].content, rt(k)).value.students,
                 FileOutcome(files[k].content, rt(k)).value.errors))
  }

  /** A file settles exactly when its text holds a non-blank line. */
  lemma SettlesIffNonBlank(files: seq<UploadedFile>, rt: nat -> Runtime)
    ensures AllSettle(files, rt) <==> forall k :: 0 <= k < |files| ==> !Blank(files[k].content)
  {
    forall k | 0 <= k < |files| {
      ParseFailsIffBlank(files[k].content);
    }
  }

  // ---------------------------------------------------------------------------
  // The aggregation fold of `handleImport`
  // ---------------------------------------------------------------------------

  /** `allStudents` after the fold: every file's records, file after file. */
  function AllStudents(results: seq<FileResult>): seq<Student> {
    if results == [] then [] else AllStudents(results[..|results| - 1]) + results[|results| - 1].students
  }

  /** `allFailed` after the fold: every file's failed rows, file after file. */
  function AllFailed(results: seq<FileResult>): seq<RowFailure> {
    if results == [] then [] else AllFailed(results[..|results| - 1]) + results[|results| - 1].errors
  }

  /** `totalRows` after the fold: the sum over files of records plus failed rows. */
  function TotalRows(results: seq<FileResult>): nat {
    if results == [] then 0
    else TotalRows(results[..|results| - 1]) + |results[|results| - 1].students| + |results[|results| - 1].errors|
  }

  /** The `results.forEach` of `handleImport` (lines 42-56). */
  method Aggregate(results: seq<FileResult>) returns (r: ImportResult)
    ensures r == ImportResult(AllStudents(results), AllFailed(results), TotalRows(results))
  {
    var allStudents: seq<Student> := [];
    var allFailed: seq<RowFailure> := [];
    var totalRows := 0;
    var i := 0;
    while i < |results|
      invariant 0 <= i <= |results|
      invariant allStudents == AllStudents(results[..i])
      invariant allFailed == AllFailed(results[..i])
      invariant totalRows == TotalRows(results[..i])
    {
      assert results[..i + 1][..i] == results[..i];
      allStudents := allStudents + results[i].students;
      allFailed := allFailed + results[i].errors;
      totalRows := totalRows + |results[i].students| + |results[i].errors|;
      i := i + 1;
    }
    assert results[..i] == results;
    r := ImportResult(allStudents, allFailed, totalRows);
  }

  /** `totalRows` counts exactly the rows in `successful` and `failed`. */
  lemma {:induction false} TotalRowsCounts(results: seq<FileResult>)
    ensures TotalRows(results) == |AllStudents(results)| + |AllFailed(results)|
  {
    if results != [] {
      TotalRowsCounts(results[..|results| - 1]);
    }
  }

  lemma {:induction false} AllStudentsConcat(a: seq<FileResult>, b: seq<FileResult>)
    ensures AllStudents(a + b) == AllStudents(a) + AllStudents(b)
    decreases |b|
  {
    if b == [] {
      assert a + b == a;
    } else {
      var b' := b[..|b| - 1];
      assert (a + b)[..|a + b| - 1] == a + b';
      AllStudentsConcat(a, b');
    }
  }

  lemma {:induction false} AllFailedConcat(a: seq<FileResult>, b: seq<FileResult>)
    ensures AllFailed(a + b) == AllFailed(a) + AllFailed(b)
    decreases |b|
  {
    if b == [] {
      assert a + b == a;
    } else {
      var b' := b[..|b| - 1];
      assert (a + b)[..|a + b| - 1] == a + b';
      AllFailedConcat(a, b');
    }
  }

  /**
   * File `k`'s records and failed rows form one contiguous block of `successful` and
   * of `failed`, after those of every earlier file and before those of every later one.
   */
  lemma FileOrder(results: seq<FileResult>, k: nat)
    requires k < |results|
    ensures AllStudents(results)
      == AllStudents(results[..k]) + results[k].students + AllStudents(results[k + 1..])
    ensures AllFailed(results)
      == AllFailed(results[..k]) + results[k].errors + AllFailed(results[k + 1..])
  {
    var init, rest := results[..k + 1], results[k + 1..];
    assert results == init + rest;
    assert init[..k] == results[..k] && init[|init| - 1] == results[k];
    AllStudentsConcat(init, rest);
    AllFailedConcat(init, rest);
    assert AllStudents(init) == AllStudents(results[..k]) + results[k].students;
    assert AllFailed(init) == AllFailed(results[..k]) + results[k].errors;
  }

  /** Records that each meet every rule stay so when the files are put together. */
  lemma {:induction false} AllStudentsValid(results: seq<FileResult>)
    requires forall i, k :: 0 <= i < |results| && 0 <= k < |results[i].students| ==>
      MeetsAllRules(results[i].students[k])
    ensures forall k :: 0 <= k < |AllStudents(results)| ==> MeetsAllRules(AllStudents(results)[k])
  {
    if results != [] {
      var init := results[..|results| - 1];
      var last := results[|results| - 1].students;
      assert forall i :: 0 <= i < |init| ==> init[i] == results[i];
      AllStudentsValid(init);
      var all := AllStudents(init) + last;
      assert forall k :: |AllStudents(init)| <= k < |all| ==> all[k] == last[k - |AllStudents(init)|];
    }
  }

  /** Every record a batch import accepts meets all the rules of `validateStudent`. */
  lemma ImportAcceptsValid(files: seq<UploadedFile>, rt: nat -> Runtime)
    requires AllSettle(files, rt)
    ensures forall k :: 0 <= k < |AllStudents(Results(files, rt))| ==>
      MeetsAllRules(AllStudents(Results(files, rt))[k])
  {
    var results := Results(files, rt);
    forall i | 0 <= i < |results|
      ensures forall k :: 0 <= k < |results[i].students| ==> MeetsAllRules(results[i].students[k])
    {
      var p := ParseResult(files[i].content).value;
      ConvertAcceptsValid(p.data, ColumnsOf(p.headers), rt(i), 0);
    }
    AllStudentsValid(results);
  }

  // ---------------------------------------------------------------------------
  // The component state
  // ---------------------------------------------------------------------------

  /** The two tabs of the card. */
  datatype Tab = UploadTab | ResultsTab

  function NoFilesToast(): (t: Toast)
    ensures t.variant == Destructive
  {
    Toast("No files selected", "Please select at least one CSV file to import.", Destructive)
  }

  /** The summary toast: it is destructive exactly when no record was imported. */
  function CompletedToast(imported: nat, failed: nat): (t: Toast)
    ensures t.variant == Destructive <==> imported == 0
  {
    Toast("Import completed",
      "Successfully imported " + NatToString(imported) + " students. " + NatToString(failed) + " entries had errors.",
      if imported > 0 then Default else Destructive)
  }

  /** The state of the `BatchImport` component. */
  class BatchImporter {
    var files: seq<UploadedFile>
    var isImporting: bool
    var importResults: Option<ImportResult>
    var activeTab: Tab

    constructor()
      ensures files == [] && !isImporting && importResults == None && activeTab == UploadTab
    {
      files := [];
      isImporting := false;
      importResults := None;
      activeTab := UploadTab;
    }

    /** `handleFilesSelected`: the new files go after the ones already held. */
    method HandleFilesSelected(selected: seq<UploadedFile>)
      modifies this
      ensures files == old(files) + selected
      ensures isImporting == old(isImporting) && importResults == old(importResults)
      ensures activeTab == old(activeTab)
    {
      files := files + selected;
    }

    /**
     * `handleImport`. Returns the argument of `onStudentsImported` when it is called
     * and the toast raised, if any. Where some file never settles the component stays
     * in the importing state with no toast.
     */
    method HandleImport(rt: nat -> Runtime) returns (imported: Option<seq<Student>>, toast: Option<Toast>)
      modifies this
      ensures files == old(files)
      ensures old(files) == [] ==>
        && isImporting == old(isImporting) && importResults == old(importResults)
        && activeTab == old(activeTab) && imported == None && toast == Some(NoFilesToast())
      ensures old(files) != [] && !AllSettle(old(files), rt) ==>
        && isImporting && importResults == old(importResults) && activeTab == old(activeTab)
        && imported == None && toast == None
      ensures old(files) != [] && AllSettle(old(files), rt) ==>
        var results := Results(old(files), rt);
        && importResults == Some(ImportResult(AllStudents(results), AllFailed(results), TotalRows(results)))
        && !isImporting && activeTab == ResultsTab
        && imported == (if AllStudents(results) != [] then Some(AllStudents(results)) else None)
        && toast == Some(CompletedToast(|AllStudents(results)|, |AllFailed(results)|))
    {
      if |files| == 0 {
        return None, Some(NoFilesToast());
      }
      isImporting := true;
      if !AllSettle(files, rt) {
        return None, None;
      }
      var summary := Aggregate(Results(files, rt));
      importResults := Some(summary);
      imported := if |summary.successful| > 0 then Some(summary.successful) else None;
      toast := Some(CompletedToast(|summary.successful|, |summary.failed|));
      activeTab := ResultsTab;
      isImporting := false;
    }

    /** `resetImport`: no files, no results, back on the upload tab. */
    method ResetImport()
      modifies this
      ensures files == [] && importResults == None && activeTab == UploadTab
      ensures isImporting == old(isImporting)
    {
      files := [];
      importResults := None;
      activeTab := UploadTab;
    }
  }
}
