/**
 * The student-list page (src/pages/Index.tsx): the full list of records and the
 * filtered list on show, kept side by side, with the handlers for searching, adding,
 * editing, deleting and importing records.
 */
module IndexPage {
  import opened Text
  import opened Seqs
  import opened StudentTypes

  // ---------------------------------------------------------------------------
  // The list operations
  // ---------------------------------------------------------------------------

  /** The record's name, e-mail or course contains `lowerQuery`, ignoring ASCII case. */
  predicate Matches(s: Student, lowerQuery: string) {
    || Contains(ToLower(s.name), lowerQuery)
    || Contains(ToLower(s.email), lowerQuery)
    || Contains(ToLower(s.course), lowerQuery)
  }

  /** The filtered list `handleSearch(query)` computes from `students`. */
  function SearchResults(students: seq<Student>, query: string): seq<Student> {
    if Trim(query) == "" then students
    else Filter(students, (s: Student) => Matches(s, ToLower(query)))
  }

  /**
   * A blank query shows every record; any other query shows exactly the records that
   * match it, each as often as it occurs in `students` (the order is kept, see
   * `SearchConcat`).
   */
  lemma SearchResultsSpec(students: seq<Student>, query: string)
    ensures Blank(query) ==> SearchResults(students, query) == students
    ensures !Blank(query) ==>
      && (forall k :: 0 <= k < |SearchResults(students, query)| ==>
            SearchResults(students, query)[k] in students && Matches(SearchResults(students, query)[k], ToLower(query)))
      && (forall k :: 0 <= k < |students| && Matches(students[k], ToLower(query)) ==>
            students[k] in SearchResults(students, query))
    ensures !Blank(query) ==>
      |SearchResults(students, query)| == CountWhere(students, (s: Student) => Matches(s, ToLower(query)))
    ensures !Blank(query) ==> forall x: Student ::
      multiset(SearchResults(students, query))[x] == if Matches(x, ToLower(query)) then multiset(students)[x] else 0
  {
    BlankIffTrimEmpty(query);
    FilterLength(students, (s: Student) => Matches(s, ToLower(query)));
    FilterMultiset(students, (s: Student) => Matches(s, ToLower(query)));
  }

  /** Searching distributes over concatenation, so results keep the list order. */
  lemma SearchConcat(a: seq<Student>, b: seq<Student>, query: string)
    ensures SearchResults(a + b, query) == SearchResults(a, query) + SearchResults(b, query)
  {
    FilterConcat(a, b, (s: Student) => Matches(s, ToLower(query)));
  }

  /** `prev.map(s => s.id === id ? updated : s)`. */
  function ReplaceById(list: seq<Student>, id: string, updated: Student): (r: seq<Student>)
    ensures |r| == |list|
    ensures forall k :: 0 <= k < |list| && list[k].id == id ==> r[k] == updated
    ensures forall k :: 0 <= k < |list| && list[k].id != id ==> r[k] == list[k]
  {
    seq(|list|, k requires 0 <= k < |list| => if list[k].id == id then updated else list[k])
  }

  /** A replacement that keeps the id keeps every position's id, and doing it twice changes nothing more. */
  lemma ReplaceKeepsIds(list: seq<Student>, id: string, updated: Student)
    requires updated.id == id
    ensures forall k :: 0 <= k < |list| ==> ReplaceById(list, id, updated)[k].id == list[k].id
    ensures ReplaceById(ReplaceById(list, id, updated), id, updated) == ReplaceById(list, id, updated)
  {
  }

  /** `prev.filter(s => s.id !== id)`. */
  function RemoveById(list: seq<Student>, id: string): seq<Student> {
    Filter(list, (s: Student) => s.id != id)
  }

  /**
   * Deleting leaves no record with the id, keeps every other record, leaves as many
   * records as there are without the id, and changes nothing more when done again.
   */
  lemma RemoveByIdSpec(list: seq<Student>, id: string)
    ensures forall k :: 0 <= k < |RemoveById(list, id)| ==> RemoveById(list, id)[k].id != id
    ensures forall k :: 0 <= k < |list| && list[k].id != id ==> list[k] in RemoveById(list, id)
    ensures |RemoveById(list, id)| == CountWhere(list, (s: Student) => s.id != id)
    ensures RemoveById(RemoveById(list, id), id) == RemoveById(list, id)
  {
    FilterLength(list, (s: Student) => s.id != id);
    FilterAll(RemoveById(list, id), (s: Student) => s.id != id);
  }

  /** Deleting works piecewise, so the remaining records keep their order. */
  lemma RemoveConcat(a: seq<Student>, b: seq<Student>, id: string)
    ensures RemoveById(a + b, id) == RemoveById(a, id) + RemoveById(b, id)
  {
    FilterConcat(a, b, (s: Student) => s.id != id);
  }

  /** `importedStudents.map(student => ({ ...student, id: … }))`; record `k` gets id `newId(k)`. */
  function WithFreshIds(imported: seq<Student>, newId: nat -> string): (r: seq<Student>)
    ensures |r| == |imported|
    ensures forall k :: 0 <= k < |imported| ==> FormDataOf(r[k]) == FormDataOf(imported[k]) && r[k].id == newId(k)
  {
    var r := seq(|imported|, k requires 0 <= k < |imported| => WithId(FormDataOf(imported[k]), newId(k)));
    assert forall k :: 0 <= k < |imported| ==> r[k] == WithId(FormDataOf(imported[k]), newId(k));
    r
  }

  // ---------------------------------------------------------------------------
  // The filtered list after an import
  // ---------------------------------------------------------------------------

  /**
   * The filtered list `handleStudentsImported` leaves, as written: with a query, the
   * call to `handleSearch` filters the `students` of the current render, which do not
   * yet hold the imported records.
   */
  function ImportedFilteredAsWritten(students: seq<Student>, filtered: seq<Student>, query: string,
                                     added: seq<Student>): seq<Student> {
    if query != "" then SearchResults(students, query) else filtered + added
  }

  /** The filtered list as the comment at line 98 intends: the search applied to the combined list. */
  function ImportedFiltered(students: seq<Student>, filtered: seq<Student>, query: string,
                            added: seq<Student>): seq<Student> {
    if query != "" then SearchResults(students + added, query) else filtered + added
  }

  /** With an empty list and the query `a`, an imported record named `a` is missing from the view. */
  lemma ImportedMatchMissing()
    ensures var added := [Student("id-0", "a", "", Num(0.0), "", "")];
      && Matches(added[0], ToLower("a"))
      && ImportedFilteredAsWritten([], [], "a", added) == []
  {
    assert ToLower("a") == "a";
    assert OccursAt("a", "a", 0);
  }

  /**
   * When the view shows the search of the full list, the corrected import keeps it so:
   * the view becomes the search of the combined list, the earlier results followed by
   * the imported matches.
   */
  lemma ImportedFilteredConsistent(students: seq<Student>, filtered: seq<Student>, query: string,
                                   added: seq<Student>)
    requires filtered == SearchResults(students, query)
    ensures ImportedFiltered(students, filtered, query, added) == SearchResults(students + added, query)
    ensures ImportedFiltered(students, filtered, query, added) == filtered + SearchResults(added, query)
  {
    SearchConcat(students, added, query);
    if query == "" {
      assert Trim(query) == "";
    }
  }

  // ---------------------------------------------------------------------------
  // The page state
  // ---------------------------------------------------------------------------

  /** The state of the `Index` page. */
  class Page {
    var students: seq<Student>
    var filteredStudents: seq<Student>
    var isStudentFormOpen: bool
    var selectedStudent: Option<Student>
    var searchQuery: string

    constructor()
      ensures students == [] && filteredStudents == [] && !isStudentFormOpen
      ensures selectedStudent == None && searchQuery == ""
    {
      students := [];
      filteredStudents := [];
      isStudentFormOpen := false;
      selectedStudent := None;
      searchQuery := "";
    }

    /** `handleSearch`. */
    method HandleSearch(query: string)
      modifies this
      ensures searchQuery == query && filteredStudents == SearchResults(students, query)
      ensures students == old(students) && isStudentFormOpen == old(isStudentFormOpen)
      ensures selectedStudent == old(selectedStudent)
    {
      searchQuery := query;
      filteredStudents := SearchResults(students, query);
    }

    /** `handleAddStudent`; `id` is the `student-${Date.now()}` of the call. */
    method HandleAddStudent(data: StudentFormData, id: string)
      modifies this
      ensures students == old(students) + [WithId(data, id)]
      ensures filteredStudents == old(filteredStudents) + [WithId(data, id)]
      ensures !isStudentFormOpen
      ensures selectedStudent == old(selectedStudent) && searchQuery == old(searchQuery)
    {
      var newStudent := WithId(data, id);
      students := students + [newStudent];
      filteredStudents := filteredStudents + [newStudent];
      isStudentFormOpen := false;
    }

    /** `handleEditStudent`: open the form on `s`. */
    method HandleEditStudent(s: Student)
      modifies this
      ensures selectedStudent == Some(s) && isStudentFormOpen
      ensures students == old(students) && filteredStudents == old(filteredStudents)
      ensures searchQuery == old(searchQuery)
    {
      selectedStudent := Some(s);
      isStudentFormOpen := true;
    }

    /** The search bar's `onAddNew`: open the form on no record. */
    method OpenNewForm()
      modifies this
      ensures selectedStudent == None && isStudentFormOpen
      ensures students == old(students) && filteredStudents == old(filteredStudents)
      ensures searchQuery == old(searchQuery)
    {
      selectedStudent := None;
      isStudentFormOpen := true;
    }

    /** The form's `onClose`. */
    method CloseForm()
      modifies this
      ensures selectedStudent == None && !isStudentFormOpen
      ensures students == old(students) && filteredStudents == old(filteredStudents)
      ensures searchQuery == old(searchQuery)
    {
      isStudentFormOpen := false;
      selectedStudent := None;
    }

    /** `handleSubmitEdit`: every record with the selected id becomes `data` under that id. */
    method HandleSubmitEdit(data: StudentFormData)
      modifies this
      ensures old(selectedStudent).None? ==>
        && students == old(students) && filteredStudents == old(filteredStudents)
        && isStudentFormOpen == old(isStudentFormOpen) && selectedStudent == old(selectedStudent)
      ensures old(selectedStudent).Some? ==>
        var id := old(selectedStudent).value.id;
        && students == ReplaceById(old(students), id, WithId(data, id))
        && filteredStudents == ReplaceById(old(filteredStudents), id, WithId(data, id))
        && !isStudentFormOpen && selectedStudent == None
      ensures searchQuery == old(searchQuery)
    {
      if selectedStudent.None? {
        return;
      }
      var id := selectedStudent.value.id;
      var updated := WithId(data, id);
      students := ReplaceById(students, id, updated);
      filteredStudents := ReplaceById(filteredStudents, id, updated);
      isStudentFormOpen := false;
      selectedStudent := None;
    }

    /** The form's `onSubmit`: `selectedStudent ? handleSubmitEdit : handleAddStudent`. */
    method SubmitForm(data: StudentFormData, id: string)
      modifies this
      ensures old(selectedStudent).None? ==>
        && students == old(students) + [WithId(data, id)]
        && filteredStudents == old(filteredStudents) + [WithId(data, id)]
      ensures old(selectedStudent).Some? ==>
        var sid := old(selectedStudent).value.id;
        && students == ReplaceById(old(students), sid, WithId(data, sid))
        && filteredStudents == ReplaceById(old(filteredStudents), sid, WithId(data, sid))
      ensures !isStudentFormOpen && selectedStudent == None
      ensures searchQuery == old(searchQuery)
    {
      if selectedStudent.Some? {
        HandleSubmitEdit(data);
      } else {
        HandleAddStudent(data, id);
      }
    }

    /** `handleDeleteStudent`. */
    method HandleDeleteStudent(id: string)
      modifies this
      ensures students == RemoveById(old(students), id)
      ensures filteredStudents == RemoveById(old(filteredStudents), id)
      ensures isStudentFormOpen == old(isStudentFormOpen) && selectedStudent == old(selectedStudent)
      ensures searchQuery == old(searchQuery)
    {
      students := RemoveById(students, id);
      filteredStudents := RemoveById(filteredStudents, id);
    }

    /**
     * `handleStudentsImported`, with the search applied to the combined list (see
     * `ImportedFilteredAsWritten` for the code as written).
     */
    method HandleStudentsImported(imported: seq<Student>, newId: nat -> string)
      modifies this
      ensures students == old(students) + WithFreshIds(imported, newId)
      ensures filteredStudents
        == ImportedFiltered(old(students), old(filteredStudents), old(searchQuery), WithFreshIds(imported, newId))
      ensures isStudentFormOpen == old(isStudentFormOpen) && selectedStudent == old(selectedStudent)
      ensures searchQuery == old(searchQuery)
    {
      var studentsWithIds := WithFreshIds(imported, newId);
      students := students + studentsWithIds;
      if searchQuery != "" {
        HandleSearch(searchQuery);
      } else {
        filteredStudents := filteredStudents + studentsWithIds;
      }
    }
  }
}
