/**
 * The analytics card (src/components/AnalyticsDashboard.tsx): the number of students,
 * the course distribution and the grade distribution, each counted from the rows the
 * backend returns with a `Map` that keeps its keys in insertion order.
 */
module Analytics {
  import opened StudentTypes

  /** `COLORS`. */
  const Colors: seq<string> := ["#4f46e5", "#8b5cf6", "#a78bfa", "#c4b5fd", "#ddd6fe"]

  // ---------------------------------------------------------------------------
  // Counting by key
  // ---------------------------------------------------------------------------

  /** The number of rows of `items` whose key is `x`. */
  function Count(items: seq<string>, x: string): nat {
    if items == [] then 0
    else Count(items[..|items| - 1], x) + (if items[|items| - 1] == x then 1 else 0)
  }

  /** The distinct keys of `items`, in the order of their first occurrence. */
  function FirstOccurrences(items: seq<string>): (keys: seq<string>)
    ensures forall x :: x in keys <==> x in items
    ensures forall i, j :: 0 <= i < j < |keys| ==> keys[i] != keys[j]
  {
    if items == [] then []
    else
      var init := items[..|items| - 1];
      var x := items[|items| - 1];
      assert items == init + [x];
      if x in init then FirstOccurrences(init) else FirstOccurrences(init) + [x]
  }

  /** The `Map` after `map.set(key, (map.get(key) || 0) + 1)` for every row in turn. */
  function CountMapOf(items: seq<string>): map<string, nat> {
    if items == [] then map[]
    else
      var m := CountMapOf(items[..|items| - 1]);
      var x := items[|items| - 1];
      m[x := (if x in m then m[x] else 0) + 1]
  }

  /** The map holds exactly the keys of `items`, each with its number of rows. */
  lemma {:induction false} CountMapOfSpec(items: seq<string>)
    ensures forall x :: x in CountMapOf(items) <==> x in items
    ensures forall x :: x in CountMapOf(items) ==> CountMapOf(items)[x] == Count(items, x)
  {
    if items != [] {
      var init := items[..|items| - 1];
      CountMapOfSpec(init);
      assert items == init + [items[|items| - 1]];
      forall x | x in CountMapOf(items) && x !in init ensures CountMapOf(items)[x] == Count(items, x) {
        CountAbsent(init, x);
      }
    }
  }

  lemma {:induction false} CountAbsent(items: seq<string>, x: string)
    requires x !in items
    ensures Count(items, x) == 0
  {
    if items != [] {
      var init := items[..|items| - 1];
      assert items == init + [items[|items| - 1]];
      CountAbsent(init, x);
    }
  }

  /** The counting loop of the effect (lines 47-51 and 70-74): a key joins the order when first seen. */
  method CountByKey(items: seq<string>) returns (keys: seq<string>, counts: map<string, nat>)
    ensures keys == FirstOccurrences(items) && counts == CountMapOf(items)
  {
    keys := [];
    counts := map[];
    for i := 0 to |items|
      invariant keys == FirstOccurrences(items[..i]) && counts == CountMapOf(items[..i])
    {
      var x := items[i];
      assert items[..i + 1][..i] == items[..i];
      CountMapOfSpec(items[..i]);
      var count := if x in counts then counts[x] else 0;
      if x !in counts {
        keys := keys + [x];
      }
      counts := counts[x := count + 1];
    }
    assert items[..|items|] == items;
  }

  /** The sum of the row counts of `keys`. */
  function SumCount(keys: seq<string>, items: seq<string>): nat {
    if keys == [] then 0 else SumCount(keys[..|keys| - 1], items) + Count(items, keys[|keys| - 1])
  }

  lemma {:induction false} SumCountSnoc(keys: seq<string>, init: seq<string>, x: string)
    requires forall i, j :: 0 <= i < j < |keys| ==> keys[i] != keys[j]
    ensures SumCount(keys, init + [x]) == SumCount(keys, init) + (if x in keys then 1 else 0)
  {
    assert (init + [x])[..|init|] == init;
    if keys != [] {
      var kinit := keys[..|keys| - 1];
      assert forall i, j :: 0 <= i < j < |kinit| ==> kinit[i] == keys[i] && kinit[j] == keys[j];
      SumCountSnoc(kinit, init, x);
      assert keys == kinit + [keys[|keys| - 1]];
      assert x in keys <==> x in kinit || x == keys[|keys| - 1];
    }
  }

  /** The counts of the distinct keys add up to the number of rows. */
  lemma {:induction false} CountsSum(items: seq<string>)
    ensures SumCount(FirstOccurrences(items), items) == |items|
  {
    if items != [] {
      var init := items[..|items| - 1];
      var x := items[|items| - 1];
      assert items == init + [x];
      CountsSum(init);
      var keys := FirstOccurrences(init);
      SumCountSnoc(keys, init, x);
      if x !in init {
        CountAbsent(init, x);
        assert (keys + [x])[..|keys|] == keys;
        SumCountSnoc(keys, init, x);
      }
    }
  }

  // ---------------------------------------------------------------------------
  // The course distribution
  // ---------------------------------------------------------------------------

  /** `{ name, value, color }`. */
  datatype CourseEntry = CourseEntry(name: string, value: nat, color: string)

  /** `Array.from(courseMap.entries()).map(([name, value], index) => …)`. */
  function CourseEntries(keys: seq<string>, counts: map<string, nat>): (d: seq<CourseEntry>)
    requires forall i :: 0 <= i < |keys| ==> keys[i] in counts
    ensures |d| == |keys|
    ensures forall i :: 0 <= i < |keys| ==>
      d[i].name == keys[i] && d[i].value == counts[keys[i]] && d[i].color == Colors[i % 5]
  {
    seq(|keys|, i requires 0 <= i < |keys| => CourseEntry(keys[i], counts[keys[i]], Colors[i % |Colors|]))
  }

  /** The course distribution of the fetched rows. */
  function CourseDistribution(courses: seq<string>): seq<CourseEntry> {
    CountMapOfSpec(courses);
    CourseEntries(FirstOccurrences(courses), CountMapOf(courses))
  }

  function ValueSum(d: seq<CourseEntry>): nat {
    if d == [] then 0 else ValueSum(d[..|d| - 1]) + d[|d| - 1].value
  }

  lemma {:induction false} ValueSumOfCounts(d: seq<CourseEntry>, keys: seq<string>, items: seq<string>)
    requires |d| == |keys|
    requires forall i :: 0 <= i < |d| ==> d[i].value == Count(items, keys[i])
    ensures ValueSum(d) == SumCount(keys, items)
  {
    if d != [] {
      ValueSumOfCounts(d[..|d| - 1], keys[..|keys| - 1], items);
    }
  }

  /**
   * There is one entry per distinct course, in order of first occurrence; entry `i`
   * carries that course's number of rows and colour `i mod 5`; the values add up to
   * the number of rows.
   */
  lemma CourseDistributionSpec(courses: seq<string>)
    ensures |CourseDistribution(courses)| == |FirstOccurrences(courses)|
    ensures forall i :: 0 <= i < |CourseDistribution(courses)| ==>
      && CourseDistribution(courses)[i].name == FirstOccurrences(courses)[i]
      && CourseDistribution(courses)[i].value == Count(courses, FirstOccurrences(courses)[i])
      && CourseDistribution(courses)[i].color == Colors[i % 5]
    ensures ValueSum(CourseDistribution(courses)) == |courses|
  {
    CountMapOfSpec(courses);
    ValueSumOfCounts(CourseDistribution(courses), FirstOccurrences(courses), courses);
    CountsSum(courses);
  }

  // ---------------------------------------------------------------------------
  // The grade distribution
  // ---------------------------------------------------------------------------

  /** `{ grade, count }`. */
  datatype GradeEntry = GradeEntry(grade: string, count: nat)

  function GradeEntries(keys: seq<string>, counts: map<string, nat>): (d: seq<GradeEntry>)
    requires forall i :: 0 <= i < |keys| ==> keys[i] in counts
    ensures |d| == |keys|
    ensures forall i :: 0 <= i < |keys| ==> d[i] == GradeEntry(keys[i], counts[keys[i]])
  {
    seq(|keys|, i requires 0 <= i < |keys| => GradeEntry(keys[i], counts[keys[i]]))
  }

  /** `a.localeCompare(b) <= 0`, taken as the order of character codes. */
  predicate KeyLeq(a: string, b: string) {
    a == [] || (b != [] && (a[0] < b[0] || (a[0] == b[0] && KeyLeq(a[1..], b[1..]))))
  }

  lemma {:induction false} KeyLeqTotal(a: string, b: string)
    ensures KeyLeq(a, b) || KeyLeq(b, a)
  {
    if a != [] && b != [] && a[0] == b[0] {
      KeyLeqTotal(a[1..], b[1..]);
    }
  }

  lemma {:induction false} KeyLeqTrans(a: string, b: string, c: string)
    requires KeyLeq(a, b) && KeyLeq(b, c)
    ensures KeyLeq(a, c)
  {
    if a != [] && a[0] == b[0] && b[0] == c[0] {
      KeyLeqTrans(a[1..], b[1..], c[1..]);
    }
  }

  /** The entries are in ascending order of their grade keys. */
  predicate SortedByGrade(d: seq<GradeEntry>) {
    forall i, j :: 0 <= i < j < |d| ==> KeyLeq(d[i].grade, d[j].grade)
  }

  /** `e` placed before the first entry whose key is not below its own. */
  function Insert(e: GradeEntry, d: seq<GradeEntry>): seq<GradeEntry> {
    if d == [] || KeyLeq(e.grade, d[0].grade) then [e] + d else [d[0]] + Insert(e, d[1..])
  }

  /**
   * `.sort((a, b) => a.grade.localeCompare(b.grade))`, as an insertion sort: stable,
   * like the sort of the JavaScript runtime.
   */
  function SortByGrade(d: seq<GradeEntry>): seq<GradeEntry> {
    if d == [] then [] else Insert(d[0], SortByGrade(d[1..]))
  }

  /** Insertion adds `e` and keeps every entry already there. */
  lemma {:induction false} InsertMultiset(e: GradeEntry, d: seq<GradeEntry>)
    ensures multiset(Insert(e, d)) == multiset(d) + multiset{e}
  {
    if d != [] && !KeyLeq(e.grade, d[0].grade) {
      InsertMultiset(e, d[1..]);
      assert d == [d[0]] + d[1..];
    }
  }

  /** Every entry after insertion is `e` or an entry of `d`. */
  lemma InsertMembers(e: GradeEntry, d: seq<GradeEntry>, x: GradeEntry)
    requires x in Insert(e, d)
    ensures x == e || x in d
  {
    InsertMultiset(e, d);
    assert x in multiset(Insert(e, d));
  }

  lemma {:induction false} InsertSorted(e: GradeEntry, d: seq<GradeEntry>)
    requires SortedByGrade(d)
    ensures SortedByGrade(Insert(e, d))
  {
    if d != [] && !KeyLeq(e.grade, d[0].grade) {
      InsertSorted(e, d[1..]);
      var r := Insert(e, d[1..]);
      KeyLeqTotal(e.grade, d[0].grade);
      forall j | 0 <= j < |r| ensures KeyLeq(d[0].grade, r[j].grade) {
        InsertMembers(e, d[1..], r[j]);
        if r[j] != e {
          var k :| 0 <= k < |d[1..]| && d[1..][k] == r[j];
          assert d[k + 1] == r[j];
        }
      }
      var all := [d[0]] + r;
      assert Insert(e, d) == all;
      assert forall j :: 1 <= j < |all| ==> all[j] == r[j - 1];
    } else if d != [] {
      forall j | 1 <= j < |d| ensures KeyLeq(e.grade, d[j].grade) {
        KeyLeqTrans(e.grade, d[0].grade, d[j].grade);
      }
      var all := [e] + d;
      assert forall j :: 1 <= j < |all| ==> all[j] == d[j - 1];
    }
  }

  lemma InsertSpec(e: GradeEntry, d: seq<GradeEntry>)
    requires SortedByGrade(d)
    ensures SortedByGrade(Insert(e, d))
    ensures multiset(Insert(e, d)) == multiset(d) + multiset{e}
  {
    InsertSorted(e, d);
    InsertMultiset(e, d);
  }

  /** The sorted entries are in ascending key order and are the same entries. */
  lemma {:induction false} SortByGradeSpec(d: seq<GradeEntry>)
    ensures SortedByGrade(SortByGrade(d))
    ensures multiset(SortByGrade(d)) == multiset(d)
  {
    if d != [] {
      SortByGradeSpec(d[1..]);
      InsertSpec(d[0], SortByGrade(d[1..]));
      assert d == [d[0]] + d[1..];
    }
  }

  /** No two entries share a grade key. */
  predicate DistinctGrades(d: seq<GradeEntry>) {
    forall i, j :: 0 <= i < j < |d| ==> d[i].grade != d[j].grade
  }

  /** Inserting an entry whose key is not yet present keeps the keys distinct. */
  lemma {:induction false} InsertDistinct(e: GradeEntry, d: seq<GradeEntry>)
    requires DistinctGrades(d)
    requires forall k :: 0 <= k < |d| ==> d[k].grade != e.grade
    ensures DistinctGrades(Insert(e, d))
  {
    if d == [] || KeyLeq(e.grade, d[0].grade) {
      var all := [e] + d;
      assert forall j :: 1 <= j < |all| ==> all[j] == d[j - 1];
    } else {
      var rest := d[1..];
      InsertDistinct(e, rest);
      var r := Insert(e, rest);
      forall j | 0 <= j < |r| ensures r[j].grade != d[0].grade {
        InsertMembers(e, rest, r[j]);
        if r[j] != e {
          var k :| 0 <= k < |rest| && rest[k] == r[j];
          assert d[k + 1] == r[j];
        }
      }
      var all := [d[0]] + r;
      assert forall j :: 1 <= j < |all| ==> all[j] == r[j - 1];
    }
  }

  /** Sorting entries with distinct keys keeps the keys distinct. */
  lemma {:induction false} SortDistinct(d: seq<GradeEntry>)
    requires DistinctGrades(d)
    ensures DistinctGrades(SortByGrade(d))
  {
    if d != [] {
      var rest := d[1..];
      SortDistinct(rest);
      var r := SortByGrade(rest);
      SortByGradeSpec(rest);
      forall k | 0 <= k < |r| ensures r[k].grade != d[0].grade {
        assert r[k] in multiset(rest);
        var m :| 0 <= m < |rest| && rest[m] == r[k];
        assert d[m + 1] == r[k];
      }
      InsertDistinct(d[0], r);
    }
  }

  /** The sum of the counts of the entries. */
  function CountSum(d: seq<GradeEntry>): nat {
    if d == [] then 0 else d[0].count + CountSum(d[1..])
  }

  lemma {:induction false} CountSumSnoc(d: seq<GradeEntry>, x: GradeEntry)
    ensures CountSum(d + [x]) == CountSum(d) + x.count
  {
    if d != [] {
      CountSumSnoc(d[1..], x);
      assert (d + [x])[1..] == d[1..] + [x];
    }
  }

  /** Insertion adds the count of the inserted entry. */
  lemma {:induction false} InsertCountSum(e: GradeEntry, d: seq<GradeEntry>)
    ensures CountSum(Insert(e, d)) == e.count + CountSum(d)
  {
    if d != [] && !KeyLeq(e.grade, d[0].grade) {
      InsertCountSum(e, d[1..]);
      assert ([d[0]] + Insert(e, d[1..]))[1..] == Insert(e, d[1..]);
    } else {
      assert ([e] + d)[1..] == d;
    }
  }

  /** Sorting keeps the sum of the counts. */
  lemma {:induction false} SortCountSum(d: seq<GradeEntry>)
    ensures CountSum(SortByGrade(d)) == CountSum(d)
  {
    if d != [] {
      SortCountSum(d[1..]);
      InsertCountSum(d[0], SortByGrade(d[1..]));
    }
  }

  lemma {:induction false} CountSumOfCounts(d: seq<GradeEntry>, keys: seq<string>, items: seq<string>)
    requires |d| == |keys|
    requires forall i :: 0 <= i < |d| ==> d[i].count == Count(items, keys[i])
    ensures CountSum(d) == SumCount(keys, items)
  {
    if d != [] {
      var init := d[..|d| - 1];
      CountSumOfCounts(init, keys[..|keys| - 1], items);
      CountSumSnoc(init, d[|d| - 1]);
      assert init + [d[|d| - 1]] == d;
    }
  }

  /** The grade distribution of the fetched rows. */
  function GradeDistribution(grades: seq<string>): seq<GradeEntry> {
    CountMapOfSpec(grades);
    SortByGrade(GradeEntries(FirstOccurrences(grades), CountMapOf(grades)))
  }

  /** The sorted entries are those built from the distinct keys and their counts. */
  lemma GradeDistributionMembers(grades: seq<string>)
    ensures SortedByGrade(GradeDistribution(grades))
    ensures forall e: GradeEntry :: e in GradeDistribution(grades) <==> e.grade in grades && e.count == Count(grades, e.grade)
  {
    CountMapOfSpec(grades);
    var keys := FirstOccurrences(grades);
    var unsorted := GradeEntries(keys, CountMapOf(grades));
    var d := GradeDistribution(grades);
    SortByGradeSpec(unsorted);
    forall e: GradeEntry ensures e in d <==> e in unsorted {
      assert e in d <==> e in multiset(d);
    }
    forall e: GradeEntry | e.grade in grades && e.count == Count(grades, e.grade) ensures e in unsorted {
      var i :| 0 <= i < |keys| && keys[i] == e.grade;
      assert unsorted[i] == e;
    }
  }

  /** One entry per distinct key, no key twice, and the counts add up to the rows. */
  lemma GradeDistributionCounts(grades: seq<string>)
    ensures |GradeDistribution(grades)| == |FirstOccurrences(grades)|
    ensures DistinctGrades(GradeDistribution(grades))
    ensures CountSum(GradeDistribution(grades)) == |grades|
  {
    CountMapOfSpec(grades);
    var keys := FirstOccurrences(grades);
    var unsorted := GradeEntries(keys, CountMapOf(grades));
    var d := GradeDistribution(grades);
    assert d == SortByGrade(unsorted);
    SortByGradeSpec(unsorted);
    assert |multiset(d)| == |multiset(unsorted)|;
    SortDistinct(unsorted);
    SortCountSum(unsorted);
    CountSumOfCounts(unsorted, keys, grades);
    CountsSum(grades);
  }

  /**
   * The grade distribution is sorted by grade key and holds exactly one entry per
   * distinct grade key, with that key's number of rows; the counts add up to the
   * number of rows.
   */
  lemma GradeDistributionSpec(grades: seq<string>)
    ensures SortedByGrade(GradeDistribution(grades))
    ensures forall e: GradeEntry :: e in GradeDistribution(grades) <==> e.grade in grades && e.count == Count(grades, e.grade)
    ensures |GradeDistribution(grades)| == |FirstOccurrences(grades)|
    ensures DistinctGrades(GradeDistribution(grades))
    ensures CountSum(GradeDistribution(grades)) == |grades|
  {
    GradeDistributionMembers(grades);
    GradeDistributionCounts(grades);
  }

  // ---------------------------------------------------------------------------
  // The effect
  // ---------------------------------------------------------------------------

  /** `count || 0`: a missing count shows as no students. */
  function TotalStudents(count: Option<nat>): (n: nat)
    ensures count.None? ==> n == 0
    ensures count.Some? ==> n == count.value
  {
    match count
    case None => 0
    case Some(c) => c
  }

  /** One backend query: its data, or the error it reported. */
  datatype Fetch<T> = Failed | Fetched(value: T)

  function ErrorToast(): Toast {
    Toast("Error loading analytics", "Failed to load analytics data. Please try again.", Destructive)
  }

  /** The state of the `AnalyticsDashboard`. */
  class Dashboard {
    var courseData: seq<CourseEntry>
    var gradeData: seq<GradeEntry>
    var totalStudents: nat
    var loading: bool

    constructor()
      ensures courseData == [] && gradeData == [] && totalStudents == 0 && loading
    {
      courseData := [];
      gradeData := [];
      totalStudents := 0;
      loading := true;
    }

    /**
     * `fetchAnalyticsData`, given the answers of its three queries in turn. The first
     * failing query ends the run with the error toast and leaves later state alone.
     */
    method FetchAnalyticsData(count: Fetch<Option<nat>>, courses: Fetch<seq<string>>, grades: Fetch<seq<string>>)
      returns (toast: Option<Toast>)
      modifies this
      ensures !loading
      ensures count.Failed? ==>
        && totalStudents == old(totalStudents) && courseData == old(courseData)
        && gradeData == old(gradeData) && toast == Some(ErrorToast())
      ensures count.Fetched? ==> totalStudents == TotalStudents(count.value)
      ensures count.Fetched? && courses.Failed? ==>
        courseData == old(courseData) && gradeData == old(gradeData) && toast == Some(ErrorToast())
      ensures count.Fetched? && courses.Fetched? ==> courseData == CourseDistribution(courses.value)
      ensures count.Fetched? && courses.Fetched? && grades.Failed? ==>
        gradeData == old(gradeData) && toast == Some(ErrorToast())
      ensures count.Fetched? && courses.Fetched? && grades.Fetched? ==>
        gradeData == GradeDistribution(grades.value) && toast == None
    {
      toast := None;
      if count.Failed? {
        toast := Some(ErrorToast());
      } else {
        totalStudents := TotalStudents(count.value);
        if courses.Failed? {
          toast := Some(ErrorToast());
        } else {
          var courseKeys, courseMap := CountByKey(courses.value);
          CountMapOfSpec(courses.value);
          courseData := CourseEntries(courseKeys, courseMap);
          if grades.Failed? {
            toast := Some(ErrorToast());
          } else {
            var gradeKeys, gradeMap := CountByKey(grades.value);
            CountMapOfSpec(grades.value);
            gradeData := SortByGrade(GradeEntries(gradeKeys, gradeMap));
          }
        }
      }
      loading := false;
    }
  }
}
